/** Where the resumes begin (`start_page`) and the primary pass of
    `find_resume_pages_flexible`: each page from `start_page` on that is not a
    cover letter is searched for every candidate not placed yet, with five
    prefix-substring tests tried in order. */
module Locator {
  import opened Text
  import opened Regex
  import opened Roster
  import opened Assignments

  // The boundary after the table of contents.

  /** The last of `pages[..p]` whose text holds a `C<digit>` token, or 0 when
      none does. */
  function LastIdPage(pages: seq<string>, p: nat): (last: nat)
    requires p <= |pages|
    ensures last == 0 || (last < p && HasIdToken(pages[last]))
    ensures forall q :: last < q < p ==> !HasIdToken(pages[q])
  {
    if p == 0 then 0
    else if HasIdToken(pages[p - 1]) then p - 1
    else LastIdPage(pages, p - 1)
  }

  /** `start_page = max(1, last_toc_page + 1)`, where `last_toc_page` is the
      last of the first `min(15, n)` pages that holds an id token. */
  function StartPage(pages: seq<string>): (start: nat)
    ensures start >= 1
  {
    // `max(1, last + 1)` is `last + 1`, as `last` is never negative.
    LastIdPage(pages, TocLimit(|pages|)) + 1
  }

  /** The resumes start right after the last table-of-contents page that holds
      an id token: no page from `start_page` to the end of the scanned window
      holds one, and the page before `start_page` holds one unless it is the
      first page. */
  lemma StartPageAfterToc(pages: seq<string>)
    ensures 1 <= StartPage(pages) <= (if TocLimit(|pages|) < 1 then 1 else TocLimit(|pages|))
    ensures forall q :: StartPage(pages) <= q < TocLimit(|pages|) ==> !HasIdToken(pages[q])
    ensures StartPage(pages) > 1 ==> HasIdToken(pages[StartPage(pages) - 1])
  {
  }

  method FindStartPage(pages: seq<string>) returns (startPage: nat)
    ensures startPage == StartPage(pages)
  {
    var lastTocPage := 0;
    var pageNum := 0;
    while pageNum < TocLimit(|pages|)
      invariant pageNum <= TocLimit(|pages|)
      invariant lastTocPage == LastIdPage(pages, pageNum)
    {
      if HasIdToken(pages[pageNum]) {
        lastTocPage := pageNum;
      }
      pageNum := pageNum + 1;
    }
    startPage := lastTocPage + 1;
  }

  // The five name tests.

  /** `re.sub(r"['\-\.]", " ", name).strip()`: apostrophes, hyphens and dots
      become spaces, then the ends are stripped; inner runs of spaces stay. */
  function CleanName(name: string): (r: string)
    ensures exists i :: CleanSlice(name, i, r)
    ensures forall k :: 0 <= k < |r| ==> r[k] !in "'-."
    ensures r == [] || (!IsSpace(r[0]) && !IsSpace(r[|r| - 1]))
  {
    CleanNameSlice(name);
    Strip(ReplaceAny(name, "'-.", ' '))
  }

  lemma CleanNameSlice(name: string)
    ensures exists i :: CleanSlice(name, i, Strip(ReplaceAny(name, "'-.", ' ')))
    ensures forall k :: 0 <= k < |Strip(ReplaceAny(name, "'-.", ' '))| ==> Strip(ReplaceAny(name, "'-.", ' '))[k] !in "'-."
  {
    var t := ReplaceAny(name, "'-.", ' ');
    var i, j :| 0 <= i <= j <= |t| && Strip(t) == t[i..j] && AllSpace(t[..i]) && AllSpace(t[j..]);
    StrippedSlice(name, t, i, j);
  }

  /** What the name cleaning may cut off either end. */
  predicate NameSeparator(c: char)
  {
    IsSpace(c) || c in "'-."
  }

  /** `r` is the slice of `name` from `i` with `'`, `-` and `.` made spaces,
      and only separators lie before and after it. */
  predicate CleanSlice(name: string, i: nat, r: string)
  {
    i + |r| <= |name|
    && (forall k :: 0 <= k < |r| ==> r[k] == if name[i + k] in "'-." then ' ' else name[i + k])
    && (forall k :: 0 <= k < i ==> NameSeparator(name[k]))
    && (forall k :: i + |r| <= k < |name| ==> NameSeparator(name[k]))
  }

  lemma StrippedSlice(name: string, t: string, i: nat, j: nat)
    requires t == ReplaceAny(name, "'-.", ' ')
    requires i <= j <= |t| && AllSpace(t[..i]) && AllSpace(t[j..])
    ensures CleanSlice(name, i, t[i..j])
    ensures forall k :: 0 <= k < |t[i..j]| ==> t[i..j][k] !in "'-."
  {
    forall k | 0 <= k < i
      ensures NameSeparator(name[k])
    {
      assert IsSpace(t[..i][k]);
    }
    forall k | j <= k < |name|
      ensures NameSeparator(name[k])
    {
      assert IsSpace(t[j..][k - j]);
    }
  }

  /** `text.replace('\n', ' ')` */
  function NoNewlines(text: string): (r: string)
    ensures |r| == |text| && '\n' !in r
  {
    ReplaceAny(text, "\n", ' ')
  }

  /** How many of `parts` are longer than two characters and occur, upper-cased,
      in `window`. */
  function PartHits(parts: seq<string>, window: string): (n: nat)
    ensures n <= |parts|
  {
    if parts == [] then 0
    else
      var last := parts[|parts| - 1];
      PartHits(parts[..|parts| - 1], window) + (if |last| > 2 && Contains(window, Upper(last)) then 1 else 0)
  }

  /** Method 1: the cleaned name in the first 600 characters, newlines made
      spaces. */
  predicate CleanNameNear(c: Candidate, text: string)
  {
    Contains(Prefix(Upper(NoNewlines(text)), 600), Upper(CleanName(c.name)))
  }

  /** Methods 2 and 3: the name as listed, in the first `window` characters. */
  predicate NameWithin(c: Candidate, text: string, window: nat)
  {
    Contains(Prefix(Upper(text), window), Upper(c.name))
  }

  /** Method 4: at least two of the cleaned name's parts longer than two
      characters in the first 800 characters, newlines made spaces. */
  predicate PartsNear(c: Candidate, text: string)
  {
    var parts := SplitWs(CleanName(c.name));
    |parts| >= 2 && PartHits(parts, Prefix(Upper(NoNewlines(text)), 800)) >= 2
  }

  /** Method 5: the first and the last part of the cleaned name in the first
      1000 characters, newlines made spaces. */
  predicate FirstLastNear(c: Candidate, text: string)
  {
    var parts := SplitWs(CleanName(c.name));
    var window := Prefix(Upper(NoNewlines(text)), 1000);
    |parts| >= 2 && Contains(window, Upper(parts[0])) && Contains(window, Upper(parts[|parts| - 1]))
  }

  /** The first of the five methods that finds `c` on a page, or 0. */
  function MatchMethod(c: Candidate, text: string): (m: nat)
    ensures m <= 5
  {
    if CleanNameNear(c, text) then 1
    else if NameWithin(c, text, 600) then 2
    else if NameWithin(c, text, 2000) then 3
    else if PartsNear(c, text) then 4
    else if FirstLastNear(c, text) then 5
    else 0
  }

  predicate NameOnPage(c: Candidate, text: string)
  {
    MatchMethod(c, text) > 0
  }

  /** A page is attributed to a candidate exactly when one of the five tests
      succeeds; method 2 never decides anything, since a name in the first 600
      characters is also in the first 2000. */
  lemma NameOnPageTests(c: Candidate, text: string)
    ensures NameOnPage(c, text) <==>
      CleanNameNear(c, text) || NameWithin(c, text, 600) || NameWithin(c, text, 2000)
      || PartsNear(c, text) || FirstLastNear(c, text)
    ensures NameOnPage(c, text) <==>
      CleanNameNear(c, text) || NameWithin(c, text, 2000) || PartsNear(c, text) || FirstLastNear(c, text)
  {
    if NameWithin(c, text, 600) {
      ContainsInLongerPrefix(Upper(text), Upper(c.name), 600, 2000);
    }
  }

  /** A name that cleans to nothing (only whitespace, apostrophes, hyphens
      and dots) is found by the first test on every page: the empty string
      occurs in every text. */
  lemma EmptyCleanNameMatches(c: Candidate, text: string)
    requires CleanName(c.name) == ""
    ensures MatchMethod(c, text) == 1
  {
    assert [] <= Prefix(Upper(NoNewlines(text)), 600);
  }

  /** Method 4's loop over the name parts. */
  method CountPartHits(parts: seq<string>, window: string) returns (foundParts: nat)
    ensures foundParts == PartHits(parts, window)
  {
    foundParts := 0;
    var i := 0;
    while i < |parts|
      invariant i <= |parts|
      invariant foundParts == PartHits(parts[..i], window)
    {
      var part := parts[i];
      assert parts[..i + 1][..i] == parts[..i];
      if |part| > 2 && Contains(window, Upper(part)) {
        foundParts := foundParts + 1;
      }
      i := i + 1;
    }
    assert parts[..i] == parts;
  }

  /** The five tests for one candidate on one page, in order. */
  method TryCandidate(c: Candidate, pageText: string) returns (found: nat)
    ensures found == MatchMethod(c, pageText)
  {
    var cleanName := CleanName(c.name);
    var nameParts := SplitWs(cleanName);
    var noNewlines := NoNewlines(pageText);
    var pageUpper := Upper(pageText);
    var upperNoNewlines := Upper(noNewlines);
    if Contains(Prefix(upperNoNewlines, 600), Upper(cleanName)) {
      return 1;
    }
    if Contains(Prefix(pageUpper, 600), Upper(c.name)) {
      return 2;
    }
    if Contains(Prefix(pageUpper, 2000), Upper(c.name)) {
      return 3;
    }
    if |nameParts| >= 2 {
      var foundParts := CountPartHits(nameParts, Prefix(upperNoNewlines, 800));
      if foundParts >= 2 {
        return 4;
      }
    }
    if |nameParts| >= 2 {
      var firstName := Upper(nameParts[0]);
      var lastName := Upper(nameParts[|nameParts| - 1]);
      if Contains(Prefix(upperNoNewlines, 1000), firstName) && Contains(Prefix(upperNoNewlines, 1000), lastName) {
        return 5;
      }
    }
    return 0;
  }

  // The primary pass.

  /** One page: the candidates from the `k`-th on, each placed on `page` when
      their id is not placed yet and one of the tests finds them. */
  function PlaceFrom(finds: (Candidate, string) -> bool, cands: seq<Candidate>, k: nat, text: string, page: nat, rp: seq<Assignment>): seq<Assignment>
    decreases |cands| - k
  {
    if k >= |cands| then rp
    else
      var c := cands[k];
      var next := if !IdPlaced(rp, c.id) && finds(c, text) then rp + [Assignment(c.name, c.id, page)] else rp;
      PlaceFrom(finds, cands, k + 1, text, page, next)
  }

  /** The page loop from page `p` on; cover-letter pages are passed over. */
  function PrimaryFrom(isCover: string -> bool, finds: (Candidate, string) -> bool, pages: seq<string>, cands: seq<Candidate>, p: nat, rp: seq<Assignment>): seq<Assignment>
    decreases |pages| - p
  {
    if p >= |pages| then rp
    else
      var next := if isCover(pages[p]) then rp else PlaceFrom(finds, cands, 0, pages[p], p, rp);
      PrimaryFrom(isCover, finds, pages, cands, p + 1, next)
  }

  function Primary(isCover: string -> bool, finds: (Candidate, string) -> bool, pages: seq<string>, cands: seq<Candidate>, start: nat): seq<Assignment>
  {
    PrimaryFrom(isCover, finds, pages, cands, start, [])
  }

  method PlacePage(candidates: seq<Candidate>, pageText: string, pageNum: nat, resumePages: seq<Assignment>)
    returns (rp: seq<Assignment>)
    ensures rp == PlaceFrom(NameOnPage, candidates, 0, pageText, pageNum, resumePages)
  {
    rp := resumePages;
    var k := 0;
    while k < |candidates|
      invariant k <= |candidates|
      invariant PlaceFrom(NameOnPage, candidates, k, pageText, pageNum, rp) == PlaceFrom(NameOnPage, candidates, 0, pageText, pageNum, resumePages)
    {
      var candidate := candidates[k];
      if IdPlaced(rp, candidate.id) {
        k := k + 1;
        continue;
      }
      var found := TryCandidate(candidate, pageText);
      if found > 0 {
        rp := rp + [Assignment(candidate.name, candidate.id, pageNum)];
      }
      k := k + 1;
    }
  }

  /** The primary pass over the pages from `startPage` on. */
  method LocatePrimary(pages: seq<string>, candidates: seq<Candidate>, startPage: nat, isCover: string -> bool)
    returns (resumePages: seq<Assignment>)
    ensures resumePages == Primary(isCover, NameOnPage, pages, candidates, startPage)
  {
    resumePages := [];
    var pageNum := startPage;
    while pageNum < |pages|
      invariant PrimaryFrom(isCover, NameOnPage, pages, candidates, pageNum, resumePages) == Primary(isCover, NameOnPage, pages, candidates, startPage)
      decreases |pages| - pageNum
    {
      var pageText := pages[pageNum];
      if isCover(pageText) {
        pageNum := pageNum + 1;
        continue;
      }
      resumePages := PlacePage(candidates, pageText, pageNum, resumePages);
      pageNum := pageNum + 1;
    }
  }

  // What the primary pass produces.

  /** The records after the primary pass (or while it runs, up to page `p`):
      ordered by page, on pages of `[start, p)` that are not cover letters,
      one per id, each naming a roster candidate. */
  predicate PrimaryShape(isCover: string -> bool, pages: seq<string>, cands: seq<Candidate>, start: nat, p: nat, rp: seq<Assignment>)
  {
    SortedByPage(rp) && PagesWithin(rp, start, p) && DistinctPlacedIds(rp) && FromRoster(rp, cands)
    && (forall k :: 0 <= k < |rp| ==> rp[k].page < |pages| && !isCover(pages[rp[k].page]))
  }

  lemma {:induction false} PlaceFromShape(isCover: string -> bool, finds: (Candidate, string) -> bool, pages: seq<string>, cands: seq<Candidate>, start: nat,
                                          k: nat, p: nat, rp: seq<Assignment>)
    requires start <= p < |pages| && !isCover(pages[p])
    requires PrimaryShape(isCover, pages, cands, start, p + 1, rp)
    ensures PrimaryShape(isCover, pages, cands, start, p + 1, PlaceFrom(finds, cands, k, pages[p], p, rp))
    decreases |cands| - k
  {
    if k < |cands| {
      var c := cands[k];
      if !IdPlaced(rp, c.id) && finds(c, pages[p]) {
        var next := rp + [Assignment(c.name, c.id, p)];
        assert next[|rp|] == Assignment(c.name, c.id, p);
        assert forall i :: 0 <= i < |rp| ==> next[i] == rp[i];
        assert PrimaryShape(isCover, pages, cands, start, p + 1, next);
        PlaceFromShape(isCover, finds, pages, cands, start, k + 1, p, next);
      } else {
        PlaceFromShape(isCover, finds, pages, cands, start, k + 1, p, rp);
      }
    }
  }

  lemma {:induction false} PrimaryFromShape(isCover: string -> bool, finds: (Candidate, string) -> bool, pages: seq<string>, cands: seq<Candidate>, start: nat,
                                            p: nat, rp: seq<Assignment>)
    requires start <= p
    requires PrimaryShape(isCover, pages, cands, start, p, rp)
    ensures PrimaryShape(isCover, pages, cands, start, |pages|, PrimaryFrom(isCover, finds, pages, cands, p, rp))
    decreases |pages| - p
  {
    if p < |pages| {
      assert PagesWithin(rp, start, p + 1) by {
        assert PagesWithin(rp, start, p);
      }
      var next := if isCover(pages[p]) then rp else PlaceFrom(finds, cands, 0, pages[p], p, rp);
      if !isCover(pages[p]) {
        PlaceFromShape(isCover, finds, pages, cands, start, 0, p, rp);
      }
      PrimaryFromShape(isCover, finds, pages, cands, start, p + 1, next);
    } else {
      assert PagesWithin(rp, start, |pages|) by {
        assert PagesWithin(rp, start, p);
      }
    }
  }

  /** The primary pass records each id at most once, on a page of
      `[start, n)` that is not a cover letter, for a roster candidate, and in
      page order; so the sort that follows it changes nothing. */
  lemma PrimaryWellFormed(isCover: string -> bool, finds: (Candidate, string) -> bool, pages: seq<string>, cands: seq<Candidate>, start: nat)
    ensures PrimaryShape(isCover, pages, cands, start, |pages|, Primary(isCover, finds, pages, cands, start))
    ensures SortByPage(Primary(isCover, finds, pages, cands, start)) == Primary(isCover, finds, pages, cands, start)
  {
    PrimaryFromShape(isCover, finds, pages, cands, start, start, []);
    SortByPageSortedInput(Primary(isCover, finds, pages, cands, start));
  }

  /** The first page of `[lo, hi)` that is not a cover letter and on which
      one of the tests finds `c`. */
  function FirstNamePage(isCover: string -> bool, finds: (Candidate, string) -> bool, pages: seq<string>, c: Candidate, lo: nat, hi: nat): (r: Option<nat>)
    requires hi <= |pages|
    ensures r.Some? ==> lo <= r.value < hi && !isCover(pages[r.value]) && finds(c, pages[r.value])
    ensures r.Some? ==> forall q :: lo <= q < r.value ==> isCover(pages[q]) || !finds(c, pages[q])
    ensures r.None? ==> forall q :: lo <= q < hi ==> isCover(pages[q]) || !finds(c, pages[q])
  {
    if hi <= lo then None
    else
      match FirstNamePage(isCover, finds, pages, c, lo, hi - 1)
      case Some(q) => Some(q)
      case None => if !isCover(pages[hi - 1]) && finds(c, pages[hi - 1]) then Some(hi - 1) else None
  }

  /** Some candidate at index `k` or after it has the id `id` and is found
      in `text`. */
  predicate FindsId(finds: (Candidate, string) -> bool, cands: seq<Candidate>, k: nat, id: string, text: string)
  {
    exists j :: k <= j < |cands| && cands[j].id == id && finds(cands[j], text)
  }

  /** The first page of `[lo, hi)` that is not a cover letter and on which
      one of the tests finds some candidate with the id `id`. */
  function FirstIdPage(isCover: string -> bool, finds: (Candidate, string) -> bool, pages: seq<string>, cands: seq<Candidate>,
                       id: string, lo: nat, hi: nat): (r: Option<nat>)
    requires hi <= |pages|
    ensures r.Some? ==> lo <= r.value < hi && !isCover(pages[r.value]) && FindsId(finds, cands, 0, id, pages[r.value])
    ensures r.Some? ==> forall q :: lo <= q < r.value ==> isCover(pages[q]) || !FindsId(finds, cands, 0, id, pages[q])
    ensures r.None? ==> forall q :: lo <= q < hi ==> isCover(pages[q]) || !FindsId(finds, cands, 0, id, pages[q])
  {
    if hi <= lo then None
    else
      match FirstIdPage(isCover, finds, pages, cands, id, lo, hi - 1)
      case Some(q) => Some(q)
      case None => if !isCover(pages[hi - 1]) && FindsId(finds, cands, 0, id, pages[hi - 1]) then Some(hi - 1) else None
  }

  /** Placing the candidates of one page: an id already placed stays where
      it is, and one not placed yet is placed on this page exactly when a
      candidate at or after `k` carries it and a test finds that candidate. */
  lemma {:induction false} PlaceFromPlaces(finds: (Candidate, string) -> bool, cands: seq<Candidate>, k: nat, text: string, page: nat, rp: seq<Assignment>)
    requires k <= |cands|
    ensures forall id ::
              PlacedAt(PlaceFrom(finds, cands, k, text, page, rp), id) ==
                if PlacedAt(rp, id).Some? then PlacedAt(rp, id)
                else if FindsId(finds, cands, k, id, text) then Some(page) else None
    decreases |cands| - k
  {
    if k < |cands| {
      var c := cands[k];
      var next := if !IdPlaced(rp, c.id) && finds(c, text) then rp + [Assignment(c.name, c.id, page)] else rp;
      PlaceFromPlaces(finds, cands, k + 1, text, page, next);
      var r := PlaceFrom(finds, cands, k + 1, text, page, next);
      assert r == PlaceFrom(finds, cands, k, text, page, rp);
      forall id
        ensures PlacedAt(r, id) ==
          if PlacedAt(rp, id).Some? then PlacedAt(rp, id)
          else if FindsId(finds, cands, k, id, text) then Some(page) else None
      {
        if next != rp {
          PlacedAtAppend(rp, Assignment(c.name, c.id, page), id);
        }
        if !(c.id == id && finds(c, text)) && FindsId(finds, cands, k, id, text) {
          var j :| k <= j < |cands| && cands[j].id == id && finds(cands[j], text);
          assert j != k;
          assert FindsId(finds, cands, k + 1, id, text);
        }
      }
    }
  }

  /** The primary pass from page `p` on, when every id placed so far is on
      its first finding page in `[start, p)`: every id ends up on its first
      finding page in `[start, |pages|)`, or unplaced when there is none. */
  lemma {:induction false} PrimaryFromPlaces(isCover: string -> bool, finds: (Candidate, string) -> bool, pages: seq<string>, cands: seq<Candidate>, start: nat,
                                             p: nat, rp: seq<Assignment>)
    requires start <= p <= |pages|
    requires forall id :: PlacedAt(rp, id) == FirstIdPage(isCover, finds, pages, cands, id, start, p)
    ensures forall id ::
      PlacedAt(PrimaryFrom(isCover, finds, pages, cands, p, rp), id) == FirstIdPage(isCover, finds, pages, cands, id, start, |pages|)
    decreases |pages| - p
  {
    if p < |pages| {
      var next := if isCover(pages[p]) then rp else PlaceFrom(finds, cands, 0, pages[p], p, rp);
      if !isCover(pages[p]) {
        PlaceFromPlaces(finds, cands, 0, pages[p], p, rp);
      }
      assert forall id :: PlacedAt(next, id) == FirstIdPage(isCover, finds, pages, cands, id, start, p + 1);
      PrimaryFromPlaces(isCover, finds, pages, cands, start, p + 1, next);
    }
  }

  /** The primary pass places every id on the first page from `start` on
      that is not a cover letter and on which one of the five tests finds a
      candidate with that id, and leaves unplaced the ids that no such page
      finds. */
  lemma PrimaryFirstIdPage(isCover: string -> bool, finds: (Candidate, string) -> bool, pages: seq<string>, cands: seq<Candidate>, start: nat)
    ensures forall id ::
      PlacedAt(Primary(isCover, finds, pages, cands, start), id) == FirstIdPage(isCover, finds, pages, cands, id, start, |pages|)
  {
    if start <= |pages| {
      PrimaryFromPlaces(isCover, finds, pages, cands, start, start, []);
    }
  }

  /** With pairwise distinct ids, finding the id on a page is finding its
      one candidate. */
  lemma {:induction false} FirstIdPageDistinct(isCover: string -> bool, finds: (Candidate, string) -> bool, pages: seq<string>, cands: seq<Candidate>,
                                               j: nat, lo: nat, hi: nat)
    requires DistinctIds(cands) && j < |cands| && hi <= |pages|
    ensures FirstIdPage(isCover, finds, pages, cands, cands[j].id, lo, hi) == FirstNamePage(isCover, finds, pages, cands[j], lo, hi)
  {
    if lo < hi {
      FirstIdPageDistinct(isCover, finds, pages, cands, j, lo, hi - 1);
      if FindsId(finds, cands, 0, cands[j].id, pages[hi - 1]) {
        var i :| 0 <= i < |cands| && cands[i].id == cands[j].id && finds(cands[i], pages[hi - 1]);
        assert i == j;
      }
    }
  }

  /** With pairwise distinct roster ids, the primary pass places every
      candidate on the first page from `start` on that is not a cover letter
      and on which one of the five tests finds them, and leaves unplaced the
      candidates that no such page finds. */
  lemma PrimaryFirstPage(isCover: string -> bool, finds: (Candidate, string) -> bool, pages: seq<string>, cands: seq<Candidate>, start: nat)
    requires DistinctIds(cands)
    ensures forall j :: 0 <= j < |cands| ==>
      PlacedAt(Primary(isCover, finds, pages, cands, start), cands[j].id) == FirstNamePage(isCover, finds, pages, cands[j], start, |pages|)
  {
    PrimaryFirstIdPage(isCover, finds, pages, cands, start);
    forall j | 0 <= j < |cands|
      ensures PlacedAt(Primary(isCover, finds, pages, cands, start), cands[j].id) == FirstNamePage(isCover, finds, pages, cands[j], start, |pages|)
    {
      FirstIdPageDistinct(isCover, finds, pages, cands, j, start, |pages|);
    }
  }
}

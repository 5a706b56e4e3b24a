/** The fallback tiers of `find_resume_pages_flexible`, run when the primary
    pass placed fewer records than there are candidates: the id literal on a
    free page, then the best-scoring free page, then the free pages handed out
    in order. Tiers 1 and 2 look at the pages still free when each candidate
    is handled; tier 3 at the pages free once tier 2 is over. */
module Fallback {
  import opened Text
  import opened Regex
  import opened Roster
  import opened Assignments

  /** `rp` with a record for `c` on `page`, when there is one. */
  function AddIfFound(rp: seq<Assignment>, c: Candidate, page: Option<nat>): seq<Assignment>
  {
    match page
    case None => rp
    case Some(q) => rp + [Assignment(c.name, c.id, q)]
  }

  /** A tier's choice of page for a missing candidate, given the records so
      far. */
  type Chooser = (Candidate, seq<Assignment>) -> Option<nat>

  /** Tiers 1 and 2: the missing candidates from the `k`-th on, each given
      the page `choose` picks for them, seeing the records added before them. */
  function PlaceEach(choose: Chooser, missing: seq<Candidate>, k: nat, rp: seq<Assignment>): seq<Assignment>
    decreases |missing| - k
  {
    if k >= |missing| then rp
    else PlaceEach(choose, missing, k + 1, AddIfFound(rp, missing[k], choose(missing[k], rp)))
  }

  // Tier 1: the id literal.

  /** The first page of `[q, n)` not in `rp` whose upper-cased text holds
      `id`. */
  function IdPage(pages: seq<string>, id: string, rp: seq<Assignment>, q: nat): (r: Option<nat>)
    ensures r.Some? ==> q <= r.value < |pages| && Contains(Upper(pages[r.value]), id) && !PageTaken(rp, r.value)
    ensures r.Some? ==> forall q' :: q <= q' < r.value ==> !Contains(Upper(pages[q']), id) || PageTaken(rp, q')
    ensures r.None? ==> forall q' :: q <= q' < |pages| ==> !Contains(Upper(pages[q']), id) || PageTaken(rp, q')
    decreases |pages| - q
  {
    if q >= |pages| then None
    else if Contains(Upper(pages[q]), id) && !PageTaken(rp, q) then Some(q)
    else IdPage(pages, id, rp, q + 1)
  }

  /** Tier 1's choice: the first free page from `start` on holding the id. */
  function ById(pages: seq<string>, start: nat): Chooser
  {
    (c: Candidate, rp: seq<Assignment>) => IdPage(pages, c.id, rp, start)
  }

  /** One missing candidate: the pages from `startPage` on are searched for
      the id, and the first one that holds it and is not assigned yet is
      taken. */
  method PlaceById(pages: seq<string>, startPage: nat, missing: Candidate, resumePages: seq<Assignment>)
    returns (rp: seq<Assignment>)
    ensures rp == AddIfFound(resumePages, missing, IdPage(pages, missing.id, resumePages, startPage))
  {
    rp := resumePages;
    var pageNum := startPage;
    while pageNum < |pages|
      invariant rp == resumePages
      invariant IdPage(pages, missing.id, resumePages, pageNum) == IdPage(pages, missing.id, resumePages, startPage)
      decreases |pages| - pageNum
    {
      var pageText := pages[pageNum];
      if Contains(Upper(pageText), missing.id) {
        if !PageTaken(rp, pageNum) {
          rp := rp + [Assignment(missing.name, missing.id, pageNum)];
          return;
        }
      }
      pageNum := pageNum + 1;
    }
  }

  method FallbackById(pages: seq<string>, startPage: nat, missingCandidates: seq<Candidate>, resumePages: seq<Assignment>)
    returns (rp: seq<Assignment>)
    ensures rp == PlaceEach(ById(pages, startPage), missingCandidates, 0, resumePages)
  {
    rp := resumePages;
    var k := 0;
    while k < |missingCandidates|
      invariant k <= |missingCandidates|
      invariant PlaceEach(ById(pages, startPage), missingCandidates, k, rp) == PlaceEach(ById(pages, startPage), missingCandidates, 0, resumePages)
    {
      assert ById(pages, startPage)(missingCandidates[k], rp) == IdPage(pages, missingCandidates[k].id, rp, startPage);
      rp := PlaceById(pages, startPage, missingCandidates[k], rp);
      k := k + 1;
    }
  }

  // Tier 2: keywords and name parts.

  const ResumeIndicators: seq<string> := [
    "EXPERIENCE", "EDUCATION", "SKILLS", "OBJECTIVE",
    "SUMMARY", "EMPLOYMENT", "WORK HISTORY", "QUALIFICATIONS",
    "CONTACT", "EMAIL", "PHONE", "ADDRESS"
  ]

  /** How many of `words` occur in `s`. */
  function CountPresent(words: seq<string>, s: string): (n: nat)
    ensures n <= |words|
  {
    if words == [] then 0
    else (if Contains(s, words[0]) then 1 else 0) + CountPresent(words[1..], s)
  }

  /** How many of `parts` are longer than two characters and occur in `s`. */
  function NameMatches(parts: seq<string>, s: string): (n: nat)
    ensures n <= |parts|
  {
    if parts == [] then 0
    else (if |parts[0]| > 2 && Contains(s, parts[0]) then 1 else 0) + NameMatches(parts[1..], s)
  }

  /** `indicator_count + name_matches * 2` for a page; the name parts are
      those of the listed name, upper-cased, not of the cleaned one. */
  function Score(text: string, name: string): (n: nat)
    ensures n <= |ResumeIndicators| + 2 * |SplitWs(Upper(name))|
  {
    var pageUpper := Upper(text);
    CountPresent(ResumeIndicators, pageUpper) + NameMatches(SplitWs(Upper(name)), pageUpper) * 2
  }

  /** A page tier 2 may choose for a list of records: from `start` on, and
      not assigned yet. */
  predicate Eligible(pages: seq<string>, start: nat, rp: seq<Assignment>, q: nat)
  {
    start <= q < |pages| && !PageTaken(rp, q)
  }

  /** The score of a page for a candidate's name, as a function of the page. */
  function ScoreFor(name: string): string -> nat
  {
    text => Score(text, name)
  }

  /** The page loop of tier 2 from page `q` on, with the best page and the
      best score so far; a page replaces the best only with a strictly higher
      score of at least 3. */
  function BestFrom(pages: seq<string>, score: string -> nat, rp: seq<Assignment>, q: nat, best: Option<nat>, maxScore: nat): Option<nat>
    decreases |pages| - q
  {
    if q >= |pages| then best
    else if PageTaken(rp, q) then BestFrom(pages, score, rp, q + 1, best, maxScore)
    else
      var total := score(pages[q]);
      if total > maxScore && total >= 3 then BestFrom(pages, score, rp, q + 1, Some(q), total)
      else BestFrom(pages, score, rp, q + 1, best, maxScore)
  }

  function BestPage(pages: seq<string>, start: nat, name: string, rp: seq<Assignment>): Option<nat>
  {
    BestFrom(pages, ScoreFor(name), rp, start, None, 0)
  }

  /** What the loop knows after the eligible pages of `[start, q)`. */
  predicate BestSoFar(pages: seq<string>, start: nat, score: string -> nat, rp: seq<Assignment>, q: nat, best: Option<nat>, maxScore: nat)
  {
    match best
    case None =>
      maxScore == 0 && forall q' :: start <= q' < q && Eligible(pages, start, rp, q') ==> score(pages[q']) < 3
    case Some(b) =>
      Eligible(pages, start, rp, b) && b < q && maxScore == score(pages[b]) && maxScore >= 3
      && (forall q' :: start <= q' < q && Eligible(pages, start, rp, q') ==> score(pages[q']) <= maxScore)
      && (forall q' :: start <= q' < b && Eligible(pages, start, rp, q') ==> score(pages[q']) < maxScore)
  }

  /** The score of the page tier 2 picked, 0 when it picked none. */
  function ChosenScore(pages: seq<string>, score: string -> nat, best: Option<nat>): nat
  {
    if best.Some? && best.value < |pages| then score(pages[best.value]) else 0
  }

  lemma {:induction false} BestFromBest(pages: seq<string>, start: nat, score: string -> nat, rp: seq<Assignment>, q: nat, best: Option<nat>, maxScore: nat)
    requires start <= q && BestSoFar(pages, start, score, rp, q, best, maxScore)
    ensures BestSoFar(pages, start, score, rp, if q < |pages| then |pages| else q, BestFrom(pages, score, rp, q, best, maxScore),
                      ChosenScore(pages, score, BestFrom(pages, score, rp, q, best, maxScore)))
    decreases |pages| - q
  {
    if q < |pages| {
      if PageTaken(rp, q) {
        BestFromBest(pages, start, score, rp, q + 1, best, maxScore);
      } else {
        var total := score(pages[q]);
        if total > maxScore && total >= 3 {
          BestFromBest(pages, start, score, rp, q + 1, Some(q), total);
        } else {
          BestFromBest(pages, start, score, rp, q + 1, best, maxScore);
        }
      }
    }
  }

  /** Tier 2 picks a page exactly when some free page from `start` on scores
      at least 3; the page it picks is free, has the highest score of all free
      pages, and is the earliest with that score. */
  lemma BestPageIsBest(pages: seq<string>, start: nat, name: string, rp: seq<Assignment>)
    ensures BestPage(pages, start, name, rp).Some? <==>
      exists q: nat :: Eligible(pages, start, rp, q) && Score(pages[q], name) >= 3
    ensures BestPage(pages, start, name, rp).Some? ==>
      var b := BestPage(pages, start, name, rp).value;
      Eligible(pages, start, rp, b) && Score(pages[b], name) >= 3
      && (forall q: nat :: Eligible(pages, start, rp, q) ==> Score(pages[q], name) <= Score(pages[b], name))
      && (forall q: nat :: Eligible(pages, start, rp, q) && q < b ==> Score(pages[q], name) < Score(pages[b], name))
  {
    BestFromBest(pages, start, ScoreFor(name), rp, start, None, 0);
  }

  /** Tier 2's choice: the best-scoring free page from `start` on. */
  function ByScore(pages: seq<string>, start: nat): Chooser
  {
    (c: Candidate, rp: seq<Assignment>) => BestPage(pages, start, c.name, rp)
  }

  /** Tier 2's page loop for one candidate. */
  method BestPageFor(pages: seq<string>, startPage: nat, name: string, resumePages: seq<Assignment>)
    returns (bestPage: Option<nat>)
    ensures bestPage == BestPage(pages, startPage, name, resumePages)
  {
    bestPage := None;
    var maxIndicators := 0;
    var pageNum := startPage;
    while pageNum < |pages|
      invariant BestFrom(pages, ScoreFor(name), resumePages, pageNum, bestPage, maxIndicators) == BestPage(pages, startPage, name, resumePages)
      decreases |pages| - pageNum
    {
      if PageTaken(resumePages, pageNum) {
        pageNum := pageNum + 1;
        continue;
      }
      var totalScore := Score(pages[pageNum], name);
      assert totalScore == ScoreFor(name)(pages[pageNum]);
      if totalScore > maxIndicators && totalScore >= 3 {
        maxIndicators := totalScore;
        bestPage := Some(pageNum);
      }
      pageNum := pageNum + 1;
    }
  }

  method FallbackByScore(pages: seq<string>, startPage: nat, stillMissing: seq<Candidate>, resumePages: seq<Assignment>)
    returns (rp: seq<Assignment>)
    ensures rp == PlaceEach(ByScore(pages, startPage), stillMissing, 0, resumePages)
  {
    rp := resumePages;
    var k := 0;
    while k < |stillMissing|
      invariant k <= |stillMissing|
      invariant PlaceEach(ByScore(pages, startPage), stillMissing, k, rp) == PlaceEach(ByScore(pages, startPage), stillMissing, 0, resumePages)
    {
      var missing := stillMissing[k];
      assert ByScore(pages, startPage)(missing, rp) == BestPage(pages, startPage, missing.name, rp);
      var bestPage := BestPageFor(pages, startPage, missing.name, rp);
      if bestPage.Some? {
        rp := rp + [Assignment(missing.name, missing.id, bestPage.value)];
      }
      k := k + 1;
    }
  }

  // Tier 3: the free pages, in order.

  /** The pages of `[start, hi)` that `rp` does not assign, in order. */
  function FreePages(start: nat, hi: nat, rp: seq<Assignment>): (free: seq<nat>)
    ensures forall i :: 0 <= i < |free| ==> start <= free[i] < hi && !PageTaken(rp, free[i])
    ensures forall i, j :: 0 <= i < j < |free| ==> free[i] < free[j]
    decreases hi
  {
    if hi <= start then []
    else FreePages(start, hi - 1, rp) + (if PageTaken(rp, hi - 1) then [] else [hi - 1])
  }

  /** Every free page of `[start, hi)` is listed. */
  lemma {:induction false} FreePagesComplete(start: nat, hi: nat, rp: seq<Assignment>, q: nat)
    requires start <= q < hi && !PageTaken(rp, q)
    ensures q in FreePages(start, hi, rp)
    decreases hi
  {
    if q < hi - 1 {
      FreePagesComplete(start, hi - 1, rp, q);
    }
  }

  /** The `i`-th missing candidate on the `i`-th free page, for as many as
      both lists allow. */
  function Distribute(missing: seq<Candidate>, free: seq<nat>): (added: seq<Assignment>)
    ensures |added| == if |missing| < |free| then |missing| else |free|
    ensures forall i :: 0 <= i < |added| ==> added[i] == Assignment(missing[i].name, missing[i].id, free[i])
  {
    var count := if |missing| < |free| then |missing| else |free|;
    seq(count, i requires 0 <= i < count => Assignment(missing[i].name, missing[i].id, free[i]))
  }

  function Tier3(pages: seq<string>, start: nat, missing: seq<Candidate>, rp: seq<Assignment>): seq<Assignment>
  {
    rp + Distribute(missing, FreePages(start, |pages|, rp))
  }

  /** The loop that lists the unassigned pages. */
  method UnassignedPages(startPage: nat, totalPages: nat, resumePages: seq<Assignment>) returns (unassignedPages: seq<nat>)
    ensures unassignedPages == FreePages(startPage, totalPages, resumePages)
  {
    unassignedPages := [];
    var i := startPage;
    while i < totalPages
      invariant startPage <= i && (i <= totalPages || i == startPage)
      invariant unassignedPages == FreePages(startPage, i, resumePages)
      decreases totalPages - i
    {
      if !PageTaken(resumePages, i) {
        unassignedPages := unassignedPages + [i];
      }
      i := i + 1;
    }
  }

  method FallbackSpread(pages: seq<string>, startPage: nat, stillMissing: seq<Candidate>, resumePages: seq<Assignment>)
    returns (rp: seq<Assignment>)
    ensures rp == Tier3(pages, startPage, stillMissing, resumePages)
  {
    rp := resumePages;
    if |stillMissing| == 0 {
      assert Distribute(stillMissing, FreePages(startPage, |pages|, resumePages)) == [];
      return;
    }
    var unassignedPages := UnassignedPages(startPage, |pages|, resumePages);
    if |unassignedPages| == 0 {
      assert Distribute(stillMissing, unassignedPages) == [];
      return;
    }
    var i := 0;
    while i < |stillMissing|
      invariant i <= |stillMissing|
      invariant rp == resumePages + Distribute(stillMissing[..(if i < |unassignedPages| then i else |unassignedPages|)], unassignedPages)
    {
      if i < |unassignedPages| {
        var pageToAssign := unassignedPages[i];
        rp := rp + [Assignment(stillMissing[i].name, stillMissing[i].id, pageToAssign)];
        DistributeStep(stillMissing, unassignedPages, i);
      }
      i := i + 1;
    }
    DistributeAll(stillMissing, unassignedPages);
  }

  /** Handing out one more candidate adds one record at the end. */
  lemma DistributeStep(missing: seq<Candidate>, free: seq<nat>, i: nat)
    requires i < |missing| && i < |free|
    ensures Distribute(missing[..i + 1], free)
      == Distribute(missing[..i], free) + [Assignment(missing[i].name, missing[i].id, free[i])]
  {
    var a := Distribute(missing[..i + 1], free);
    var b := Distribute(missing[..i], free) + [Assignment(missing[i].name, missing[i].id, free[i])];
    assert |a| == |b|;
    forall k | 0 <= k < |a| ensures a[k] == b[k] {
      assert missing[..i + 1][k] == missing[k];
    }
  }

  /** Only the candidates that get a page matter. */
  lemma DistributeAll(missing: seq<Candidate>, free: seq<nat>)
    ensures Distribute(missing[..(if |missing| < |free| then |missing| else |free|)], free) == Distribute(missing, free)
  {
    var n := if |missing| < |free| then |missing| else |free|;
    var a := Distribute(missing[..n], free);
    var b := Distribute(missing, free);
    assert |a| == |b|;
    forall k | 0 <= k < |a| ensures a[k] == b[k] {
      assert missing[..n][k] == missing[k];
    }
  }

  // All three tiers.

  /** The fallback, run only when fewer records than candidates were placed;
      each tier works on the candidates whose id is still not placed. */
  function AllTiers(pages: seq<string>, cands: seq<Candidate>, start: nat, rp: seq<Assignment>): seq<Assignment>
  {
    if |rp| >= |cands| then rp
    else
      var r1 := PlaceEach(ById(pages, start), Missing(cands, rp), 0, rp);
      var r2 := PlaceEach(ByScore(pages, start), Missing(cands, r1), 0, r1);
      Tier3(pages, start, Missing(cands, r2), r2)
  }

  method RunFallback(pages: seq<string>, candidates: seq<Candidate>, startPage: nat, resumePages: seq<Assignment>)
    returns (rp: seq<Assignment>)
    ensures rp == AllTiers(pages, candidates, startPage, resumePages)
  {
    rp := resumePages;
    if |rp| < |candidates| {
      var missingCandidates := Missing(candidates, rp);
      rp := FallbackById(pages, startPage, missingCandidates, rp);
      var stillMissing := Missing(candidates, rp);
      if |stillMissing| > 0 {
        rp := FallbackByScore(pages, startPage, stillMissing, rp);
      }
      stillMissing := Missing(candidates, rp);
      rp := FallbackSpread(pages, startPage, stillMissing, rp);
    }
  }

  // What the tiers promise.

  /** `r` extends `rp`, and every record it adds is on a page of `[lo, hi)`
      that no record before it has. */
  predicate FreshAppend(rp: seq<Assignment>, r: seq<Assignment>, lo: nat, hi: nat)
  {
    |rp| <= |r| && r[..|rp|] == rp
    && forall i :: |rp| <= i < |r| ==> lo <= r[i].page < hi && !PageTaken(r[..i], r[i].page)
  }

  lemma FreshAppendTrans(a: seq<Assignment>, b: seq<Assignment>, c: seq<Assignment>, lo: nat, hi: nat)
    requires FreshAppend(a, b, lo, hi) && FreshAppend(b, c, lo, hi)
    ensures FreshAppend(a, c, lo, hi)
  {
    assert c[..|a|] == c[..|b|][..|a|];
    forall i | |a| <= i < |b| ensures lo <= c[i].page < hi && !PageTaken(c[..i], c[i].page) {
      assert c[i] == c[..|b|][i] && c[..i] == c[..|b|][..i];
    }
  }

  /** Every record `PlaceEach` adds is for one of the candidates it handles,
      on the page `choose` picked for that candidate from the records before
      it. */
  lemma {:induction false} PlaceEachAdds(choose: Chooser, missing: seq<Candidate>, k: nat, rp: seq<Assignment>)
    ensures |rp| <= |PlaceEach(choose, missing, k, rp)|
    ensures PlaceEach(choose, missing, k, rp)[..|rp|] == rp
    ensures var r := PlaceEach(choose, missing, k, rp);
      forall i :: |rp| <= i < |r| ==>
        exists j :: k <= j < |missing| && missing[j].name == r[i].name && missing[j].id == r[i].id
                    && choose(missing[j], r[..i]) == Some(r[i].page)
    decreases |missing| - k
  {
    if k < |missing| {
      var next := AddIfFound(rp, missing[k], choose(missing[k], rp));
      PlaceEachAdds(choose, missing, k + 1, next);
      var r := PlaceEach(choose, missing, k + 1, next);
      assert next[..|rp|] == rp;
      assert r[..|rp|] == r[..|next|][..|rp|];
      forall i | |rp| <= i < |r|
        ensures exists j :: k <= j < |missing| && missing[j].name == r[i].name && missing[j].id == r[i].id
                            && choose(missing[j], r[..i]) == Some(r[i].page)
      {
        if i < |next| {
          assert r[..i] == rp && r[i] == r[..|next|][i] == next[i];
        }
      }
    }
  }

  /** `PlaceEach` gives no id a second record and adds only roster
      candidates, when the candidates it handles have distinct ids none of
      which is placed yet. */
  lemma {:induction false} PlaceEachIds(choose: Chooser, missing: seq<Candidate>, k: nat, rp: seq<Assignment>, cands: seq<Candidate>)
    requires DistinctIds(missing) && DistinctPlacedIds(rp) && FromRoster(rp, cands)
    requires forall j :: k <= j < |missing| ==> !IdPlaced(rp, missing[j].id)
    requires forall j :: 0 <= j < |missing| ==> exists t :: 0 <= t < |cands| && cands[t] == missing[j]
    ensures DistinctPlacedIds(PlaceEach(choose, missing, k, rp))
    ensures FromRoster(PlaceEach(choose, missing, k, rp), cands)
    decreases |missing| - k
  {
    if k < |missing| {
      var next := AddIfFound(rp, missing[k], choose(missing[k], rp));
      AddIfFoundIds(missing, k, rp, choose(missing[k], rp), cands);
      PlaceEachIds(choose, missing, k + 1, next, cands);
    }
  }

  /** One step of `PlaceEach` keeps the conditions `PlaceEachIds` needs. */
  lemma AddIfFoundIds(missing: seq<Candidate>, k: nat, rp: seq<Assignment>, page: Option<nat>, cands: seq<Candidate>)
    requires k < |missing| && DistinctIds(missing) && DistinctPlacedIds(rp) && FromRoster(rp, cands)
    requires forall j :: k <= j < |missing| ==> !IdPlaced(rp, missing[j].id)
    requires forall j :: 0 <= j < |missing| ==> exists t :: 0 <= t < |cands| && cands[t] == missing[j]
    ensures DistinctPlacedIds(AddIfFound(rp, missing[k], page)) && FromRoster(AddIfFound(rp, missing[k], page), cands)
    ensures forall j :: k + 1 <= j < |missing| ==> !IdPlaced(AddIfFound(rp, missing[k], page), missing[j].id)
  {
    if page.Some? {
      var a := Assignment(missing[k].name, missing[k].id, page.value);
      var next := rp + [a];
      assert AddIfFound(rp, missing[k], page) == next;
      AppendFresh(rp, a, cands);
      forall j | k + 1 <= j < |missing| ensures !IdPlaced(next, missing[j].id) {
        assert missing[j].id != missing[k].id;
        forall t | 0 <= t < |next| ensures next[t].id != missing[j].id {
          if t < |rp| {
            assert next[t] == rp[t];
          }
        }
      }
    }
  }

  /** Appending a record for an unplaced roster candidate keeps ids distinct
      and records from the roster. */
  lemma AppendFresh(rp: seq<Assignment>, a: Assignment, cands: seq<Candidate>)
    requires DistinctPlacedIds(rp) && FromRoster(rp, cands) && !IdPlaced(rp, a.id)
    requires exists t :: 0 <= t < |cands| && cands[t].name == a.name && cands[t].id == a.id
    ensures DistinctPlacedIds(rp + [a]) && FromRoster(rp + [a], cands)
  {
    var r := rp + [a];
    forall i, j | 0 <= i < j < |r| ensures r[i].id != r[j].id {
      if j == |rp| {
        assert r[i] == rp[i];
      } else {
        assert r[i] == rp[i] && r[j] == rp[j];
      }
    }
    forall i | 0 <= i < |r| ensures exists t :: 0 <= t < |cands| && cands[t].name == r[i].name && cands[t].id == r[i].id {
      if i < |rp| {
        assert r[i] == rp[i];
      }
    }
  }

  /** Tier 1 adds each record on a page of `[start, n)` that holds the id and
      was free when the record was added, the earliest such page. */
  lemma Tier1Adds(pages: seq<string>, start: nat, missing: seq<Candidate>, rp: seq<Assignment>)
    ensures FreshAppend(rp, PlaceEach(ById(pages, start), missing, 0, rp), start, |pages|)
    ensures var r := PlaceEach(ById(pages, start), missing, 0, rp);
      forall i :: |rp| <= i < |r| ==>
        Contains(Upper(pages[r[i].page]), r[i].id)
        && forall q :: start <= q < r[i].page ==> !Contains(Upper(pages[q]), r[i].id) || PageTaken(r[..i], q)
  {
    var r := PlaceEach(ById(pages, start), missing, 0, rp);
    PlaceEachAdds(ById(pages, start), missing, 0, rp);
    forall i | |rp| <= i < |r|
      ensures IdPage(pages, r[i].id, r[..i], start) == Some(r[i].page)
    {
      var j :| 0 <= j < |missing| && missing[j].name == r[i].name && missing[j].id == r[i].id
               && ById(pages, start)(missing[j], r[..i]) == Some(r[i].page);
    }
  }

  /** Tier 2 adds each record on a page of `[start, n)` that was free when
      the record was added, scores at least 3 for the candidate's name and
      scores highest among the free pages, the earliest with that score. */
  lemma Tier2Adds(pages: seq<string>, start: nat, missing: seq<Candidate>, rp: seq<Assignment>)
    ensures FreshAppend(rp, PlaceEach(ByScore(pages, start), missing, 0, rp), start, |pages|)
    ensures var r := PlaceEach(ByScore(pages, start), missing, 0, rp);
      forall i :: |rp| <= i < |r| ==>
        Score(pages[r[i].page], r[i].name) >= 3
        && (forall q: nat :: Eligible(pages, start, r[..i], q) ==> Score(pages[q], r[i].name) <= Score(pages[r[i].page], r[i].name))
        && (forall q: nat :: Eligible(pages, start, r[..i], q) && q < r[i].page ==> Score(pages[q], r[i].name) < Score(pages[r[i].page], r[i].name))
  {
    var r := PlaceEach(ByScore(pages, start), missing, 0, rp);
    PlaceEachAdds(ByScore(pages, start), missing, 0, rp);
    forall i | |rp| <= i < |r|
      ensures Eligible(pages, start, r[..i], r[i].page) && Score(pages[r[i].page], r[i].name) >= 3
      ensures forall q: nat :: Eligible(pages, start, r[..i], q) ==> Score(pages[q], r[i].name) <= Score(pages[r[i].page], r[i].name)
      ensures forall q: nat :: Eligible(pages, start, r[..i], q) && q < r[i].page ==> Score(pages[q], r[i].name) < Score(pages[r[i].page], r[i].name)
    {
      Tier2Record(pages, start, missing, rp, i);
    }
  }

  /** One record tier 2 added: the best page for its name given the records
      before it. */
  lemma Tier2Record(pages: seq<string>, start: nat, missing: seq<Candidate>, rp: seq<Assignment>, i: nat)
    requires |rp| <= i < |PlaceEach(ByScore(pages, start), missing, 0, rp)|
    ensures var r := PlaceEach(ByScore(pages, start), missing, 0, rp);
      BestPage(pages, start, r[i].name, r[..i]) == Some(r[i].page)
    ensures var r := PlaceEach(ByScore(pages, start), missing, 0, rp);
      Eligible(pages, start, r[..i], r[i].page) && Score(pages[r[i].page], r[i].name) >= 3
      && (forall q: nat :: Eligible(pages, start, r[..i], q) ==> Score(pages[q], r[i].name) <= Score(pages[r[i].page], r[i].name))
      && (forall q: nat :: Eligible(pages, start, r[..i], q) && q < r[i].page ==> Score(pages[q], r[i].name) < Score(pages[r[i].page], r[i].name))
  {
    var r := PlaceEach(ByScore(pages, start), missing, 0, rp);
    PlaceEachAdds(ByScore(pages, start), missing, 0, rp);
    var j :| 0 <= j < |missing| && missing[j].name == r[i].name && missing[j].id == r[i].id
             && ByScore(pages, start)(missing[j], r[..i]) == Some(r[i].page);
    assert BestPage(pages, start, r[i].name, r[..i]) == Some(r[i].page);
    BestPageIsBest(pages, start, r[i].name, r[..i]);
  }

  // Tiers 1 and 2 place every candidate they have a page for.

  /** After tier 1, the candidate is placed, or every page of `[start, n)`
      whose upper-cased text holds its id is assigned. */
  ghost predicate IdSettled(pages: seq<string>, start: nat, r: seq<Assignment>, c: Candidate)
  {
    IdPlaced(r, c.id)
    || forall q :: start <= q < |pages| && Contains(Upper(pages[q]), c.id) ==> PageTaken(r, q)
  }

  /** After tier 2, the candidate is placed, or no free page from `start` on
      scores 3 or more for its name. */
  ghost predicate ScoreSettled(pages: seq<string>, start: nat, r: seq<Assignment>, c: Candidate)
  {
    IdPlaced(r, c.id)
    || forall q: nat :: Eligible(pages, start, r, q) ==> Score(pages[q], c.name) < 3
  }

  /** `PlaceEach` only appends. */
  lemma PlaceEachExtends(choose: Chooser, missing: seq<Candidate>, k: nat, rp: seq<Assignment>)
    ensures |rp| <= |PlaceEach(choose, missing, k, rp)| && PlaceEach(choose, missing, k, rp)[..|rp|] == rp
  {
    PlaceEachAdds(choose, missing, k, rp);
  }

  /** A list that extends another has every page and id the other has. */
  lemma ExtendKeepsQueries(a: seq<Assignment>, b: seq<Assignment>)
    requires |a| <= |b| && b[..|a|] == a
    ensures forall q :: PageTaken(a, q) ==> PageTaken(b, q)
    ensures forall id :: IdPlaced(a, id) ==> IdPlaced(b, id)
  {
    forall q | PageTaken(a, q) ensures PageTaken(b, q) {
      var t :| 0 <= t < |a| && a[t].page == q;
      assert b[t] == a[t];
    }
    forall id | IdPlaced(a, id) ensures IdPlaced(b, id) {
      var t :| 0 <= t < |a| && a[t].id == id;
      assert b[t] == a[t];
    }
  }

  lemma IdSettledExtends(pages: seq<string>, start: nat, a: seq<Assignment>, b: seq<Assignment>, c: Candidate)
    requires |a| <= |b| && b[..|a|] == a && IdSettled(pages, start, a, c)
    ensures IdSettled(pages, start, b, c)
  {
    ExtendKeepsQueries(a, b);
  }

  lemma ScoreSettledExtends(pages: seq<string>, start: nat, a: seq<Assignment>, b: seq<Assignment>, c: Candidate)
    requires |a| <= |b| && b[..|a|] == a && ScoreSettled(pages, start, a, c)
    ensures ScoreSettled(pages, start, b, c)
  {
    ExtendKeepsQueries(a, b);
    if !IdPlaced(a, c.id) {
      forall q: nat | Eligible(pages, start, b, q) ensures Score(pages[q], c.name) < 3 {
        assert Eligible(pages, start, a, q);
      }
    }
  }

  /** One tier 1 step settles its candidate: it is placed, or `IdPage` found
      no free page holding its id. */
  lemma Tier1Step(pages: seq<string>, start: nat, c: Candidate, rp: seq<Assignment>)
    ensures IdSettled(pages, start, AddIfFound(rp, c, IdPage(pages, c.id, rp, start)), c)
  {
    var next := AddIfFound(rp, c, IdPage(pages, c.id, rp, start));
    if IdPage(pages, c.id, rp, start).Some? {
      assert next[|rp|].id == c.id;
    }
  }

  /** One tier 2 step settles its candidate: it is placed, or `BestPage`
      found no free page scoring 3 or more. */
  lemma Tier2Step(pages: seq<string>, start: nat, c: Candidate, rp: seq<Assignment>)
    ensures ScoreSettled(pages, start, AddIfFound(rp, c, BestPage(pages, start, c.name, rp)), c)
  {
    var next := AddIfFound(rp, c, BestPage(pages, start, c.name, rp));
    BestPageIsBest(pages, start, c.name, rp);
    if BestPage(pages, start, c.name, rp).Some? {
      assert next[|rp|].id == c.id;
    }
  }

  /** A test of "this candidate needs nothing more from the tier" that one
      step of the tier makes true for its candidate and that later appends
      keep true holds, at the end, for every candidate the tier handles. */
  lemma {:induction false} PlaceEachSettles(choose: Chooser, settled: (Candidate, seq<Assignment>) -> bool,
                                            missing: seq<Candidate>, k: nat, rp: seq<Assignment>)
    requires forall c, a :: settled(c, AddIfFound(a, c, choose(c, a)))
    requires forall c, a, b :: |a| <= |b| && b[..|a|] == a && settled(c, a) ==> settled(c, b)
    ensures forall j :: k <= j < |missing| ==> settled(missing[j], PlaceEach(choose, missing, k, rp))
    decreases |missing| - k
  {
    if k < |missing| {
      var next := AddIfFound(rp, missing[k], choose(missing[k], rp));
      var r := PlaceEach(choose, missing, k + 1, next);
      PlaceEachSettles(choose, settled, missing, k + 1, next);
      PlaceEachExtends(choose, missing, k + 1, next);
      assert settled(missing[k], next);
      assert settled(missing[k], r);
    }
  }

  /** Tier 1 places every missing candidate unless every page of
      `[start, n)` holding its id is assigned by the end. */
  lemma Tier1Complete(pages: seq<string>, start: nat, missing: seq<Candidate>, rp: seq<Assignment>)
    ensures forall j :: 0 <= j < |missing| ==> IdSettled(pages, start, PlaceEach(ById(pages, start), missing, 0, rp), missing[j])
  {
    var choose := ById(pages, start);
    var settled := (c: Candidate, a: seq<Assignment>) => IdSettled(pages, start, a, c);
    forall c, a ensures settled(c, AddIfFound(a, c, choose(c, a))) {
      Tier1Step(pages, start, c, a);
    }
    forall c, a, b | |a| <= |b| && b[..|a|] == a && settled(c, a) ensures settled(c, b) {
      IdSettledExtends(pages, start, a, b, c);
    }
    PlaceEachSettles(choose, settled, missing, 0, rp);
  }

  /** Tier 2 places every missing candidate unless, by the end, no free page
      from `start` on scores 3 or more for its name. */
  lemma Tier2Complete(pages: seq<string>, start: nat, missing: seq<Candidate>, rp: seq<Assignment>)
    ensures forall j :: 0 <= j < |missing| ==> ScoreSettled(pages, start, PlaceEach(ByScore(pages, start), missing, 0, rp), missing[j])
  {
    var choose := ByScore(pages, start);
    var settled := (c: Candidate, a: seq<Assignment>) => ScoreSettled(pages, start, a, c);
    forall c, a ensures settled(c, AddIfFound(a, c, choose(c, a))) {
      Tier2Step(pages, start, c, a);
    }
    forall c, a, b | |a| <= |b| && b[..|a|] == a && settled(c, a) ensures settled(c, b) {
      ScoreSettledExtends(pages, start, a, b, c);
    }
    PlaceEachSettles(choose, settled, missing, 0, rp);
  }

  /** Tier 3 gives the `i`-th missing candidate the `i`-th free page, for as
      many as both lists allow; the pages it hands out were free and differ
      from each other; and when there are at least as many missing candidates
      as free pages, every page from `start` on ends up assigned. */
  lemma Tier3Adds(pages: seq<string>, start: nat, missing: seq<Candidate>, rp: seq<Assignment>)
    ensures FreshAppend(rp, Tier3(pages, start, missing, rp), start, |pages|)
    ensures var free := FreePages(start, |pages|, rp);
      var r := Tier3(pages, start, missing, rp);
      |r| - |rp| == (if |missing| < |free| then |missing| else |free|)
      && forall i :: 0 <= i < |r| - |rp| ==> r[|rp| + i] == Assignment(missing[i].name, missing[i].id, free[i])
    ensures |FreePages(start, |pages|, rp)| <= |missing| ==>
      forall q :: start <= q < |pages| ==> PageTaken(Tier3(pages, start, missing, rp), q)
  {
    Tier3Fresh(start, |pages|, missing, rp);
    Tier3Pairs(start, |pages|, missing, rp);
    if |FreePages(start, |pages|, rp)| <= |missing| {
      Tier3Full(start, |pages|, missing, rp);
    }
  }

  /** The records tier 3 adds are on free pages of `[start, hi)`, one each. */
  lemma Tier3Fresh(start: nat, hi: nat, missing: seq<Candidate>, rp: seq<Assignment>)
    ensures FreshAppend(rp, rp + Distribute(missing, FreePages(start, hi, rp)), start, hi)
  {
    var free := FreePages(start, hi, rp);
    var added := Distribute(missing, free);
    var r := rp + added;
    assert r[..|rp|] == rp;
    forall i | |rp| <= i < |r| ensures start <= r[i].page < hi && !PageTaken(r[..i], r[i].page) {
      assert r[i] == added[i - |rp|];
      forall t | 0 <= t < i ensures r[..i][t].page != r[i].page {
        if t < |rp| {
          assert r[..i][t] == rp[t];
        } else {
          assert r[..i][t] == added[t - |rp|];
        }
      }
    }
  }

  /** The `i`-th record tier 3 adds pairs the `i`-th candidate with the
      `i`-th free page. */
  lemma Tier3Pairs(start: nat, hi: nat, missing: seq<Candidate>, rp: seq<Assignment>)
    ensures var free := FreePages(start, hi, rp);
      var r := rp + Distribute(missing, free);
      |r| - |rp| == (if |missing| < |free| then |missing| else |free|)
      && forall i :: 0 <= i < |r| - |rp| ==> r[|rp| + i] == Assignment(missing[i].name, missing[i].id, free[i])
  {
    var free := FreePages(start, hi, rp);
    var added := Distribute(missing, free);
    var r := rp + added;
    forall i | 0 <= i < |r| - |rp| ensures r[|rp| + i] == Assignment(missing[i].name, missing[i].id, free[i]) {
      assert r[|rp| + i] == added[i];
    }
  }

  /** With no more free pages than candidates, tier 3 takes every page. */
  lemma Tier3Full(start: nat, hi: nat, missing: seq<Candidate>, rp: seq<Assignment>)
    requires |FreePages(start, hi, rp)| <= |missing|
    ensures forall q :: start <= q < hi ==> PageTaken(rp + Distribute(missing, FreePages(start, hi, rp)), q)
  {
    var free := FreePages(start, hi, rp);
    var added := Distribute(missing, free);
    var r := rp + added;
    forall q | start <= q < hi ensures PageTaken(r, q) {
      if PageTaken(rp, q) {
        var t :| 0 <= t < |rp| && rp[t].page == q;
        assert r[t] == rp[t];
      } else {
        FreePagesComplete(start, hi, rp, q);
        var t :| 0 <= t < |free| && free[t] == q;
        assert r[|rp| + t] == added[t];
      }
    }
  }

  /** Tier 3 keeps ids distinct and records from the roster. */
  lemma Tier3Ids(pages: seq<string>, start: nat, missing: seq<Candidate>, rp: seq<Assignment>, cands: seq<Candidate>)
    requires DistinctIds(missing) && DistinctPlacedIds(rp) && FromRoster(rp, cands)
    requires forall j :: 0 <= j < |missing| ==> !IdPlaced(rp, missing[j].id)
    requires forall j :: 0 <= j < |missing| ==> exists t :: 0 <= t < |cands| && cands[t] == missing[j]
    ensures DistinctPlacedIds(Tier3(pages, start, missing, rp))
    ensures FromRoster(Tier3(pages, start, missing, rp), cands)
  {
    var added := Distribute(missing, FreePages(start, |pages|, rp));
    var r := rp + added;
    assert Tier3(pages, start, missing, rp) == r;
    forall i, j | 0 <= i < j < |r| ensures r[i].id != r[j].id {
      if j < |rp| {
        assert r[i] == rp[i] && r[j] == rp[j];
      } else if i < |rp| {
        assert r[i] == rp[i] && r[j] == added[j - |rp|];
        assert !IdPlaced(rp, missing[j - |rp|].id);
      } else {
        assert r[i] == added[i - |rp|] && r[j] == added[j - |rp|];
      }
    }
    forall i | 0 <= i < |r| ensures exists t :: 0 <= t < |cands| && cands[t].name == r[i].name && cands[t].id == r[i].id {
      if i < |rp| {
        assert r[i] == rp[i];
      } else {
        assert r[i] == added[i - |rp|];
        var t :| 0 <= t < |cands| && cands[t] == missing[i - |rp|];
        assert cands[t].name == r[i].name && cands[t].id == r[i].id;
      }
    }
    assert forall i :: 0 <= i < |r| ==> exists t :: 0 <= t < |cands| && cands[t].name == r[i].name && cands[t].id == r[i].id;
  }

  /** The fallback only adds records, each on a page of `[start, n)` no
      record before it has. */
  lemma FallbackFresh(pages: seq<string>, cands: seq<Candidate>, start: nat, rp: seq<Assignment>)
    ensures FreshAppend(rp, AllTiers(pages, cands, start, rp), start, |pages|)
  {
    if |rp| >= |cands| {
      assert rp[..|rp|] == rp;
    } else {
      var r1 := PlaceEach(ById(pages, start), Missing(cands, rp), 0, rp);
      var r2 := PlaceEach(ByScore(pages, start), Missing(cands, r1), 0, r1);
      Tier1Adds(pages, start, Missing(cands, rp), rp);
      Tier2Adds(pages, start, Missing(cands, r1), r1);
      Tier3Adds(pages, start, Missing(cands, r2), r2);
      FreshAppendTrans(rp, r1, r2, start, |pages|);
      FreshAppendTrans(rp, r2, Tier3(pages, start, Missing(cands, r2), r2), start, |pages|);
    }
  }

  /** With a roster of distinct ids, the fallback gives no id a second
      record and adds only roster candidates. */
  lemma FallbackIds(pages: seq<string>, cands: seq<Candidate>, start: nat, rp: seq<Assignment>)
    requires DistinctIds(cands) && DistinctPlacedIds(rp) && FromRoster(rp, cands)
    ensures DistinctPlacedIds(AllTiers(pages, cands, start, rp))
    ensures FromRoster(AllTiers(pages, cands, start, rp), cands)
  {
    if |rp| < |cands| {
      var m0 := Missing(cands, rp);
      MissingDistinct(cands, rp);
      PlaceEachIds(ById(pages, start), m0, 0, rp, cands);
      var r1 := PlaceEach(ById(pages, start), m0, 0, rp);
      var m1 := Missing(cands, r1);
      MissingDistinct(cands, r1);
      PlaceEachIds(ByScore(pages, start), m1, 0, r1, cands);
      var r2 := PlaceEach(ByScore(pages, start), m1, 0, r1);
      MissingDistinct(cands, r2);
      Tier3Ids(pages, start, Missing(cands, r2), r2, cands);
    }
  }

  /** When the fallback runs, it ends with every candidate placed or with
      every page from `start` on assigned. */
  lemma FallbackComplete(pages: seq<string>, cands: seq<Candidate>, start: nat, rp: seq<Assignment>)
    requires |rp| < |cands|
    ensures var r := AllTiers(pages, cands, start, rp);
      (forall j :: 0 <= j < |cands| ==> IdPlaced(r, cands[j].id))
      || (forall q :: start <= q < |pages| ==> PageTaken(r, q))
  {
    var r1 := PlaceEach(ById(pages, start), Missing(cands, rp), 0, rp);
    var r2 := PlaceEach(ByScore(pages, start), Missing(cands, r1), 0, r1);
    var m := Missing(cands, r2);
    var free := FreePages(start, |pages|, r2);
    var r := Tier3(pages, start, m, r2);
    Tier3Adds(pages, start, m, r2);
    if |m| <= |free| {
      forall j | 0 <= j < |cands| ensures IdPlaced(r, cands[j].id) {
        if IdPlaced(r2, cands[j].id) {
          var t :| 0 <= t < |r2| && r2[t].id == cands[j].id;
          assert r[t] == r[..|r2|][t] == r2[t];
        } else {
          MissingComplete(cands, r2, j);
          var k :| 0 <= k < |m| && m[k] == cands[j];
          assert r[|r2| + k].id == cands[j].id;
        }
      }
    }
  }

  /** The fallback keeps every record it is given, keeps them in the range
      they were in, and puts the records it adds on pages none of those use. */
  lemma FallbackKeeps(pages: seq<string>, cands: seq<Candidate>, start: nat, rp: seq<Assignment>)
    ensures forall a :: a in rp ==> a in AllTiers(pages, cands, start, rp)
    ensures forall a :: a in AllTiers(pages, cands, start, rp) && a !in rp ==> !PageTaken(rp, a.page)
    ensures PagesWithin(rp, start, |pages|) ==> PagesWithin(AllTiers(pages, cands, start, rp), start, |pages|)
  {
    var f := AllTiers(pages, cands, start, rp);
    FallbackFresh(pages, cands, start, rp);
    FreshKeeps(rp, f, start, |pages|);
    FreshNew(rp, f, start, |pages|);
    if PagesWithin(rp, start, |pages|) {
      FreshWithin(rp, f, start, |pages|);
    }
  }

  lemma FreshKeeps(rp: seq<Assignment>, f: seq<Assignment>, lo: nat, hi: nat)
    requires FreshAppend(rp, f, lo, hi)
    ensures forall a :: a in rp ==> a in f
  {
    forall a | a in rp ensures a in f {
      var k :| 0 <= k < |rp| && rp[k] == a;
      assert f[k] == f[..|rp|][k];
    }
  }

  lemma FreshNew(rp: seq<Assignment>, f: seq<Assignment>, lo: nat, hi: nat)
    requires FreshAppend(rp, f, lo, hi)
    ensures forall a :: a in f && a !in rp ==> !PageTaken(rp, a.page)
  {
    forall a | a in f && a !in rp ensures !PageTaken(rp, a.page) {
      var k :| 0 <= k < |f| && f[k] == a;
      assert k >= |rp| by {
        forall t | 0 <= t < |rp| ensures f[t] in rp {
          assert f[t] == f[..|rp|][t];
        }
      }
      forall t | 0 <= t < |rp| ensures rp[t].page != a.page {
        assert f[..k][t] == f[..|rp|][t];
      }
    }
  }

  lemma FreshWithin(rp: seq<Assignment>, f: seq<Assignment>, lo: nat, hi: nat)
    requires FreshAppend(rp, f, lo, hi) && PagesWithin(rp, lo, hi)
    ensures PagesWithin(f, lo, hi)
  {
    forall k | 0 <= k < |f| ensures lo <= f[k].page < hi {
      if k < |rp| {
        assert f[k] == f[..|rp|][k];
      }
    }
  }
}

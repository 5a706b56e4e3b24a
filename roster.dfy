/** The table-of-contents scan at the start of
    `ResumeSplitter.find_resume_pages_flexible`: each line of the first pages is
    read with the first roster pattern that matches it, and a candidate is kept
    when its id was not collected from an earlier page. */
module Roster {
  import opened Text
  import opened Regex

  datatype Candidate = Candidate(name: string, id: string)

  /** A roster-line pattern: the text it is written as (the extraction looks at
      whether that text starts with `(C`) and the pattern itself. */
  datatype TocPattern = TocPattern(source: string, re: Re)

  const Number: Re := Plus(Char(Digit))       // `\d+`
  const Name: Re := LazyPlus(Char(Dot))       // `.+?`
  const IdToken: Re := Cat(Char(Exactly('C')), Plus(Char(Digit)))  // `C\d+`

  /** The four roster-line shapes, in the order they are tried. */
  const TocPatterns: seq<TocPattern> := [
    TocPattern("(\\d+)\\.\\s*(.+?)\\s+(C\\d+)",
      Seq([Group(1, Number), Char(Exactly('.')), Ws0, Group(2, Name), Ws1, Group(3, IdToken)])),
    TocPattern("(.+?)\\s+(C\\d+)\\s*$",
      Seq([Group(1, Name), Ws1, Group(2, IdToken), Ws0, End])),
    TocPattern("(C\\d+)\\s+(.+?)\\s*$",
      Seq([Group(1, IdToken), Ws1, Group(2, Name), Ws0, End])),
    TocPattern("(\\d+)\\s+(.+?)\\s+(C\\d+)",
      Seq([Group(1, Number), Ws1, Group(2, Name), Ws1, Group(3, IdToken)]))
  ]

  /** The name and id a match yields: groups 2 and 3 of a pattern with three
      groups, groups 2 and 1 of a pattern written with the id first, and
      groups 1 and 2 otherwise; the name is stripped. */
  function Extract(p: TocPattern, m: Match): Candidate
  {
    if GroupCount(p.re) == 3 then Candidate(Strip(GroupText(m, 2)), GroupText(m, 3))
    else if "(C" <= p.source then Candidate(Strip(GroupText(m, 2)), GroupText(m, 1))
    else Candidate(Strip(GroupText(m, 1)), GroupText(m, 2))
  }

  /** The result of `re.search` with each of `pats` on `line`, in order. */
  function Searches(pats: seq<TocPattern>, line: string): (ms: seq<Option<Match>>)
    ensures |ms| == |pats|
    ensures forall j :: 0 <= j < |pats| ==> ms[j] == Search(pats[j].re, line)
  {
    seq(|pats|, j requires 0 <= j < |pats| => Search(pats[j].re, line))
  }

  /** The index of the first of `ms[k..]` that holds a match. */
  function FirstHit(ms: seq<Option<Match>>, k: nat): (r: Option<nat>)
    ensures r.Some? ==>
      k <= r.value < |ms| && ms[r.value].Some? && (forall i :: k <= i < r.value ==> ms[i].None?)
    ensures r.None? ==> forall i :: k <= i < |ms| ==> ms[i].None?
    decreases |ms| - k
  {
    if k >= |ms| then None
    else if ms[k].Some? then Some(k)
    else FirstHit(ms, k + 1)
  }

  /** What one roster line contributes: at most one candidate, extracted with
      the first pattern that matches the stripped line. */
  function LineCandidate(line: string): Option<Candidate>
  {
    var ms := Searches(TocPatterns, Strip(line));
    match FirstHit(ms, 0)
    case None => None
    case Some(j) => Some(Extract(TocPatterns[j], ms[j].value))
  }

  /** `LineCandidate` in terms of `re.search` on the stripped line: a
      candidate exactly when one of the four patterns matches, extracted with
      the first pattern that does. */
  lemma LineCandidateFirstPattern(line: string)
    ensures LineCandidate(line).Some? <==>
      exists j :: 0 <= j < |TocPatterns| && Found(TocPatterns[j].re, Strip(line))
    ensures forall j :: (0 <= j < |TocPatterns| && Found(TocPatterns[j].re, Strip(line))
                         && (forall i :: 0 <= i < j ==> !Found(TocPatterns[i].re, Strip(line)))) ==>
      LineCandidate(line) == Some(Extract(TocPatterns[j], Search(TocPatterns[j].re, Strip(line)).value))
  {
    var ms := Searches(TocPatterns, Strip(line));
    var h := FirstHit(ms, 0);
    if h.Some? {
      forall j | 0 <= j < |TocPatterns| && Found(TocPatterns[j].re, Strip(line))
                 && (forall i :: 0 <= i < j ==> !Found(TocPatterns[i].re, Strip(line)))
        ensures j == h.value
      {
      }
    }
  }

  predicate IdSeen(cs: seq<Candidate>, id: string)
  {
    exists k :: 0 <= k < |cs| && cs[k].id == id
  }

  /** `found` after one line read `c`: a candidate is appended unless its id
      is among `seen`. */
  function Admit(seen: seq<Candidate>, found: seq<Candidate>, c: Option<Candidate>): (r: seq<Candidate>)
    ensures r == found || (c.Some? && !IdSeen(seen, c.value.id) && r == found + [c.value])
    ensures c.Some? && !IdSeen(seen, c.value.id) ==> r == found + [c.value]
  {
    match c
    case None => found
    case Some(d) => if IdSeen(seen, d.id) then found else found + [d]
  }

  /** What one page contributes: in line order, the candidate of each line
      whose id is not among `seen`, the candidates of earlier pages. Lines of
      the same page are not checked against each other. */
  function PageCandidates(read: string -> Option<Candidate>, lines: seq<string>, seen: seq<Candidate>): (r: seq<Candidate>)
    ensures |r| <= |lines|
    ensures forall k :: 0 <= k < |r| ==> !IdSeen(seen, r[k].id)
    ensures forall k :: 0 <= k < |r| ==>
      exists j :: 0 <= j < |lines| && read(lines[j]) == Some(r[k])
    decreases |lines|
  {
    if lines == [] then []
    else
      var m := |lines| - 1;
      var prev := PageCandidates(read, lines[..m], seen);
      assert forall k :: 0 <= k < |prev| ==>
        exists j :: 0 <= j < |lines| && read(lines[j]) == Some(prev[k]) by {
        forall k | 0 <= k < |prev|
          ensures exists j :: 0 <= j < |lines| && read(lines[j]) == Some(prev[k])
        {
          var j :| 0 <= j < m && read(lines[..m][j]) == Some(prev[k]);
          assert lines[..m][j] == lines[j];
        }
      }
      Admit(seen, prev, read(lines[m]))
  }

  /** One more line of the page. */
  lemma PageCandidatesSnoc(read: string -> Option<Candidate>, lines: seq<string>, li: nat, seen: seq<Candidate>)
    requires li < |lines|
    ensures PageCandidates(read, lines[..li + 1], seen) == Admit(seen, PageCandidates(read, lines[..li], seen), read(lines[li]))
  {
    assert lines[..li + 1][..li] == lines[..li];
  }

  /** Every line whose candidate has an unseen id is kept. */
  lemma {:induction false} PageCandidatesComplete(read: string -> Option<Candidate>, lines: seq<string>, seen: seq<Candidate>, j: nat)
    requires j < |lines| && read(lines[j]).Some?
    requires !IdSeen(seen, read(lines[j]).value.id)
    ensures exists k ::
      0 <= k < |PageCandidates(read, lines, seen)| && PageCandidates(read, lines, seen)[k] == read(lines[j]).value
    decreases |lines|
  {
    var m := |lines| - 1;
    var r := PageCandidates(read, lines, seen);
    if j == m {
      assert r[|r| - 1] == read(lines[j]).value;
    } else {
      assert lines[..m][j] == lines[j];
      PageCandidatesComplete(read, lines[..m], seen, j);
      var prev := PageCandidates(read, lines[..m], seen);
      var k :| 0 <= k < |prev| && prev[k] == read(lines[j]).value;
      assert r[k] == prev[k];
    }
  }

  predicate DistinctIds(cs: seq<Candidate>)
  {
    forall i, j :: 0 <= i < j < |cs| ==> cs[i].id != cs[j].id
  }

  /** Lines of one page are not checked against each other: a page that
      lists the same candidate on two lines contributes them twice. */
  lemma PageCandidatesRepeat(read: string -> Option<Candidate>, line: string, seen: seq<Candidate>)
    requires read(line).Some? && !IdSeen(seen, read(line).value.id)
    ensures PageCandidates(read, [line, line], seen) == [read(line).value, read(line).value]
    ensures !DistinctIds(PageCandidates(read, [line, line], seen))
  {
    var c := read(line).value;
    assert [line][..0] == [];
    assert PageCandidates(read, [line], seen) == [c];
    assert [line, line][..1] == [line];
    var r := PageCandidates(read, [line, line], seen);
    assert r == [c, c];
    assert r[0].id == r[1].id;
  }

  /** No two lines of a page name the same id. */
  predicate DistinctLineIds(read: string -> Option<Candidate>, lines: seq<string>)
  {
    forall i, j :: 0 <= i < j < |lines| && read(lines[i]).Some? && read(lines[j]).Some?
      ==> read(lines[i]).value.id != read(lines[j]).value.id
  }

  lemma {:induction false} PageCandidatesDistinct(read: string -> Option<Candidate>, lines: seq<string>, seen: seq<Candidate>)
    requires DistinctLineIds(read, lines)
    ensures DistinctIds(PageCandidates(read, lines, seen))
    decreases |lines|
  {
    if lines != [] {
      var m := |lines| - 1;
      var prev := PageCandidates(read, lines[..m], seen);
      assert DistinctLineIds(read, lines[..m]);
      PageCandidatesDistinct(read, lines[..m], seen);
      if read(lines[m]).Some? && !IdSeen(seen, read(lines[m]).value.id) {
        var c := read(lines[m]).value;
        forall k | 0 <= k < |prev| ensures prev[k].id != c.id {
          var j :| 0 <= j < m && read(lines[..m][j]) == Some(prev[k]);
          assert lines[..m][j] == lines[j];
        }
        DistinctSnoc(prev, c);
      }
    }
  }

  /** A candidate whose id is new keeps a list's ids distinct. */
  lemma DistinctSnoc(cs: seq<Candidate>, c: Candidate)
    requires DistinctIds(cs) && forall k :: 0 <= k < |cs| ==> cs[k].id != c.id
    ensures DistinctIds(cs + [c])
  {
  }

  /** `min(15, n)`: how many leading pages may hold the roster. */
  function TocLimit(n: nat): nat
  {
    if n < 15 then n else 15
  }

  /** One of the (at most two) pages before `p` holds a `C<digit>` token. */
  predicate RecentIdToken(pages: seq<string>, p: nat)
    requires p <= |pages|
  {
    exists q :: (if p < 2 then 0 else p - 2) <= q < p && HasIdToken(pages[q])
  }

  function Flatten(bs: seq<seq<Candidate>>): seq<Candidate>
  {
    if bs == [] then [] else Flatten(bs[..|bs| - 1]) + bs[|bs| - 1]
  }

  /** The page loop from page `p` on, given the contributions `blocks` of the
      pages read so far. An empty page is skipped; the scan stops after a page
      past the sixth that adds nothing when neither of the two pages before it
      holds a `C<digit>` token. */
  function RosterFrom(read: string -> Option<Candidate>, pages: seq<string>, p: nat, blocks: seq<seq<Candidate>>): seq<seq<Candidate>>
    requires p <= TocLimit(|pages|)
    decreases TocLimit(|pages|) - p
  {
    if p == TocLimit(|pages|) then blocks
    else if pages[p] == "" then RosterFrom(read, pages, p + 1, blocks)
    else
      var found := PageCandidates(read, SplitOn(pages[p], '\n'), Flatten(blocks));
      if found == [] && p > 5 && !RecentIdToken(pages, p) then blocks + [found]
      else RosterFrom(read, pages, p + 1, blocks + [found])
  }

  /** The contribution of each roster page read, in page order. */
  function RosterBlocks(pages: seq<string>): seq<seq<Candidate>>
  {
    RosterFrom(LineCandidate, pages, 0, [])
  }

  /** The roster: `candidates` once the scan is over. */
  function RosterOf(pages: seq<string>): seq<Candidate>
  {
    Flatten(RosterBlocks(pages))
  }

  /** One roster line: the patterns are tried in order, and the first that
      matches gives a candidate, kept when its id was not collected from an
      earlier page. */
  method ReadLine(rawLine: string, candidates: seq<Candidate>, pageCandidates: seq<Candidate>)
    returns (found: seq<Candidate>)
    ensures found == Admit(candidates, pageCandidates, LineCandidate(rawLine))
  {
    found := pageCandidates;
    var line := Strip(rawLine);
    ghost var ms := Searches(TocPatterns, line);
    var k := 0;
    while k < |TocPatterns|
      invariant 0 <= k <= |TocPatterns|
      invariant FirstHit(ms, k) == FirstHit(ms, 0)
      invariant found == pageCandidates
    {
      var m := Search(TocPatterns[k].re, line);
      assert m == ms[k];
      if m.Some? {
        var c := Extract(TocPatterns[k], m.value);
        if !IdSeen(candidates, c.id) {
          found := found + [c];
        }
        return;
      }
      k := k + 1;
    }
  }

  /** The lines of one roster page, read in order. */
  method ReadPage(tocText: string, candidates: seq<Candidate>) returns (pageCandidates: seq<Candidate>)
    ensures pageCandidates == PageCandidates(LineCandidate, SplitOn(tocText, '\n'), candidates)
  {
    var lines := SplitOn(tocText, '\n');
    pageCandidates := [];
    var li := 0;
    while li < |lines|
      invariant 0 <= li <= |lines|
      invariant pageCandidates == PageCandidates(LineCandidate, lines[..li], candidates)
    {
      PageCandidatesSnoc(LineCandidate, lines, li, candidates);
      pageCandidates := ReadLine(lines[li], candidates, pageCandidates);
      li := li + 1;
    }
    assert lines[..li] == lines;
  }

  /** Neither of the (at most two) pages before `pageNum` holds a
      `C<digit>` token. */
  method RecentPagesEmpty(pages: seq<string>, pageNum: nat) returns (recentPagesEmpty: bool)
    requires pageNum <= |pages|
    ensures recentPagesEmpty == !RecentIdToken(pages, pageNum)
  {
    recentPagesEmpty := true;
    var checkPage := if pageNum < 2 then 0 else pageNum - 2;
    while checkPage < pageNum
      invariant (if pageNum < 2 then 0 else pageNum - 2) <= checkPage <= pageNum
      invariant forall q :: (if pageNum < 2 then 0 else pageNum - 2) <= q < checkPage ==> !HasIdToken(pages[q])
    {
      if HasIdToken(pages[checkPage]) {
        recentPagesEmpty := false;
        return;
      }
      checkPage := checkPage + 1;
    }
  }

  /** The table-of-contents scan, as the source's loops do it. */
  method ScanRoster(pages: seq<string>) returns (candidates: seq<Candidate>)
    ensures candidates == RosterOf(pages)
  {
    candidates := [];
    ghost var blocks: seq<seq<Candidate>> := [];
    var maxTocPages := TocLimit(|pages|);
    var pageNum := 0;
    while pageNum < maxTocPages
      invariant 0 <= pageNum <= maxTocPages
      invariant candidates == Flatten(blocks)
      invariant RosterFrom(LineCandidate, pages, pageNum, blocks) == RosterBlocks(pages)
    {
      var tocText := pages[pageNum];
      if tocText == "" {
        pageNum := pageNum + 1;
        continue;
      }
      var pageCandidates := ReadPage(tocText, candidates);
      ghost var before := blocks;
      candidates := candidates + pageCandidates;
      blocks := blocks + [pageCandidates];
      assert blocks[..|blocks| - 1] == before;
      if pageCandidates == [] && pageNum > 5 {
        var recentPagesEmpty := RecentPagesEmpty(pages, pageNum);
        if recentPagesEmpty {
          break;
        }
      }
      pageNum := pageNum + 1;
    }
  }

  /** Each page's contribution holds no id collected from an earlier page. */
  predicate FreshBlocks(bs: seq<seq<Candidate>>)
  {
    forall b, k :: 0 <= b < |bs| && 0 <= k < |bs[b]| ==> !IdSeen(Flatten(bs[..b]), bs[b][k].id)
  }

  lemma {:induction false} RosterFromFresh(read: string -> Option<Candidate>, pages: seq<string>, p: nat, blocks: seq<seq<Candidate>>)
    requires p <= TocLimit(|pages|) && FreshBlocks(blocks)
    ensures FreshBlocks(RosterFrom(read, pages, p, blocks))
    decreases TocLimit(|pages|) - p
  {
    if p < TocLimit(|pages|) && pages[p] != "" {
      var found := PageCandidates(read, SplitOn(pages[p], '\n'), Flatten(blocks));
      var bs := blocks + [found];
      forall b, k | 0 <= b < |bs| && 0 <= k < |bs[b]| ensures !IdSeen(Flatten(bs[..b]), bs[b][k].id) {
        if b < |blocks| {
          assert bs[..b] == blocks[..b];
        } else {
          assert bs[..b] == blocks;
        }
      }
      if !(found == [] && p > 5 && !RecentIdToken(pages, p)) {
        RosterFromFresh(read, pages, p + 1, bs);
      }
    } else if p < TocLimit(|pages|) {
      RosterFromFresh(read, pages, p + 1, blocks);
    }
  }

  /** De-duplication is against earlier pages only: a candidate of a roster
      page never repeats the id of a candidate from a page before it. */
  lemma RosterFreshAcrossPages(pages: seq<string>)
    ensures FreshBlocks(RosterBlocks(pages))
  {
    RosterFromFresh(LineCandidate, pages, 0, []);
  }

  /** The block of candidates read from one roster page. */
  predicate BlockOfPage(read: string -> Option<Candidate>, pages: seq<string>, block: seq<Candidate>)
  {
    forall k :: 0 <= k < |block| ==>
      exists p :: 0 <= p < TocLimit(|pages|) && pages[p] != "" &&
        exists j :: 0 <= j < |SplitOn(pages[p], '\n')| &&
          read(SplitOn(pages[p], '\n')[j]) == Some(block[k])
  }

  lemma {:induction false} RosterFromSound(read: string -> Option<Candidate>, pages: seq<string>, p: nat, blocks: seq<seq<Candidate>>)
    requires p <= TocLimit(|pages|)
    requires forall b :: 0 <= b < |blocks| ==> BlockOfPage(read, pages, blocks[b])
    ensures forall b :: 0 <= b < |RosterFrom(read, pages, p, blocks)| ==>
      BlockOfPage(read, pages, RosterFrom(read, pages, p, blocks)[b])
    decreases TocLimit(|pages|) - p
  {
    if p < TocLimit(|pages|) && pages[p] != "" {
      var lines := SplitOn(pages[p], '\n');
      var found := PageCandidates(read, lines, Flatten(blocks));
      assert BlockOfPage(read, pages, found);
      var bs := blocks + [found];
      if !(found == [] && p > 5 && !RecentIdToken(pages, p)) {
        RosterFromSound(read, pages, p + 1, bs);
      }
    } else if p < TocLimit(|pages|) {
      RosterFromSound(read, pages, p + 1, blocks);
    }
  }

  /** Every candidate is what some line of one of the first `min(15, n)`
      pages yields. */
  lemma RosterSound(pages: seq<string>)
    ensures forall b :: 0 <= b < |RosterBlocks(pages)| ==> BlockOfPage(LineCandidate, pages, RosterBlocks(pages)[b])
  {
    RosterFromSound(LineCandidate, pages, 0, []);
  }

  lemma {:induction false} FlattenDistinct(bs: seq<seq<Candidate>>)
    requires FreshBlocks(bs)
    requires forall b :: 0 <= b < |bs| ==> DistinctIds(bs[b])
    ensures DistinctIds(Flatten(bs))
  {
    if bs != [] {
      var init := bs[..|bs| - 1];
      var last := bs[|bs| - 1];
      forall b, k | 0 <= b < |init| && 0 <= k < |init[b]| ensures !IdSeen(Flatten(init[..b]), init[b][k].id) {
        assert init[..b] == bs[..b];
      }
      FlattenDistinct(init);
      var f: seq<Candidate> := Flatten(init);
      var all: seq<Candidate> := f + last;
      assert Flatten(bs) == all;
      forall i, j | 0 <= i < j < |all| ensures all[i].id != all[j].id {
        if j >= |f| && i < |f| {
          assert !IdSeen(Flatten(bs[..|bs| - 1]), last[j - |f|].id);
        }
      }
    }
  }

  lemma {:induction false} RosterFromDistinctBlocks(read: string -> Option<Candidate>, pages: seq<string>, p: nat, blocks: seq<seq<Candidate>>)
    requires p <= TocLimit(|pages|)
    requires forall q :: 0 <= q < TocLimit(|pages|) ==> DistinctLineIds(read, SplitOn(pages[q], '\n'))
    requires forall b :: 0 <= b < |blocks| ==> DistinctIds(blocks[b])
    ensures forall b :: 0 <= b < |RosterFrom(read, pages, p, blocks)| ==> DistinctIds(RosterFrom(read, pages, p, blocks)[b])
    decreases TocLimit(|pages|) - p
  {
    if p < TocLimit(|pages|) && pages[p] != "" {
      var found := PageCandidates(read, SplitOn(pages[p], '\n'), Flatten(blocks));
      PageCandidatesDistinct(read, SplitOn(pages[p], '\n'), Flatten(blocks));
      if !(found == [] && p > 5 && !RecentIdToken(pages, p)) {
        RosterFromDistinctBlocks(read, pages, p + 1, blocks + [found]);
      }
    } else if p < TocLimit(|pages|) {
      RosterFromDistinctBlocks(read, pages, p + 1, blocks);
    }
  }

  /** When no roster page lists the same id on two lines, the roster's ids
      are pairwise distinct. */
  lemma RosterDistinct(pages: seq<string>)
    requires forall q :: 0 <= q < TocLimit(|pages|) ==> DistinctLineIds(LineCandidate, SplitOn(pages[q], '\n'))
    ensures DistinctIds(RosterOf(pages))
  {
    RosterFreshAcrossPages(pages);
    RosterFromDistinctBlocks(LineCandidate, pages, 0, []);
    FlattenDistinct(RosterBlocks(pages));
  }

  lemma RunAllOne(b: Re, s: string, i: nat, st: Step)
    requires i <= st.end <= |s|
    ensures RunAll(b, s, i, [st]) == Run(b, s, st.end, st.groups)
  {
    assert [st][1..] == [];
  }

  /** `\d+` matches at `j` exactly when a digit is there. */
  lemma RunDigits(s: string, j: nat, caps: Captures)
    requires j <= |s|
    ensures Run(Plus(Char(Digit)), s, j, caps) != [] <==> j < |s| && IsDigit(s[j])
  {
    var star := Star(Char(Digit), true);
    var second := Run(Char(Digit), s, j, caps);
    assert Run(Plus(Char(Digit)), s, j, caps) == RunAll(star, s, j, second);
    if j < |s| && IsDigit(s[j]) {
      assert second == [Step(j + 1, caps)];
      RunAllOne(star, s, j, Step(j + 1, caps));
      assert Run(star, s, j + 1, caps) != [];
    } else {
      assert second == [];
    }
  }

  /** `C\d+` matches at `i` exactly when a `C` there is followed by a digit. */
  lemma RunIdToken(s: string, i: nat, caps: Captures)
    requires i <= |s|
    ensures Run(IdToken, s, i, caps) != [] <==> i + 1 < |s| && s[i] == 'C' && IsDigit(s[i + 1])
  {
    var first := Run(Char(Exactly('C')), s, i, caps);
    assert Run(IdToken, s, i, caps) == RunAll(Plus(Char(Digit)), s, i, first);
    if i < |s| && s[i] == 'C' {
      assert first == [Step(i + 1, caps)];
      RunAllOne(Plus(Char(Digit)), s, i, Step(i + 1, caps));
      RunDigits(s, i + 1, caps);
    } else {
      assert first == [];
    }
  }

  /** `re.search(r'C\d+', text)`, the id-token test of the roster's early
      stop and of the start page, finds a match exactly when `HasIdToken`
      holds. */
  lemma IdTokenSearch(s: string)
    ensures Found(IdToken, s) <==> HasIdToken(s)
  {
    var m := Search(IdToken, s);
    if m.Some? {
      RunIdToken(s, m.value.start, map[]);
    } else {
      forall i | 0 <= i < |s| - 1
        ensures !(s[i] == 'C' && IsDigit(s[i + 1]))
      {
        RunIdToken(s, i, map[]);
      }
    }
  }
}

/** The records `find_resume_pages_flexible` builds (`{'name', 'id', 'page'}`),
    the questions asked of the list of them, and `list.sort(key=page)`. */
module Assignments {
  import opened Regex
  import opened Roster

  /** A candidate placed on the page where their resume starts. */
  datatype Assignment = Assignment(name: string, id: string, page: nat)

  /** `any(rp['page'] == q for rp in resume_pages)` */
  predicate PageTaken(rp: seq<Assignment>, q: nat)
  {
    exists k :: 0 <= k < |rp| && rp[k].page == q
  }

  /** `any(rp['id'] == id for rp in resume_pages)` */
  predicate IdPlaced(rp: seq<Assignment>, id: string)
  {
    exists k :: 0 <= k < |rp| && rp[k].id == id
  }

  predicate SortedByPage(rp: seq<Assignment>)
  {
    forall i, j :: 0 <= i < j < |rp| ==> rp[i].page <= rp[j].page
  }

  predicate DistinctPlacedIds(rp: seq<Assignment>)
  {
    forall i, j :: 0 <= i < j < |rp| ==> rp[i].id != rp[j].id
  }

  /** Every record names a candidate of the roster. */
  predicate FromRoster(rp: seq<Assignment>, cands: seq<Candidate>)
  {
    forall k :: 0 <= k < |rp| ==>
      exists j :: 0 <= j < |cands| && cands[j].name == rp[k].name && cands[j].id == rp[k].id
  }

  predicate PagesWithin(rp: seq<Assignment>, lo: nat, hi: nat)
  {
    forall k :: 0 <= k < |rp| ==> lo <= rp[k].page < hi
  }

  /** The page of the first record for `id`, if there is one. */
  function PlacedAt(rp: seq<Assignment>, id: string): (r: Option<nat>)
    ensures r.Some? <==> IdPlaced(rp, id)
    ensures r.Some? ==> exists k :: 0 <= k < |rp| && rp[k].id == id && rp[k].page == r.value
  {
    if rp == [] then None
    else if rp[0].id == id then Some(rp[0].page)
    else
      var r := PlacedAt(rp[1..], id);
      assert IdPlaced(rp, id) ==> IdPlaced(rp[1..], id) by {
        if IdPlaced(rp, id) {
          var k :| 0 <= k < |rp| && rp[k].id == id;
          assert rp[1..][k - 1] == rp[k];
        }
      }
      assert r.Some? ==> exists k :: 0 <= k < |rp| && rp[k].id == id && rp[k].page == r.value by {
        if r.Some? {
          var k :| 0 <= k < |rp[1..]| && rp[1..][k].id == id && rp[1..][k].page == r.value;
          assert rp[k + 1] == rp[1..][k];
        }
      }
      r
  }

  /** Appending a record changes where an id is placed only when the id was
      not placed yet. */
  lemma {:induction false} PlacedAtAppend(rp: seq<Assignment>, a: Assignment, id: string)
    ensures PlacedAt(rp + [a], id) ==
      if PlacedAt(rp, id).Some? then PlacedAt(rp, id)
      else if a.id == id then Some(a.page) else None
  {
    if rp != [] {
      assert (rp + [a])[1..] == rp[1..] + [a];
      PlacedAtAppend(rp[1..], a, id);
    }
  }

  /** `c for c in candidates if c['id'] not in found_candidates` */
  function Missing(cands: seq<Candidate>, rp: seq<Assignment>): (m: seq<Candidate>)
    ensures |m| <= |cands|
    ensures forall k :: 0 <= k < |m| ==> !IdPlaced(rp, m[k].id)
    ensures forall k :: 0 <= k < |m| ==> exists j :: 0 <= j < |cands| && cands[j] == m[k]
  {
    if cands == [] then []
    else
      var rest := Missing(cands[1..], rp);
      assert forall k :: 0 <= k < |rest| ==> exists j :: 0 <= j < |cands| && cands[j] == rest[k] by {
        forall k | 0 <= k < |rest| ensures exists j :: 0 <= j < |cands| && cands[j] == rest[k] {
          var j :| 0 <= j < |cands[1..]| && cands[1..][j] == rest[k];
          assert cands[j + 1] == rest[k];
        }
      }
      if IdPlaced(rp, cands[0].id) then rest else [cands[0]] + rest
  }

  /** Every candidate whose id is not placed is missing. */
  lemma {:induction false} MissingComplete(cands: seq<Candidate>, rp: seq<Assignment>, j: nat)
    requires j < |cands| && !IdPlaced(rp, cands[j].id)
    ensures exists k :: 0 <= k < |Missing(cands, rp)| && Missing(cands, rp)[k] == cands[j]
  {
    MissingMember(cands, rp, cands[j]);
  }

  lemma {:induction false} MissingMember(cands: seq<Candidate>, rp: seq<Assignment>, c: Candidate)
    requires c in cands && !IdPlaced(rp, c.id)
    ensures c in Missing(cands, rp)
  {
    MissingCons(cands, rp);
    if cands[0] != c {
      assert cands == [cands[0]] + cands[1..];
      MissingMember(cands[1..], rp, c);
    }
  }

  lemma MissingCons(cands: seq<Candidate>, rp: seq<Assignment>)
    requires cands != []
    ensures Missing(cands, rp)
      == if IdPlaced(rp, cands[0].id) then Missing(cands[1..], rp) else [cands[0]] + Missing(cands[1..], rp)
  {
  }

  /** A sub-list of a list of candidates with pairwise distinct ids has
      pairwise distinct ids. */
  lemma {:induction false} MissingDistinct(cands: seq<Candidate>, rp: seq<Assignment>)
    requires DistinctIds(cands)
    ensures DistinctIds(Missing(cands, rp))
  {
    if cands != [] {
      var rest := Missing(cands[1..], rp);
      assert DistinctIds(cands[1..]) by {
        forall i, j | 0 <= i < j < |cands[1..]| ensures cands[1..][i].id != cands[1..][j].id {
          assert cands[1..][i] == cands[i + 1] && cands[1..][j] == cands[j + 1];
        }
      }
      MissingDistinct(cands[1..], rp);
      if !IdPlaced(rp, cands[0].id) {
        var m := [cands[0]] + rest;
        forall i, j | 0 <= i < j < |m| ensures m[i].id != m[j].id {
          if i == 0 {
            var t :| 0 <= t < |cands[1..]| && cands[1..][t] == rest[j - 1];
            assert cands[t + 1] == m[j];
          } else {
            assert m[i] == rest[i - 1] && m[j] == rest[j - 1];
          }
        }
      }
    }
  }

  // `list.sort(key=lambda x: x['page'])`: a stable sort by page.

  /** Inserts `a` after every record whose page is not greater than its own. */
  function Insert(a: Assignment, s: seq<Assignment>): (r: seq<Assignment>)
    ensures multiset(r) == multiset(s) + multiset{a}
  {
    if s == [] then [a]
    else if a.page < s[0].page then [a] + s
    else
      assert s == [s[0]] + s[1..];
      [s[0]] + Insert(a, s[1..])
  }

  /** Insertion sort, taking the records in their list order. */
  function SortByPage(s: seq<Assignment>): (r: seq<Assignment>)
    ensures multiset(r) == multiset(s)
  {
    if s == [] then []
    else
      assert s == s[..|s| - 1] + [s[|s| - 1]];
      Insert(s[|s| - 1], SortByPage(s[..|s| - 1]))
  }

  /** The records on page `p`, in list order. */
  function OnPage(s: seq<Assignment>, p: nat): (r: seq<Assignment>)
    ensures forall k :: 0 <= k < |r| ==> r[k].page == p
  {
    if s == [] then []
    else (if s[0].page == p then [s[0]] else []) + OnPage(s[1..], p)
  }

  lemma {:induction false} OnPageAppend(a: seq<Assignment>, b: seq<Assignment>, p: nat)
    ensures OnPage(a + b, p) == OnPage(a, p) + OnPage(b, p)
  {
    if a == [] {
      assert a + b == b;
    } else {
      assert (a + b)[1..] == a[1..] + b;
      OnPageAppend(a[1..], b, p);
    }
  }

  lemma {:induction false} OnPageAbove(s: seq<Assignment>, p: nat)
    requires forall k :: 0 <= k < |s| ==> s[k].page > p
    ensures OnPage(s, p) == []
  {
    if s != [] {
      OnPageAbove(s[1..], p);
    }
  }

  lemma {:induction false} InsertLowerBound(a: Assignment, s: seq<Assignment>, lo: nat)
    requires a.page >= lo && forall k :: 0 <= k < |s| ==> s[k].page >= lo
    ensures forall k :: 0 <= k < |Insert(a, s)| ==> Insert(a, s)[k].page >= lo
  {
    if s != [] && a.page >= s[0].page {
      InsertLowerBound(a, s[1..], lo);
    }
  }

  lemma {:induction false} InsertSorted(a: Assignment, s: seq<Assignment>)
    requires SortedByPage(s)
    ensures SortedByPage(Insert(a, s))
  {
    if s != [] && a.page >= s[0].page {
      var t := s[1..];
      InsertSorted(a, t);
      InsertLowerBound(a, t, s[0].page);
      var r := [s[0]] + Insert(a, t);
      assert r[1..] == Insert(a, t);
    }
  }

  lemma OnPageCons(x: Assignment, t: seq<Assignment>, p: nat)
    ensures OnPage([x] + t, p) == (if x.page == p then [x] else []) + OnPage(t, p)
  {
    assert ([x] + t)[1..] == t;
  }

  lemma Assoc<T>(x: seq<T>, y: seq<T>, z: seq<T>)
    ensures x + (y + z) == (x + y) + z
  {
  }

  /** Inserting after the first record. */
  lemma InsertOnPageStep(a: Assignment, s: seq<Assignment>, p: nat)
    requires s != [] && a.page >= s[0].page
    requires OnPage(Insert(a, s[1..]), p) == OnPage(s[1..], p) + (if a.page == p then [a] else [])
    ensures OnPage(Insert(a, s), p) == OnPage(s, p) + (if a.page == p then [a] else [])
  {
    var x := s[0];
    var t := s[1..];
    assert s == [x] + t;
    assert Insert(a, s) == [x] + Insert(a, t);
    OnPageCons(x, Insert(a, t), p);
    OnPageCons(x, t, p);
    Assoc(if x.page == p then [x] else [], OnPage(t, p), if a.page == p then [a] else []);
  }

  lemma InsertFront(a: Assignment, s: seq<Assignment>)
    requires s == [] || a.page < s[0].page
    ensures Insert(a, s) == [a] + s
  {
  }

  lemma SortedAbove(s: seq<Assignment>, p: nat)
    requires SortedByPage(s) && s != [] && s[0].page > p
    ensures forall k :: 0 <= k < |s| ==> s[k].page > p
  {
    forall k | 0 <= k < |s|
      ensures s[k].page > p
    {
      if k > 0 {
        assert s[0].page <= s[k].page;
      }
    }
  }

  /** Inserting in front of a sorted list, on the page asked about ... */
  lemma InsertOnPageHit(a: Assignment, s: seq<Assignment>, p: nat)
    requires SortedByPage(s) && (s == [] || a.page < s[0].page) && a.page == p
    ensures OnPage(Insert(a, s), p) == OnPage(s, p) + [a]
  {
    InsertFront(a, s);
    OnPageCons(a, s, p);
    if s != [] {
      SortedAbove(s, p);
    }
    OnPageAbove(s, p);
  }

  /** ... or on another page. */
  lemma InsertOnPageMiss(a: Assignment, s: seq<Assignment>, p: nat)
    requires (s == [] || a.page < s[0].page) && a.page != p
    ensures OnPage(Insert(a, s), p) == OnPage(s, p)
  {
    InsertFront(a, s);
    OnPageCons(a, s, p);
    assert [] + OnPage(s, p) == OnPage(s, p);
  }

  lemma {:induction false} InsertOnPage(a: Assignment, s: seq<Assignment>, p: nat)
    requires SortedByPage(s)
    ensures OnPage(Insert(a, s), p) == OnPage(s, p) + (if a.page == p then [a] else [])
  {
    if s == [] || a.page < s[0].page {
      if a.page == p {
        InsertOnPageHit(a, s, p);
      } else {
        InsertOnPageMiss(a, s, p);
        assert OnPage(s, p) + [] == OnPage(s, p);
      }
    } else {
      assert SortedByPage(s[1..]);
      InsertOnPage(a, s[1..], p);
      InsertOnPageStep(a, s, p);
    }
  }

  /** The sort's result is ordered by page. */
  lemma {:induction false} SortByPageSorted(s: seq<Assignment>)
    ensures SortedByPage(SortByPage(s))
  {
    if s != [] {
      SortByPageSorted(s[..|s| - 1]);
      InsertSorted(s[|s| - 1], SortByPage(s[..|s| - 1]));
    }
  }

  /** The sort is stable: the records of any one page keep their order. */
  lemma {:induction false} SortByPageStable(s: seq<Assignment>, p: nat)
    ensures OnPage(SortByPage(s), p) == OnPage(s, p)
  {
    if s != [] {
      var init := s[..|s| - 1];
      var last := s[|s| - 1];
      assert s == init + [last];
      var sorted := SortByPage(init);
      SortByPageStable(init, p);
      SortByPageSorted(init);
      InsertOnPage(last, sorted, p);
      assert SortByPage(s) == Insert(last, sorted);
      OnPageAppend(init, [last], p);
      assert OnPage([last], p) == (if last.page == p then [last] else []) + OnPage([], p);
    }
  }

  /** A list that is already ordered by page is left as it is. */
  lemma {:induction false} SortByPageSortedInput(s: seq<Assignment>)
    requires SortedByPage(s)
    ensures SortByPage(s) == s
  {
    if s != [] {
      var init := s[..|s| - 1];
      var last := s[|s| - 1];
      SortedInit(s);
      SortByPageSortedInput(init);
      InsertAtEnd(last, init);
      SortByPageLast(s);
    }
  }

  /** Sorting a non-empty list inserts its last record into the sorted rest. */
  lemma SortByPageLast(s: seq<Assignment>)
    requires s != []
    ensures SortByPage(s) == Insert(s[|s| - 1], SortByPage(s[..|s| - 1]))
  {
  }

  /** Every record of `s` is on page `p` or before it. */
  predicate PagesAtMost(s: seq<Assignment>, p: nat)
  {
    forall k :: 0 <= k < |s| ==> s[k].page <= p
  }

  /** Without its last record, a list ordered by page stays ordered, and that
      record is on a page at least as late as every other. */
  lemma SortedInit(s: seq<Assignment>)
    requires s != [] && SortedByPage(s)
    ensures SortedByPage(s[..|s| - 1]) && PagesAtMost(s[..|s| - 1], s[|s| - 1].page)
    ensures s == s[..|s| - 1] + [s[|s| - 1]]
  {
    var init := s[..|s| - 1];
    forall i, j | 0 <= i < j < |init| ensures init[i].page <= init[j].page {
      assert init[i] == s[i] && init[j] == s[j];
    }
    forall k | 0 <= k < |init| ensures init[k].page <= s[|s| - 1].page {
      assert init[k] == s[k];
    }
  }

  lemma {:induction false} InsertAtEnd(a: Assignment, s: seq<Assignment>)
    requires PagesAtMost(s, a.page)
    ensures Insert(a, s) == s + [a]
  {
    if s != [] {
      assert PagesAtMost(s[1..], a.page) by {
        forall k | 0 <= k < |s[1..]| ensures s[1..][k].page <= a.page {
          assert s[1..][k] == s[k + 1];
        }
      }
      InsertAtEnd(a, s[1..]);
      assert s[0].page <= a.page;
      assert Insert(a, s) == [s[0]] + (s[1..] + [a]);
      Assoc([s[0]], s[1..], [a]);
      assert [s[0]] + s[1..] == s;
    }
  }

  /** Sorting keeps which records there are, so membership questions are
      answered the same before and after. */
  lemma SortKeepsMembers(s: seq<Assignment>)
    ensures |SortByPage(s)| == |s|
    ensures forall a :: a in SortByPage(s) <==> a in s
  {
    var r := SortByPage(s);
    assert multiset(r) == multiset(s);
    assert |r| == |multiset(r)| == |multiset(s)| == |s|;
    forall a ensures a in r <==> a in s {
      assert a in r <==> a in multiset(r);
      assert a in s <==> a in multiset(s);
    }
  }

  /** Two lists holding the same records, counted with multiplicity, hold
      each other's records. */
  lemma SameRecords(r: seq<Assignment>, s: seq<Assignment>)
    requires multiset(r) == multiset(s)
    ensures forall k :: 0 <= k < |r| ==> exists t :: 0 <= t < |s| && s[t] == r[k]
    ensures forall t :: 0 <= t < |s| ==> exists k :: 0 <= k < |r| && r[k] == s[t]
  {
    forall k | 0 <= k < |r| ensures exists t :: 0 <= t < |s| && s[t] == r[k] {
      assert r[k] in multiset(r);
      assert r[k] in s;
    }
    forall t | 0 <= t < |s| ensures exists k :: 0 <= k < |r| && r[k] == s[t] {
      assert s[t] in multiset(s);
      assert s[t] in r;
    }
  }

  /** ... and so give the same answers to "is this id placed?" and "is this
      page taken?", and have their pages in the same ranges. */
  lemma SameRecordsQueries(r: seq<Assignment>, s: seq<Assignment>)
    requires multiset(r) == multiset(s)
    ensures forall id :: IdPlaced(r, id) <==> IdPlaced(s, id)
    ensures forall q :: PageTaken(r, q) <==> PageTaken(s, q)
    ensures forall lo, hi :: PagesWithin(r, lo, hi) <==> PagesWithin(s, lo, hi)
  {
    SameRecords(r, s);
  }

  /** Records all of which occur in a list from a roster are from it. */
  lemma FromRosterWithin(r: seq<Assignment>, s: seq<Assignment>, cands: seq<Candidate>)
    requires forall a :: a in r ==> a in s
    requires FromRoster(s, cands)
    ensures FromRoster(r, cands)
  {
    forall k | 0 <= k < |r| ensures exists j :: 0 <= j < |cands| && cands[j].name == r[k].name && cands[j].id == r[k].id {
      assert r[k] in r;
      var t :| 0 <= t < |s| && s[t] == r[k];
    }
    assert forall k :: 0 <= k < |r| ==> exists j :: 0 <= j < |cands| && cands[j].name == r[k].name && cands[j].id == r[k].id;
  }

  /** ... and come from the same rosters. */
  lemma SameRecordsFromRoster(r: seq<Assignment>, s: seq<Assignment>, cands: seq<Candidate>)
    requires multiset(r) == multiset(s)
    ensures FromRoster(r, cands) <==> FromRoster(s, cands)
  {
    assert forall a :: a in r <==> a in s by {
      forall a ensures a in r <==> a in s {
        assert a in r <==> a in multiset(r);
        assert a in s <==> a in multiset(s);
      }
    }
    if FromRoster(s, cands) {
      FromRosterWithin(r, s, cands);
    }
    if FromRoster(r, cands) {
      FromRosterWithin(s, r, cands);
    }
  }

  /** Sorting keeps the answers to all of these questions. */
  lemma SortKeepsQueries(s: seq<Assignment>, cands: seq<Candidate>)
    ensures forall id :: IdPlaced(SortByPage(s), id) <==> IdPlaced(s, id)
    ensures forall q :: PageTaken(SortByPage(s), q) <==> PageTaken(s, q)
    ensures forall lo, hi :: PagesWithin(SortByPage(s), lo, hi) <==> PagesWithin(s, lo, hi)
    ensures FromRoster(SortByPage(s), cands) <==> FromRoster(s, cands)
  {
    SameRecordsQueries(SortByPage(s), s);
    SameRecordsFromRoster(SortByPage(s), s, cands);
  }

  lemma {:induction false} InsertDistinct(a: Assignment, s: seq<Assignment>)
    requires DistinctPlacedIds(s) && !IdPlaced(s, a.id)
    ensures DistinctPlacedIds(Insert(a, s))
  {
    if s != [] && a.page >= s[0].page {
      var tail := s[1..];
      DistinctTail(s);
      assert !IdPlaced(tail, a.id) by {
        forall k | 0 <= k < |tail| ensures tail[k].id != a.id {
          assert tail[k] == s[k + 1];
        }
      }
      InsertDistinct(a, tail);
      var t := Insert(a, tail);
      forall k | 0 <= k < |t| ensures t[k].id != s[0].id {
        assert t[k] in multiset(tail) + multiset{a};
        if t[k] != a {
          assert t[k] in tail;
          var m :| 0 <= m < |tail| && tail[m] == t[k];
          assert tail[m] == s[m + 1];
        }
      }
      DistinctCons(s[0], t);
    } else if s != [] {
      DistinctCons(a, s);
    }
  }

  lemma DistinctTail(s: seq<Assignment>)
    requires s != [] && DistinctPlacedIds(s)
    ensures DistinctPlacedIds(s[1..])
  {
    var tail := s[1..];
    forall i, j | 0 <= i < j < |tail| ensures tail[i].id != tail[j].id {
      assert tail[i] == s[i + 1] && tail[j] == s[j + 1];
    }
  }

  /** A record whose id is new keeps ids distinct at the front of a list. */
  lemma DistinctCons(x: Assignment, t: seq<Assignment>)
    requires DistinctPlacedIds(t) && forall k :: 0 <= k < |t| ==> t[k].id != x.id
    ensures DistinctPlacedIds([x] + t)
  {
    var r := [x] + t;
    forall i, j | 0 <= i < j < |r| ensures r[i].id != r[j].id {
      assert r[j] == t[j - 1];
      if i > 0 {
        assert r[i] == t[i - 1];
      }
    }
  }

  /** Sorting keeps the ids pairwise distinct. */
  lemma {:induction false} SortKeepsDistinct(s: seq<Assignment>)
    requires DistinctPlacedIds(s)
    ensures DistinctPlacedIds(SortByPage(s))
  {
    if s != [] {
      var init := s[..|s| - 1];
      var last := s[|s| - 1];
      assert DistinctPlacedIds(init);
      SortKeepsDistinct(init);
      assert !IdPlaced(init, last.id) by {
        forall k | 0 <= k < |init| ensures init[k].id != last.id {
          assert init[k] == s[k];
        }
      }
      SortKeepsQueries(init, []);
      InsertDistinct(last, SortByPage(init));
    }
  }

  /** The ids the records carry, and the ids of a roster. */
  function PlacedIds(rp: seq<Assignment>): set<string>
  {
    set k | 0 <= k < |rp| :: rp[k].id
  }

  function RosterIds(cands: seq<Candidate>): set<string>
  {
    set j | 0 <= j < |cands| :: cands[j].id
  }

  lemma PlacedIdsSnoc(rp: seq<Assignment>)
    requires rp != []
    ensures PlacedIds(rp) == PlacedIds(rp[..|rp| - 1]) + {rp[|rp| - 1].id}
  {
    var init := rp[..|rp| - 1];
    forall x | x in PlacedIds(rp) ensures x in PlacedIds(init) + {rp[|rp| - 1].id} {
      var k :| 0 <= k < |rp| && rp[k].id == x;
      if k < |rp| - 1 {
        assert init[k] == rp[k];
      }
    }
    forall x | x in PlacedIds(init) ensures x in PlacedIds(rp) {
      var k :| 0 <= k < |init| && init[k].id == x;
      assert rp[k] == init[k];
    }
  }

  lemma {:induction false} PlacedIdsCount(rp: seq<Assignment>)
    requires DistinctPlacedIds(rp)
    ensures |PlacedIds(rp)| == |rp|
  {
    if rp != [] {
      var init := rp[..|rp| - 1];
      var last := rp[|rp| - 1];
      assert DistinctPlacedIds(init);
      PlacedIdsCount(init);
      PlacedIdsSnoc(rp);
      forall k | 0 <= k < |init| ensures init[k].id != last.id {
        assert init[k] == rp[k];
      }
      assert last.id !in PlacedIds(init);
    }
  }

  lemma RosterIdsSnoc(cands: seq<Candidate>)
    requires cands != []
    ensures RosterIds(cands) <= RosterIds(cands[..|cands| - 1]) + {cands[|cands| - 1].id}
  {
    var init := cands[..|cands| - 1];
    forall x | x in RosterIds(cands) ensures x in RosterIds(init) + {cands[|cands| - 1].id} {
      var j :| 0 <= j < |cands| && cands[j].id == x;
      if j < |cands| - 1 {
        assert init[j] == cands[j];
      }
    }
  }

  lemma {:induction false} RosterIdsCount(cands: seq<Candidate>)
    ensures |RosterIds(cands)| <= |cands|
  {
    if cands != [] {
      var init := cands[..|cands| - 1];
      RosterIdsCount(init);
      RosterIdsSnoc(cands);
      SubsetCount(RosterIds(cands), RosterIds(init) + {cands[|cands| - 1].id});
    }
  }

  lemma SubsetCount<T>(a: set<T>, b: set<T>)
    requires a <= b
    ensures |a| <= |b|
    ensures |a| == |b| ==> a == b
  {
    assert b == a + (b - a);
    assert a * (b - a) == {};
    if |a| == |b| {
      assert |b - a| == 0;
    }
  }

  /** Records with distinct ids, each naming a roster candidate, are no more
      than the roster; when they are as many, every roster id is placed. */
  lemma PlacedAtMostRoster(rp: seq<Assignment>, cands: seq<Candidate>)
    requires DistinctPlacedIds(rp) && FromRoster(rp, cands)
    ensures |rp| <= |cands|
    ensures |rp| == |cands| ==> forall j :: 0 <= j < |cands| ==> IdPlaced(rp, cands[j].id)
  {
    PlacedIdsCount(rp);
    RosterIdsCount(cands);
    assert PlacedIds(rp) <= RosterIds(cands) by {
      forall x | x in PlacedIds(rp) ensures x in RosterIds(cands) {
        var k :| 0 <= k < |rp| && rp[k].id == x;
        var j :| 0 <= j < |cands| && cands[j].name == rp[k].name && cands[j].id == rp[k].id;
      }
    }
    SubsetCount(PlacedIds(rp), RosterIds(cands));
    if |rp| == |cands| {
      forall j | 0 <= j < |cands| ensures IdPlaced(rp, cands[j].id) {
        assert cands[j].id in RosterIds(cands);
        var k :| 0 <= k < |rp| && rp[k].id == cands[j].id;
      }
    }
  }
}

/** `ResumeSplitter.find_resume_pages_flexible`: the roster, the first page
    after it, the primary pass and its sort, then the fallback and the final
    sort. */
module Finder {
  import opened Text
  import opened Regex
  import opened Roster
  import opened Assignments
  import opened CoverLetter
  import opened Locator
  import opened Fallback

  /** The pass over the documents' pages for any page classifier and any name
      test: the primary pass, its sort, the fallback and the second sort. */
  function Locate(isCover: string -> bool, finds: (Candidate, string) -> bool, pages: seq<string>,
                  cands: seq<Candidate>, start: nat): seq<Assignment>
  {
    var primary := SortByPage(Primary(isCover, finds, pages, cands, start));
    SortByPage(AllTiers(pages, cands, start, primary))
  }

  /** What `find_resume_pages_flexible` returns for a document whose pages
      have the texts `pages`. */
  function ResumePages(pages: seq<string>): seq<Assignment>
  {
    Locate(IsCoverLetter, NameOnPage, pages, RosterOf(pages), StartPage(pages))
  }

  method FindResumePagesFlexible(pages: seq<string>) returns (resumePages: seq<Assignment>)
    ensures resumePages == ResumePages(pages)
  {
    var candidates := ScanRoster(pages);
    var startPage := FindStartPage(pages);
    resumePages := LocatePrimary(pages, candidates, startPage, IsCoverLetter);
    resumePages := SortByPage(resumePages);
    resumePages := RunFallback(pages, candidates, startPage, resumePages);
    resumePages := SortByPage(resumePages);
  }

  /** The result is ordered by page, every page is at `start` or after it,
      every record of the primary pass is kept, and a record the fallback
      added is on a page the primary pass did not use. */
  lemma LocateShape(isCover: string -> bool, finds: (Candidate, string) -> bool, pages: seq<string>,
                    cands: seq<Candidate>, start: nat)
    ensures SortedByPage(Locate(isCover, finds, pages, cands, start))
    ensures PagesWithin(Locate(isCover, finds, pages, cands, start), start, |pages|)
    ensures forall a :: a in Primary(isCover, finds, pages, cands, start) ==> a in Locate(isCover, finds, pages, cands, start)
    ensures forall a :: a in Locate(isCover, finds, pages, cands, start) && a !in Primary(isCover, finds, pages, cands, start) ==>
      !PageTaken(Primary(isCover, finds, pages, cands, start), a.page)
  {
    var p := Primary(isCover, finds, pages, cands, start);
    var sp := SortByPage(p);
    var f := AllTiers(pages, cands, start, sp);
    PrimaryWellFormed(isCover, finds, pages, cands, start);
    SortByPageSorted(f);
    SortKeepsMembers(p);
    SortKeepsMembers(f);
    SortKeepsQueries(p, cands);
    SortKeepsQueries(f, cands);
    FallbackKeeps(pages, cands, start, sp);
  }

  /** With a roster of distinct ids: no id gets two records, every record
      names a roster candidate, and there are no more records than
      candidates. */
  lemma LocateIds(isCover: string -> bool, finds: (Candidate, string) -> bool, pages: seq<string>,
                  cands: seq<Candidate>, start: nat)
    requires DistinctIds(cands)
    ensures DistinctPlacedIds(Locate(isCover, finds, pages, cands, start))
    ensures FromRoster(Locate(isCover, finds, pages, cands, start), cands)
    ensures |Locate(isCover, finds, pages, cands, start)| <= |cands|
  {
    var p := Primary(isCover, finds, pages, cands, start);
    var sp := SortByPage(p);
    var f := AllTiers(pages, cands, start, sp);
    PrimaryWellFormed(isCover, finds, pages, cands, start);
    SortKeepsDistinct(p);
    SortKeepsQueries(p, cands);
    FallbackIds(pages, cands, start, sp);
    SortKeepsDistinct(f);
    SortKeepsQueries(f, cands);
    PlacedAtMostRoster(SortByPage(f), cands);
  }

  /** Every candidate has a record, or every page of `[start, n)` is
      assigned. */
  predicate PlacedOrFull(rp: seq<Assignment>, cands: seq<Candidate>, start: nat, n: nat)
  {
    (forall j :: 0 <= j < |cands| ==> IdPlaced(rp, cands[j].id))
    || (forall q :: start <= q < n ==> PageTaken(rp, q))
  }

  /** Every candidate ends up placed, or every page from `start` on is
      assigned. */
  lemma LocateComplete(isCover: string -> bool, finds: (Candidate, string) -> bool, pages: seq<string>,
                       cands: seq<Candidate>, start: nat)
    ensures PlacedOrFull(Locate(isCover, finds, pages, cands, start), cands, start, |pages|)
  {
    var p := Primary(isCover, finds, pages, cands, start);
    var sp := SortByPage(p);
    var f := AllTiers(pages, cands, start, sp);
    PrimaryWellFormed(isCover, finds, pages, cands, start);
    SortKeepsDistinct(p);
    SortKeepsQueries(p, cands);
    SortKeepsQueries(f, cands);
    if |sp| < |cands| {
      FallbackComplete(pages, cands, start, sp);
    } else {
      PlacedAtMostRoster(sp, cands);
    }
  }

  /** For the document itself: sorted, on pages after the roster, the
      primary pass's records kept and the fallback's on pages it left free. */
  lemma ResumePagesShape(pages: seq<string>)
    ensures SortedByPage(ResumePages(pages))
    ensures PagesWithin(ResumePages(pages), StartPage(pages), |pages|)
    ensures forall a :: a in Primary(IsCoverLetter, NameOnPage, pages, RosterOf(pages), StartPage(pages)) ==> a in ResumePages(pages)
  {
    LocateShape(IsCoverLetter, NameOnPage, pages, RosterOf(pages), StartPage(pages));
  }

  /** When no roster page names an id on two of its lines, the roster's ids
      are distinct, and then so are the result's, which are at most the
      roster's size; and every candidate is placed or every page after the
      roster is assigned. */
  lemma ResumePagesIds(pages: seq<string>)
    requires forall q :: 0 <= q < TocLimit(|pages|) ==> DistinctLineIds(LineCandidate, SplitOn(pages[q], '\n'))
    ensures DistinctPlacedIds(ResumePages(pages))
    ensures FromRoster(ResumePages(pages), RosterOf(pages))
    ensures |ResumePages(pages)| <= |RosterOf(pages)|
    ensures PlacedOrFull(ResumePages(pages), RosterOf(pages), StartPage(pages), |pages|)
  {
    RosterDistinct(pages);
    LocateIds(IsCoverLetter, NameOnPage, pages, RosterOf(pages), StartPage(pages));
    LocateComplete(IsCoverLetter, NameOnPage, pages, RosterOf(pages), StartPage(pages));
  }

  /** For any document: every roster candidate is placed, or every page
      after the roster is assigned. */
  lemma ResumePagesComplete(pages: seq<string>)
    ensures PlacedOrFull(ResumePages(pages), RosterOf(pages), StartPage(pages), |pages|)
  {
    LocateComplete(IsCoverLetter, NameOnPage, pages, RosterOf(pages), StartPage(pages));
  }
}

/** `ResumeSplitter.split_resumes` without the files it reads and writes: for
    each record `find_resume_pages_flexible` returns, the range of pages the
    record owns, the pages of that range kept once cover letters are dropped,
    how many were dropped, and the name of the file written when any page is
    kept. */
module Splitter {
  import opened Text
  import opened Regex
  import opened Roster
  import opened Assignments
  import opened CoverLetter
  import opened Finder

  /** What one record gives: a file holding the kept pages, in order, with
      the count of cover letters dropped; or no file, when every page of the
      range was a cover letter (or the range is empty). */
  datatype Output =
    | Written(fileName: string, kept: seq<nat>, removed: nat)
    | Skipped(name: string, removed: nat)

  /** The end of the `i`-th record's range: the next record's page, or the
      page count for the last record. */
  function RangeEnd(rp: seq<Assignment>, i: nat, total: nat): nat
    requires i < |rp|
  {
    if i + 1 < |rp| then rp[i + 1].page else total
  }

  /** The pages of `[lo, hi)` that are not cover letters, in order. */
  function KeptPages(isCover: string -> bool, pages: seq<string>, lo: nat, hi: nat): (kept: seq<nat>)
    requires hi <= lo || hi <= |pages|
    ensures forall k :: 0 <= k < |kept| ==> lo <= kept[k] < hi && !isCover(pages[kept[k]])
    ensures forall k, m :: 0 <= k < m < |kept| ==> kept[k] < kept[m]
    decreases hi
  {
    if hi <= lo then []
    else KeptPages(isCover, pages, lo, hi - 1) + (if isCover(pages[hi - 1]) then [] else [hi - 1])
  }

  /** How many pages of `[lo, hi)` are cover letters. */
  function RemovedCount(isCover: string -> bool, pages: seq<string>, lo: nat, hi: nat): nat
    requires hi <= lo || hi <= |pages|
    decreases hi
  {
    if hi <= lo then 0
    else RemovedCount(isCover, pages, lo, hi - 1) + (if isCover(pages[hi - 1]) then 1 else 0)
  }

  /** Every page of the range is kept or counted as removed ... */
  lemma {:induction false} KeptPlusRemoved(isCover: string -> bool, pages: seq<string>, lo: nat, hi: nat)
    requires hi <= |pages|
    ensures |KeptPages(isCover, pages, lo, hi)| + RemovedCount(isCover, pages, lo, hi) == if lo <= hi then hi - lo else 0
    decreases hi
  {
    if lo < hi {
      KeptPlusRemoved(isCover, pages, lo, hi - 1);
    }
  }

  lemma {:induction false} KeptOne(isCover: string -> bool, pages: seq<string>, lo: nat, hi: nat, q: nat)
    requires lo <= q < hi <= |pages| && !isCover(pages[q])
    ensures q in KeptPages(isCover, pages, lo, hi)
    decreases hi
  {
    var prev := KeptPages(isCover, pages, lo, hi - 1);
    if q < hi - 1 {
      KeptOne(isCover, pages, lo, hi - 1, q);
      assert KeptPages(isCover, pages, lo, hi) == prev + (if isCover(pages[hi - 1]) then [] else [hi - 1]);
    } else {
      assert KeptPages(isCover, pages, lo, hi) == prev + [q];
    }
  }

  /** ... and every page that is not a cover letter is kept. */
  lemma KeptAll(isCover: string -> bool, pages: seq<string>, lo: nat, hi: nat)
    requires hi <= |pages|
    ensures forall q :: lo <= q < hi && !isCover(pages[q]) ==> q in KeptPages(isCover, pages, lo, hi)
  {
    forall q | lo <= q < hi && !isCover(pages[q])
      ensures q in KeptPages(isCover, pages, lo, hi)
    {
      KeptOne(isCover, pages, lo, hi, q);
    }
  }

  // `f"{i+1:02d}"`: a decimal number, zero-padded to two digits.

  function DigitChar(d: nat): (c: char)
    requires d < 10
    ensures IsDigit(c)
  {
    ('0' as int + d) as char
  }

  /** The decimal digits of `n`, most significant first, with no leading
      zero. */
  function Digits(n: nat): (s: string)
    ensures |s| >= 1 && forall k :: 0 <= k < |s| ==> IsDigit(s[k])
    ensures n > 0 ==> s[0] != '0'
  {
    if n < 10 then [DigitChar(n)] else Digits(n / 10) + [DigitChar(n % 10)]
  }

  /** At least two digits, and a leading zero only to reach two. */
  function Pad2(n: nat): (s: string)
    ensures |s| >= 2 && forall k :: 0 <= k < |s| ==> IsDigit(s[k])
    ensures |s| == 2 || s[0] != '0'
  {
    if n < 10 then "0" + Digits(n) else Digits(n)
  }

  /** The number a string of decimal digits denotes. */
  function ParseDecimal(s: string): nat
    requires forall k :: 0 <= k < |s| ==> IsDigit(s[k])
  {
    if s == [] then 0
    else
      assert IsDigit(s[|s| - 1]);
      ParseDecimal(s[..|s| - 1]) * 10 + (s[|s| - 1] as int - '0' as int)
  }

  lemma {:induction false} ParseDigits(n: nat)
    ensures ParseDecimal(Digits(n)) == n
  {
    if n >= 10 {
      ParseDigits(n / 10);
      var s := Digits(n);
      assert s[..|s| - 1] == Digits(n / 10);
    }
  }

  /** The padded number reads back as the number. */
  lemma Pad2Parses(n: nat)
    ensures ParseDecimal(Pad2(n)) == n
  {
    ParseDigits(n);
    if n < 10 {
      var s := Pad2(n);
      assert s[..|s| - 1] == "0";
      assert "0"[..0] == [];
    }
  }

  /** `re.sub(r'[^\w\s]', '', name).replace(' ', '_')` */
  function SafeName(name: string): (s: string)
    ensures |s| <= |name|
    ensures forall k :: 0 <= k < |s| ==> IsWordChar(s[k]) || (IsSpace(s[k]) && s[k] != ' ')
  {
    DropPunctShorter(name);
    ReplaceAny(DropPunct(name), " ", '_')
  }

  lemma {:induction false} DropPunctShorter(s: string)
    ensures |DropPunct(s)| <= |s|
    decreases |s|
  {
    if s != [] {
      DropPunctShorter(s[1..]);
    }
  }

  /** `f"{i+1:02d}_{safe_name}_{resume['id']}.pdf"` */
  function FileName(i: nat, a: Assignment): string
  {
    Pad2(i + 1) + "_" + SafeName(a.name) + "_" + a.id + ".pdf"
  }

  /** The longest prefix of `s` made of decimal digits. */
  function LeadingDigits(s: string): (d: string)
    ensures d <= s && forall k :: 0 <= k < |d| ==> IsDigit(d[k])
    ensures |d| == |s| || !IsDigit(s[|d|])
  {
    if s == [] || !IsDigit(s[0]) then [] else [s[0]] + LeadingDigits(s[1..])
  }

  lemma {:induction false} LeadingDigitsOf(d: string, rest: string)
    requires forall k :: 0 <= k < |d| ==> IsDigit(d[k])
    requires rest == [] || !IsDigit(rest[0])
    ensures LeadingDigits(d + rest) == d
  {
    if d != [] {
      assert (d + rest)[1..] == d[1..] + rest;
      LeadingDigitsOf(d[1..], rest);
    } else {
      assert d + rest == rest;
    }
  }

  /** The file name starts with the record's position, counted from one,
      so no two records of one run get the same file name. */
  lemma FileNameNumber(i: nat, a: Assignment)
    ensures ParseDecimal(LeadingDigits(FileName(i, a))) == i + 1
  {
    var rest := "_" + SafeName(a.name) + "_" + a.id + ".pdf";
    assert FileName(i, a) == Pad2(i + 1) + rest;
    LeadingDigitsOf(Pad2(i + 1), rest);
    Pad2Parses(i + 1);
  }

  lemma FileNamesDistinct(i: nat, j: nat, a: Assignment, b: Assignment)
    requires i != j
    ensures FileName(i, a) != FileName(j, b)
  {
    FileNameNumber(i, a);
    FileNameNumber(j, b);
  }

  /** No two files written have the same name. */
  predicate DistinctFileNames(es: seq<Output>)
  {
    forall i, j :: 0 <= i < j < |es| && es[i].Written? && es[j].Written? ==> es[i].fileName != es[j].fileName
  }

  /** What the `i`-th record gives. */
  function Entry(isCover: string -> bool, pages: seq<string>, rp: seq<Assignment>, i: nat): Output
    requires i < |rp| && PagesWithin(rp, 0, |pages|)
  {
    var lo := rp[i].page;
    var hi := RangeEnd(rp, i, |pages|);
    var kept := KeptPages(isCover, pages, lo, hi);
    var removed := RemovedCount(isCover, pages, lo, hi);
    if |kept| > 0 then Written(FileName(i, rp[i]), kept, removed) else Skipped(rp[i].name, removed)
  }

  /** A range keeps a page exactly when it holds one that is not a cover
      letter ... */
  lemma KeptNonEmpty(isCover: string -> bool, pages: seq<string>, lo: nat, hi: nat)
    requires hi <= |pages|
    ensures |KeptPages(isCover, pages, lo, hi)| > 0 <==> exists q :: lo <= q < hi && !isCover(pages[q])
  {
    var kept := KeptPages(isCover, pages, lo, hi);
    KeptAll(isCover, pages, lo, hi);
    if |kept| > 0 {
      assert lo <= kept[0] < hi && !isCover(pages[kept[0]]);
    }
  }

  /** ... and keeps exactly those pages. */
  lemma KeptExactly(isCover: string -> bool, pages: seq<string>, lo: nat, hi: nat)
    requires hi <= |pages|
    ensures forall q :: q in KeptPages(isCover, pages, lo, hi) <==> lo <= q < hi && !isCover(pages[q])
  {
    var kept := KeptPages(isCover, pages, lo, hi);
    KeptAll(isCover, pages, lo, hi);
    forall q | q in kept ensures lo <= q < hi && !isCover(pages[q]) {
      var k :| 0 <= k < |kept| && kept[k] == q;
    }
  }

  /** A file is written exactly when its record's range holds a page that is
      not a cover letter ... */
  lemma EntryWritten(isCover: string -> bool, pages: seq<string>, rp: seq<Assignment>, i: nat)
    requires i < |rp| && PagesWithin(rp, 0, |pages|)
    ensures Entry(isCover, pages, rp, i).Written? <==>
      exists q :: rp[i].page <= q < RangeEnd(rp, i, |pages|) && !isCover(pages[q])
  {
    var lo := rp[i].page;
    var hi := RangeEnd(rp, i, |pages|);
    KeptNonEmpty(isCover, pages, lo, hi);
    assert Entry(isCover, pages, rp, i).Written? <==> |KeptPages(isCover, pages, lo, hi)| > 0;
  }

  /** ... and it holds exactly those pages. */
  lemma EntryKept(isCover: string -> bool, pages: seq<string>, rp: seq<Assignment>, i: nat)
    requires i < |rp| && PagesWithin(rp, 0, |pages|)
    ensures Entry(isCover, pages, rp, i).Written? ==>
      forall q :: q in Entry(isCover, pages, rp, i).kept <==> rp[i].page <= q < RangeEnd(rp, i, |pages|) && !isCover(pages[q])
  {
    var lo := rp[i].page;
    var hi := RangeEnd(rp, i, |pages|);
    KeptExactly(isCover, pages, lo, hi);
    assert Entry(isCover, pages, rp, i).Written? ==> Entry(isCover, pages, rp, i).kept == KeptPages(isCover, pages, lo, hi);
  }

  /** Every page of the range is in the file or counted as removed. */
  lemma EntryCounts(isCover: string -> bool, pages: seq<string>, rp: seq<Assignment>, i: nat)
    requires i < |rp| && PagesWithin(rp, 0, |pages|)
    ensures var lo := rp[i].page;
      var hi := RangeEnd(rp, i, |pages|);
      var e := Entry(isCover, pages, rp, i);
      (e.Skipped? ==> e.removed == if lo <= hi then hi - lo else 0)
      && (e.Written? ==> |e.kept| + e.removed == hi - lo)
  {
    KeptPlusRemoved(isCover, pages, rp[i].page, RangeEnd(rp, i, |pages|));
  }

  /** The name of a written file carries the record's position. */
  lemma EntryName(isCover: string -> bool, pages: seq<string>, rp: seq<Assignment>, i: nat)
    requires i < |rp| && PagesWithin(rp, 0, |pages|)
    ensures Entry(isCover, pages, rp, i).Written? ==>
      ParseDecimal(LeadingDigits(Entry(isCover, pages, rp, i).fileName)) == i + 1
  {
    FileNameNumber(i, rp[i]);
  }

  /** Page `q` lies in the range of one of the records. */
  predicate Covered(rp: seq<Assignment>, n: nat, q: nat)
  {
    exists i :: 0 <= i < |rp| && rp[i].page <= q < RangeEnd(rp, i, n)
  }

  /** Every page from the first record's on lies in some record's range. */
  predicate CoveredFromFirst(rp: seq<Assignment>, n: nat)
  {
    |rp| > 0 ==> forall q :: rp[0].page <= q < n ==> Covered(rp, n, q)
  }

  /** With the records ordered by page, the ranges do not overlap and
      together cover every page from the first record's page to the end. */
  lemma RangesPartition(rp: seq<Assignment>, n: nat)
    requires |rp| > 0 && SortedByPage(rp) && PagesWithin(rp, 0, n)
    ensures forall i, j :: 0 <= i < j < |rp| ==> RangeEnd(rp, i, n) <= rp[j].page
    ensures forall q :: rp[0].page <= q < n ==> Covered(rp, n, q)
  {
    forall q | rp[0].page <= q < n ensures Covered(rp, n, q) {
      RangeOwner(rp, n, q, |rp| - 1);
    }
  }

  lemma {:induction false} RangeOwner(rp: seq<Assignment>, n: nat, q: nat, k: nat)
    requires k < |rp| && rp[0].page <= q < n
    requires k + 1 < |rp| ==> rp[k + 1].page > q
    ensures exists i :: 0 <= i <= k && rp[i].page <= q < RangeEnd(rp, i, n)
    decreases k
  {
    if rp[k].page > q {
      RangeOwner(rp, n, q, k - 1);
    } else {
      assert rp[k].page <= q < RangeEnd(rp, k, n);
    }
  }

  /** The entries for all records of a list. */
  function Entries(isCover: string -> bool, pages: seq<string>, rp: seq<Assignment>): (es: seq<Output>)
    requires PagesWithin(rp, 0, |pages|)
    ensures |es| == |rp|
  {
    seq(|rp|, i requires 0 <= i < |rp| => Entry(isCover, pages, rp, i))
  }

  /** What `split_resumes` produces for a document whose pages have the
      texts `pages`. */
  function Split(pages: seq<string>): seq<Output>
  {
    var rp := ResumePages(pages);
    ResumePagesShape(pages);
    Entries(IsCoverLetter, pages, rp)
  }

  /** Each record's file holds exactly the pages of its range that are not
      cover letters, and two files never share a name. */
  lemma EntriesMeaning(isCover: string -> bool, pages: seq<string>, rp: seq<Assignment>)
    requires PagesWithin(rp, 0, |pages|)
    ensures forall i :: 0 <= i < |rp| && Entries(isCover, pages, rp)[i].Written? ==>
      forall q :: q in Entries(isCover, pages, rp)[i].kept <==> rp[i].page <= q < RangeEnd(rp, i, |pages|) && !isCover(pages[q])
    ensures DistinctFileNames(Entries(isCover, pages, rp))
  {
    var es := Entries(isCover, pages, rp);
    forall i | 0 <= i < |rp| && es[i].Written?
      ensures forall q :: q in es[i].kept <==> rp[i].page <= q < RangeEnd(rp, i, |pages|) && !isCover(pages[q])
    {
      EntryKept(isCover, pages, rp, i);
    }
    forall i, j | 0 <= i < j < |rp| && es[i].Written? && es[j].Written? ensures es[i].fileName != es[j].fileName {
      EntryName(isCover, pages, rp, i);
      EntryName(isCover, pages, rp, j);
    }
  }

  /** For a document: one entry per record, the records ordered by page so
      that the ranges partition the pages from the first record's on, and no
      two files with the same name. Which pages each file holds is stated by
      `EntriesMeaning` for any classifier, `IsCoverLetter` among them. */
  lemma SplitMeaning(pages: seq<string>)
    ensures |Split(pages)| == |ResumePages(pages)|
    ensures CoveredFromFirst(ResumePages(pages), |pages|)
    ensures DistinctFileNames(Split(pages))
  {
    var rp := ResumePages(pages);
    ResumePagesShape(pages);
    EntriesPartition(IsCoverLetter, pages, rp);
    assert Split(pages) == Entries(IsCoverLetter, pages, rp);
  }

  /** The files for a sorted list of records: one per record, ranges that
      cover every page from the first record's on, and distinct names. */
  lemma EntriesPartition(isCover: string -> bool, pages: seq<string>, rp: seq<Assignment>)
    requires SortedByPage(rp) && PagesWithin(rp, 0, |pages|)
    ensures CoveredFromFirst(rp, |pages|)
    ensures DistinctFileNames(Entries(isCover, pages, rp))
  {
    EntriesMeaning(isCover, pages, rp);
    if |rp| > 0 {
      RangesPartition(rp, |pages|);
    }
  }

  /** The pages of one range are read in order; cover letters are counted
      and dropped, and the others are added to the file. */
  method KeepPages(pages: seq<string>, startPage: nat, endPage: nat, isCover: string -> bool)
    returns (writer: seq<nat>, coverLettersRemoved: nat)
    requires endPage <= |pages|
    ensures writer == KeptPages(isCover, pages, startPage, endPage)
    ensures coverLettersRemoved == RemovedCount(isCover, pages, startPage, endPage)
  {
    writer := [];
    coverLettersRemoved := 0;
    var pageIdx := startPage;
    while pageIdx < endPage
      invariant startPage <= pageIdx && (pageIdx <= endPage || pageIdx == startPage)
      invariant writer == KeptPages(isCover, pages, startPage, pageIdx)
      invariant coverLettersRemoved == RemovedCount(isCover, pages, startPage, pageIdx)
      decreases endPage - pageIdx
    {
      var pageText := pages[pageIdx];
      if isCover(pageText) {
        coverLettersRemoved := coverLettersRemoved + 1;
        pageIdx := pageIdx + 1;
        continue;
      }
      writer := writer + [pageIdx];
      pageIdx := pageIdx + 1;
    }
  }

  /** One record: its range runs to the next record's page, or to the end
      for the last one; a file is named only when a page was kept. */
  method SplitEntry(pages: seq<string>, resumePages: seq<Assignment>, i: nat, isCover: string -> bool)
    returns (out: Output)
    requires i < |resumePages| && PagesWithin(resumePages, 0, |pages|)
    ensures out == Entry(isCover, pages, resumePages, i)
  {
    var resume := resumePages[i];
    var startPage := resume.page;
    var endPage := if i + 1 < |resumePages| then resumePages[i + 1].page else |pages|;
    var writer, coverLettersRemoved := KeepPages(pages, startPage, endPage, isCover);
    var pagesAdded := |writer|;
    if pagesAdded > 0 {
      var safeName := SafeName(resume.name);
      var filename := Pad2(i + 1) + "_" + safeName + "_" + resume.id + ".pdf";
      out := Written(filename, writer, coverLettersRemoved);
    } else {
      out := Skipped(resume.name, coverLettersRemoved);
    }
  }

  /** The loop over the records. */
  method SplitAll(pages: seq<string>, resumePages: seq<Assignment>, isCover: string -> bool)
    returns (outputs: seq<Output>)
    requires PagesWithin(resumePages, 0, |pages|)
    ensures outputs == Entries(isCover, pages, resumePages)
  {
    outputs := [];
    var i := 0;
    while i < |resumePages|
      invariant i <= |resumePages|
      invariant outputs == Entries(isCover, pages, resumePages)[..i]
    {
      var out := SplitEntry(pages, resumePages, i, isCover);
      ghost var es := Entries(isCover, pages, resumePages);
      assert es[i] == out;
      assert es[..i + 1] == es[..i] + [es[i]];
      outputs := outputs + [out];
      i := i + 1;
    }
  }

  /** Nothing is split when no record was found. */
  method SplitResumes(pages: seq<string>) returns (outputs: seq<Output>)
    ensures outputs == Split(pages)
  {
    var resumePages := FindResumePagesFlexible(pages);
    if |resumePages| == 0 {
      return [];
    }
    ResumePagesShape(pages);
    outputs := SplitAll(pages, resumePages, IsCoverLetter);
  }
}

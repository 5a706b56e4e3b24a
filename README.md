# Resume splitter, modelled in Dafny

`ResumeSplitter` takes a PDF bundle of resumes with a table of contents and
splits it into one PDF per candidate. This project models that logic; the
document is the sequence of its pages' extracted texts (`extract_text() or
""`), and `n` is its length. The model has four stages.

- **Roster scan** (`Roster`). It reads the table-of-contents lines of the
  first `min(15, n)` pages. On each line it tries four line shapes in order,
  and the first that matches gives a `(name, id)`. The candidate is kept when
  its id was not collected from an earlier page. The scan stops early after
  page 5 on a page that adds nothing, when neither of the two pages before it
  holds a `C<digit>` token.
- **Boundary and primary locator** (`Locator`). Resume search starts after
  the last of the first `min(15, n)` pages that holds an id token. From there
  the locator walks the pages and skips cover letters. For each candidate not
  yet placed, it tries five name tests on bounded prefixes of the page, with
  windows of 600, 600, 2000, 800 and 1000 characters.
- **Fallback** (`Fallback`). It runs when some candidates are still
  unplaced, in three tiers:
  - tier 1 takes the first free page that holds the id literal;
  - tier 2 takes the free page with the highest keyword and name-part score,
    when that score is at least 3, keeping the earliest page on ties;
  - tier 3 hands the remaining candidates the remaining free pages one to one.

  The whole pass (`Finder`) sorts by page after the primary locator and again
  at the end.
- **Classifier and splitter** (`CoverLetter`, `Splitter`). The classifier
  normalises the text, then counts the letter patterns that match. A page is
  a cover letter when at least two patterns match or a strong phrase occurs.
  The splitter gives record `i` the pages from its page up to the next
  record's page (the last record runs to the end). It drops the cover letters
  in that range and names the file `NN_safe_name_id.pdf`. Instead of writing
  files, it returns one `Output` value per record.

Supporting modules:
- `Text` holds the string operations Python provides: `strip`, `split`,
  `upper`, `in`, and the whitespace and word-character classes.
- `Regex` is a small backtracking regular-expression engine. It tries
  alternatives in Python's priority order and gives the first match.
- `Assignments` defines the `{name, id, page}` records, the queries the
  source makes on them, and `list.sort(key=page)` as a stable insertion sort.

Each loop of the source is a `method` with its loop invariants. Each method
is proved equal to a specification function that follows the same loop, and
the promised properties are lemmas about those functions. The classifier
and the name test are parameters of the primary pass, of the whole pass
(`Finder.Locate`) and of the splitter (`Splitter.Entries`). The concrete
`IsCoverLetter` and `NameOnPage` are plugged in by `Finder.ResumePages` and
`Splitter.Split`. That way each of those properties is proved once, for any
classifier. The tier 2 scan `Fallback.BestFrom` takes its score as a
parameter too, but `Fallback.BestPage` always uses the concrete
`Fallback.ScoreFor`.

The model follows the code in these points, which a reader might expect
otherwise:
- The classifier counts matching patterns, not matching categories.
- The list is sorted after the primary pass and at the end only, not after
  each fallback tier.
- Roster ids are proved distinct when no roster page lists one id on two
  lines (`Roster.RosterDistinct`). De-duplication looks only at earlier
  pages, and `Roster.PageCandidatesRepeat` exhibits a repeated id. The
  earliest-page placement (`Locator.PrimaryFirstIdPage`) and completeness
  (`Finder.LocateComplete`) are proved for any roster, repeated ids
  included; only the result's distinct ids and its size bound
  (`Finder.LocateIds`) assume a distinct roster.
- The code lists 25 letter patterns. Two of them can never match the cleaned
  text, because they need a `:`, `/` or `-` that cleaning has already
  replaced with a space (`CoverLetter.UnmatchablePatterns`).

## Model

| member | source | states |
|---|---|---|
| Text.Strip | split_resumes.py:37-45 | `str.strip()`: the result is a contiguous slice of the input with only whitespace cut off either end, and it neither starts nor ends with whitespace |
| Text.SplitWs | split_resumes.py:95 | `str.split()`: every part is non-empty and holds no whitespace; `SplitWsRuns` states which runs they are |
| Text.SplitWsRuns | split_resumes.py:95 | the parts are the maximal non-whitespace runs of the text, in order: joined by single spaces they give the stripped text with each whitespace run made one space |
| Text.SplitOn | split_resumes.py:27 | `split('\n')`: at least one part, and no part holds the separator |
| Text.SplitOnJoin | split_resumes.py:27 | joining the parts of `split('\n')` with the separator gives back the page text |
| Text.CollapseSpace | split_resumes.py:269 | `re.sub(r'\s+', ' ', …)`: every whitespace character left is a single space, no two spaces are adjacent, and the result is empty exactly when the input is; `CollapseSpaceText` states what it keeps |
| Text.CollapseSpaceFirst | split_resumes.py:269 | the collapsed text starts with a space exactly when the text starts with whitespace, and otherwise with the text's first character |
| Text.CollapseSpaceKeeps | split_resumes.py:269 | for any class of non-whitespace characters, the characters of that class survive collapsing, all of them and in order |
| Text.CollapseSpaceText | split_resumes.py:269 | the non-whitespace characters of the collapsed text are exactly those of the input, in order |
| Text.PunctToSpaceKeeps | split_resumes.py:270 | `re.sub(r'[^\w\s]', ' ', …)` keeps every word character, all of them and in order |
| Text.DropPunct | split_resumes.py:381 | `re.sub(r'[^\w\s]', '', …)`: no character other than a word or whitespace character remains; `DropPunctFilter` states what it keeps |
| Text.DropPunctKeeps | split_resumes.py:381 | text without such characters comes back unchanged |
| Text.DropPunctFilter | split_resumes.py:381 | the result is exactly the input's word and whitespace characters, in order |
| Text.ContainsAt | split_resumes.py:103 | the substring test `w in s` holds exactly when `w` occurs at some position of `s` |
| Text.ContainsInLongerPrefix | split_resumes.py:103-153 | a word found in a prefix of the page is still found in any longer prefix |
| Regex.SearchFrom | split_resumes.py:37 | `re.search` from a position: a match starts at the leftmost position where the pattern matches and is the first match in backtracking order there (its end and groups are those of `Regex.Run`'s first result); no match is reported exactly when the pattern matches at no position |
| Regex.NotFoundWithoutPunct | split_resumes.py:270 | a pattern that needs a punctuation character never matches text with no punctuation |
| CoverLetter.CleanText | split_resumes.py:268-270 | the cleaned text is empty exactly when the page is, holds only word characters and spaces, has no lower-case letter, and its word characters are exactly those of the upper-cased page, in order |
| CoverLetter.CountFound | split_resumes.py:311-314 | the number of matching patterns is at most the number of patterns |
| CoverLetter.CountFoundAppend | split_resumes.py:311-314 | the count over two lists of patterns is the sum of the counts |
| CoverLetter.CountFoundSnoc | split_resumes.py:311-314 | counting one more pattern adds one exactly when that pattern matches |
| CoverLetter.CountMatches | split_resumes.py:311-314 | the `matches` loop counts the patterns that have a match in the cleaned text |
| CoverLetter.UnmatchablePatterns | split_resumes.py:298-307 | the subject-line pattern `RE\s*:\s*\w+` and the numeric-date pattern never match cleaned text |
| CoverLetter.SubjectLineNeedsColon | split_resumes.py:298 | the subject-line pattern finds nothing in text without punctuation |
| CoverLetter.NumericDateNeedsSeparator | split_resumes.py:307 | the numeric-date pattern finds nothing in text without punctuation |
| CoverLetter.LivePatterns | split_resumes.py:273-308 | the pattern list without the two unmatchable patterns has 23 entries |
| CoverLetter.CoverLetterDecision | split_resumes.py:265-328 | `IsCoverLetter`: a page is a cover letter exactly when at least two of the 23 remaining patterns match its cleaned text or a strong phrase occurs in it; at most 23 patterns ever match |
| CoverLetter.IsCoverLetterPage | split_resumes.py:265-328 | the method cleans the text, counts the matching patterns, answers yes at two or more and otherwise looks for a strong phrase: it computes `IsCoverLetter` |
| Roster.FirstHit | split_resumes.py:36-53 | the first pattern that matched, with every earlier one failing, or none when no pattern matched |
| Roster.LineCandidateFirstPattern | split_resumes.py:29-53 | `LineCandidate` and `Extract`: a line yields a candidate exactly when one of the four shapes matches its stripped text, and then the candidate is the one extracted from the first shape that matches |
| Roster.PageCandidates | split_resumes.py:26-53 | a page yields at most one candidate per line, each read from one of its lines, and none whose id an earlier page gave |
| Roster.PageCandidatesSnoc | split_resumes.py:27-53 | reading one more line admits that line's candidate to the page's list |
| Roster.PageCandidatesComplete | split_resumes.py:27-53 | every line candidate whose id no earlier page gave is in the page's list |
| Roster.PageCandidatesRepeat | split_resumes.py:51 | a page that lists the same new id on two lines contributes it twice, so the roster's ids need not be distinct |
| Roster.PageCandidatesDistinct | split_resumes.py:50-53 | when no two lines of a page name the same id, the page's list has distinct ids |
| Roster.ReadLine | split_resumes.py:28-53 | one line of the loop: the patterns are tried in order, and the match is admitted against the earlier pages' candidates |
| Roster.ReadPage | split_resumes.py:26-53 | the loop over a page's lines computes that page's candidate list |
| Roster.RecentPagesEmpty | split_resumes.py:60-65 | the flag is set exactly when neither of the two pages before holds a `C<digit>` token |
| Roster.RunDigits | split_resumes.py:63 | `\d+` matches at a position exactly when a digit is there |
| Roster.RunIdToken | split_resumes.py:63 | `C\d+` matches at a position exactly when a `C` there is followed by a digit |
| Roster.IdTokenSearch | split_resumes.py:63 | `HasIdToken`: `re.search(r'C\d+', …)` finds a match exactly when the text holds a `C` followed by a digit |
| Roster.ScanRoster | split_resumes.py:15-67 | the page loop, with its skip of empty pages and its early stop, computes the roster |
| Roster.RosterFromFresh | split_resumes.py:50-56 | each page's contribution holds no id an earlier page gave |
| Roster.RosterFreshAcrossPages | split_resumes.py:19-67 | across the whole scan, no page repeats an id an earlier page gave |
| Roster.RosterFromSound | split_resumes.py:21-56 | `RosterFrom`: every collected candidate was read from some line of a non-empty page within the first `min(15, n)` |
| Roster.RosterSound | split_resumes.py:19-67 | `RosterOf`: every roster candidate was read from a table-of-contents line |
| Roster.FlattenDistinct | split_resumes.py:56 | appending page lists that are each distinct and fresh gives distinct ids |
| Roster.RosterFromDistinctBlocks | split_resumes.py:50-56 | when no roster page lists an id on two lines, every page list is distinct |
| Roster.RosterDistinct | split_resumes.py:19-67 | when no roster page lists an id on two lines, the roster's ids are distinct |
| Assignments.PlacedAt | split_resumes.py:90 | an id has a page exactly when some record carries it, and the page is that record's |
| Assignments.PlacedAtAppend | split_resumes.py:104-108 | appending a record places its id only when the id was not already placed |
| Assignments.Missing | split_resumes.py:169-170 | the missing candidates are roster candidates whose ids have no record |
| Assignments.MissingComplete | split_resumes.py:169-170 | every roster candidate whose id has no record is missing (through `MissingMember`) |
| Assignments.MissingMember | split_resumes.py:169-170 | a roster candidate whose id has no record is in the missing list |
| Assignments.MissingDistinct | split_resumes.py:169-170 | the missing list of a distinct roster is distinct |
| Assignments.SortByPage | split_resumes.py:163 | `list.sort` keeps the same records, with their multiplicities |
| Assignments.SortByPageSorted | split_resumes.py:163 | the sorted list is ordered by page |
| Assignments.SortByPageStable | split_resumes.py:163 | the sort is stable: the records on any one page keep their order |
| Assignments.SortByPageSortedInput | split_resumes.py:163 | sorting an ordered list changes nothing |
| Assignments.SortKeepsMembers | split_resumes.py:262 | the sort keeps the length and exactly the records |
| Assignments.SortKeepsQueries | split_resumes.py:262 | the sort changes no answer to "is this id placed", "is this page taken", "are all pages in a range" or "does every record name a roster candidate" |
| Assignments.SortKeepsDistinct | split_resumes.py:262 | the sort keeps ids distinct |
| Assignments.SameRecordsQueries | split_resumes.py:163 | two lists with the same records answer the placement and page queries alike |
| Assignments.PlacedAtMostRoster | split_resumes.py:166 | distinct records that all name roster candidates are at most as many as the roster, and when they are as many, every roster id is placed (so the fallback's guard is false) |
| Locator.LastIdPage | split_resumes.py:72-76 | the last page before the bound that holds an id token, or 0 when none does |
| Locator.StartPage | split_resumes.py:78 | the start page is at least 1 |
| Locator.StartPageAfterToc | split_resumes.py:72-78 | no page from the start page to the end of the scanned window holds an id token, and the page just before it holds one unless it is page 0 |
| Locator.FindStartPage | split_resumes.py:72-78 | the loop computes the start page |
| Locator.NoNewlines | split_resumes.py:98 | replacing newlines by spaces keeps the length and leaves no newline |
| Locator.CleanName | split_resumes.py:94 | the cleaned name is a slice of the name, with `'`, `-` and `.` made spaces and only separators cut from either end; it holds none of those characters and neither starts nor ends with whitespace |
| Locator.PartHits | split_resumes.py:134-137 | at most one hit per name part |
| Locator.MatchMethod | split_resumes.py:102-160 | the method that places a candidate on a page is one of the five, or none |
| Locator.NameOnPageTests | split_resumes.py:102-160 | a candidate is found on a page exactly when one of the five tests succeeds, and method 2 adds nothing to method 3 |
| Locator.EmptyCleanNameMatches | split_resumes.py:94-103 | a name that cleans to the empty string matches every page by method 1 |
| Locator.CountPartHits | split_resumes.py:134-137 | the loop counts the name parts longer than two characters that occur in the 800-character window |
| Locator.TryCandidate | split_resumes.py:93-160 | the five tests in order, first success wins |
| Locator.PlacePage | split_resumes.py:88-160 | the candidate loop on one page appends every unplaced candidate that the page names |
| Locator.LocatePrimary | split_resumes.py:80-160 | the page loop, skipping cover letters, computes the primary pass |
| Locator.PlaceFromShape | split_resumes.py:88-160 | `PlaceFrom`: the candidate loop keeps the records ordered, within range, off cover letters, one per id and from the roster |
| Locator.PrimaryFromShape | split_resumes.py:80-160 | `PrimaryFrom`: the page loop keeps the same invariant |
| Locator.PrimaryWellFormed | split_resumes.py:80-163 | `Primary`: every primary record lies in `[start_page, n)` on a page that is not a cover letter, at most one per id, each naming a roster candidate; the list is already ordered, so the sort at line 163 changes nothing |
| Locator.FirstNamePage | split_resumes.py:80-160 | the first non-cover-letter page in a range on which the candidate is found, or none |
| Locator.FirstIdPage | split_resumes.py:80-160 | the first non-cover-letter page in a range on which some candidate with a given id is found, or none |
| Locator.PlaceFromPlaces | split_resumes.py:88-160 | for any roster: after one page, each id keeps its page, or is placed on this page when the page names some candidate with that id |
| Locator.PrimaryFromPlaces | split_resumes.py:80-160 | for any roster: the page loop keeps "each id is placed on the first page on which some candidate with that id is found" |
| Locator.PrimaryFirstIdPage | split_resumes.py:80-160 | for any roster, repeated ids included: each id is placed on the earliest non-cover-letter page from `start_page` on where some candidate with that id is found, and unplaced when there is none |
| Locator.FirstIdPageDistinct | split_resumes.py:80-160 | with distinct ids, the first page for a candidate's id is the first page that names that candidate |
| Locator.PrimaryFirstPage | split_resumes.py:80-160 | with a distinct roster (the general case is `PrimaryFirstIdPage`), each candidate is placed on the earliest non-cover-letter page from `start_page` on where a name test succeeds, and unplaced when there is none |
| Fallback.IdPage | split_resumes.py:176-189 | the first free page from the start page whose upper-cased text holds the id, or none |
| Fallback.PlaceById | split_resumes.py:176-189 | the inner page loop of tier 1 appends a record for that page, if there is one |
| Fallback.FallbackById | split_resumes.py:174-189 | tier 1 over the missing candidates, each seeing the records added before it |
| Fallback.CountPresent | split_resumes.py:215 | the indicator count is at most the number of indicators |
| Fallback.NameMatches | split_resumes.py:218-219 | the name-part count is at most the number of parts |
| Fallback.Score | split_resumes.py:212-221 | the score is bounded by the 12 indicators plus twice the raw name's parts |
| Fallback.BestFromBest | split_resumes.py:203-226 | `BestFrom`: for any score, the scan keeps "the best so far is the earliest free page with the highest score, when that score is at least 3" |
| Fallback.BestPageIsBest | split_resumes.py:203-226 | `BestPage`: tier 2 picks a page exactly when some free page scores at least 3; the pick is free, scores at least 3 and is the highest, and every earlier free page scores less |
| Fallback.BestPageFor | split_resumes.py:203-226 | the tier 2 page loop computes the best page |
| Fallback.FallbackByScore | split_resumes.py:202-233 | tier 2 over the still-missing candidates |
| Fallback.FreePages | split_resumes.py:240-247 | the unassigned pages lie in `[start_page, n)`, are not taken and are increasing |
| Fallback.FreePagesComplete | split_resumes.py:244-247 | every untaken page of the range is unassigned |
| Fallback.UnassignedPages | split_resumes.py:240-247 | the loop computes the unassigned pages |
| Fallback.FallbackSpread | split_resumes.py:236-259 | tier 3 as the loop performs it |
| Fallback.RunFallback | split_resumes.py:165-259 | the three tiers (`AllTiers`), run only when fewer records than candidates exist |
| Fallback.FreshAppendTrans | split_resumes.py:165-259 | "appends only fresh records on free pages" composes across tiers |
| Fallback.PlaceEachAdds | split_resumes.py:174-233 | `PlaceEach`: tiers 1 and 2 keep the earlier records and append only records of missing candidates, on the page the tier picked given the records before |
| Fallback.PlaceEachIds | split_resumes.py:174-233 | tiers 1 and 2 keep ids distinct and every record naming a roster candidate |
| Fallback.PlaceEachExtends | split_resumes.py:174-233 | tiers 1 and 2 only append to the records |
| Fallback.PlaceEachSettles | split_resumes.py:174-233 | a property that each step makes true of its candidate and that later appends keep holds, after the tier, of every candidate it handled |
| Fallback.AppendFresh | split_resumes.py:183-187 | appending a roster candidate whose id is unplaced keeps ids distinct and records from the roster |
| Fallback.Tier1Adds | split_resumes.py:174-189 | tier 1 appends records only on pages free at that moment within `[start_page, n)`, each on the first such page holding the id; `Tier1Complete` states the converse |
| Fallback.Tier1Step | split_resumes.py:180-189 | one tier 1 step places its candidate, or no free page from `start_page` on holds its id |
| Fallback.Tier1Complete | split_resumes.py:174-189 | after tier 1, every missing candidate is placed, or every page from `start_page` on that holds its id is taken |
| Fallback.Tier2Adds | split_resumes.py:191-233 | tier 2 appends records only on pages free at that moment, each scoring at least 3, the highest among free pages, and strictly above every earlier free page; `Tier2Complete` states the converse |
| Fallback.Tier2Record | split_resumes.py:202-233 | one tier 2 record: its page is the best page for its name given the records before it, free, scoring at least 3, the highest, and above every earlier free page |
| Fallback.Tier2Step | split_resumes.py:224-230 | one tier 2 step places its candidate, or no free page from `start_page` on scores 3 or more for its name |
| Fallback.Tier2Complete | split_resumes.py:191-233 | after tier 2, every still-missing candidate is placed, or no free page from `start_page` on scores 3 or more for its name |
| Fallback.Tier3Adds | split_resumes.py:235-259 | `Tier3`: tier 3 appends exactly `min(missing, unassigned)` fresh records, the i-th pairing the i-th missing candidate with the i-th unassigned page; when pages run out, every page from `start_page` on is taken |
| Fallback.Tier3Fresh | split_resumes.py:251-258 | each record tier 3 appends is on a page of the range that no record before it holds |
| Fallback.Tier3Pairs | split_resumes.py:251-258 | tier 3 appends `min(missing, unassigned)` records, the i-th giving the i-th missing candidate the i-th unassigned page |
| Fallback.Tier3Full | split_resumes.py:251-258 | with no more unassigned pages than missing candidates, tier 3 leaves no page of the range free |
| Fallback.Tier3Ids | split_resumes.py:235-259 | tier 3 keeps ids distinct and every record naming a roster candidate |
| Fallback.FallbackFresh | split_resumes.py:165-259 | the fallback keeps the earlier records and appends records only on pages of `[start_page, n)` that were free when added |
| Fallback.FallbackIds | split_resumes.py:165-259 | with a distinct roster, the fallback keeps ids distinct and every record naming a roster candidate |
| Fallback.FallbackComplete | split_resumes.py:166-259 | when it runs, `AllTiers` places every roster candidate or leaves no page from `start_page` on free |
| Fallback.FallbackKeeps | split_resumes.py:165-259 | no earlier record is lost, no added record takes a page already used, and pages stay in `[start_page, n)` |
| Finder.FindResumePagesFlexible | split_resumes.py:10-263 | the method computes the whole pass: roster, start page, primary pass, sort, fallback, sort |
| Finder.LocateShape | split_resumes.py:80-263 | `Locate`, for any classifier and name test: the result is ordered by page and within `[start_page, n)`; every primary record is kept; and every record the fallback added is on a page the primary pass did not use |
| Finder.LocateIds | split_resumes.py:162-262 | with a distinct roster: at most one record per id, each naming a roster candidate, no more records than candidates |
| Finder.LocateComplete | split_resumes.py:162-262 | for any roster, repeated ids included: every candidate is placed or every page from `start_page` on is taken |
| Finder.ResumePagesShape | split_resumes.py:10-263 | `ResumePages`: the document's records are ordered by page, lie after the table of contents, and include every primary record |
| Finder.ResumePagesIds | split_resumes.py:10-263 | when no roster page lists an id twice: distinct ids from the roster, no more records than candidates, and all placed or all pages after the roster taken |
| Finder.ResumePagesComplete | split_resumes.py:10-263 | for every document: every roster candidate is placed or every page after the roster is taken |
| Splitter.KeptPages | split_resumes.py:363-376 | the kept pages lie in the range, are not cover letters and are in increasing order |
| Splitter.KeptPlusRemoved | split_resumes.py:359-376 | kept pages plus removed cover letters equal the range's length |
| Splitter.KeptAll | split_resumes.py:363-376 | every page of the range that is not a cover letter is kept |
| Splitter.KeptOne | split_resumes.py:363-376 | a page of the range that is not a cover letter is among the kept pages |
| Splitter.KeptNonEmpty | split_resumes.py:379 | some page is kept exactly when the range holds a page that is not a cover letter |
| Splitter.KeptExactly | split_resumes.py:363-376 | a page is kept exactly when it lies in the range and is not a cover letter |
| Splitter.Pad2 | split_resumes.py:382 | `{:02d}`: at least two digits, with a leading zero only to reach two; with `Pad2Parses` this fixes the string |
| Splitter.Digits | split_resumes.py:382 | the decimal digits of a number, at least one, with no leading zero unless the number is 0 |
| Splitter.ParseDigits | split_resumes.py:382 | the decimal digits of a number read back as that number |
| Splitter.Pad2Parses | split_resumes.py:382 | the zero-padded number reads back as the number |
| Splitter.SafeName | split_resumes.py:381 | the safe name is no longer than the name and holds no space and no character other than word and whitespace characters |
| Splitter.FileNameNumber | split_resumes.py:382 | `FileName`: the file name starts with the record's position counted from one |
| Splitter.FileNamesDistinct | split_resumes.py:349-382 | two records in different positions get different file names |
| Splitter.EntryWritten | split_resumes.py:352-391 | a file is written for a record exactly when its range holds a page that is not a cover letter |
| Splitter.EntryKept | split_resumes.py:352-376 | `Entry`: a written file holds exactly the pages of its range that are not cover letters |
| Splitter.EntryCounts | split_resumes.py:359-391 | a skipped record removed every page of its range; a written file's pages plus the removed ones equal the range's length |
| Splitter.EntryName | split_resumes.py:379-382 | a written file's name starts with the record's position counted from one |
| Splitter.RangesPartition | split_resumes.py:352-356 | for ordered records, each range ends at or before every later record's page, and every page from the first record's on lies in some record's range |
| Splitter.RangeOwner | split_resumes.py:352-356 | a page from the first record's page on is in the range of some record at or before it |
| Splitter.Entries | split_resumes.py:349 | one output per record |
| Splitter.EntriesMeaning | split_resumes.py:349-391 | for any classifier, each written file holds exactly its range's non-cover-letter pages, and no two written files share a name |
| Splitter.EntriesPartition | split_resumes.py:349-391 | for records ordered by page: the ranges cover every page from the first record's on, and no two written files share a name |
| Splitter.SplitMeaning | split_resumes.py:333-391 | `Split`, for a document: one output per record found, the ranges cover every page from the first record's on, and no two written files share a name |
| Splitter.KeepPages | split_resumes.py:359-376 | the page loop adds the non-cover-letter pages in order and counts the cover letters |
| Splitter.SplitEntry | split_resumes.py:349-391 | one record's range, filter and file name |
| Splitter.SplitAll | split_resumes.py:349-391 | the loop over the records |
| Splitter.SplitResumes | split_resumes.py:330-391 | `split_resumes` without I/O: nothing when no record was found, else one output per record |

## Left out

- Opening the PDF with pdfplumber and PyPDF2, `extract_text`, `add_page`,
  `writer.write`, `mkdir` and the `__main__` block are foreign library or
  file I/O. Page texts are an input sequence, and the splitter returns
  values instead of writing files.
- The two PDF libraries are taken to agree on the page count. The
  per-page re-opening of the PDF at line 365 reads the same text that the
  locator saw.
- All `print` diagnostics are console output only.
- `\w`, `\d` and `.upper()` are modelled on ASCII, and `\s` on Python's
  whitespace set. Unicode letters, digits and case mappings beyond ASCII are
  not modelled.
- `list.sort(key=…)` is modelled as a stable insertion sort on values. The
  in-place update of the Python list is not modelled.
- Regex: only the constructs the source's patterns use (classes, `+`, `*`,
  `*?`, `?`, alternation, groups, `^`, `$`) are modelled. Backtracking is
  exhaustive, with no limits.
- Splitter.SplitMeaning: does not restate which pages each file holds in
  terms of `IsCoverLetter`. `Splitter.EntriesMeaning` states it for every
  classifier, `IsCoverLetter` among them.
- Finder.ResumePagesIds: distinct ids are proved only for documents where no
  roster page lists the same id on two lines. The source does not exclude
  that case, and `Roster.PageCandidatesRepeat` shows it yields a repeated id.
  Completeness does not depend on it: `Finder.ResumePagesComplete` states it
  for every document.
- Splitter.SafeName: states which characters remain; that the name's word
  and whitespace characters survive in order, before the spaces become
  underscores, is `Text.DropPunctFilter`.

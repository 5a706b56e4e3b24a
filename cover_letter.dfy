/** `ResumeSplitter.is_cover_letter_page`: normalise the page text, count the
    cover-letter patterns that occur in it, and look for strong phrases. */
module CoverLetter {
  import opened Text
  import opened Regex

  /** The text the patterns are tried on: upper-cased, each whitespace run
      collapsed to one space, then every `[^\w\s]` character made a space. */
  function CleanText(text: string): (c: string)
    ensures |c| == 0 <==> |text| == 0
    ensures forall i :: 0 <= i < |c| ==> IsWordChar(c[i]) || c[i] == ' '
    ensures forall i :: 0 <= i < |c| ==> !('a' <= c[i] <= 'z')
    ensures Filter(IsWordChar, c) == Filter(IsWordChar, Upper(text))
  {
    var u := Upper(text);
    var w := CollapseSpace(u);
    var r := PunctToSpace(w);
    assert forall i :: 0 <= i < |w| ==> !('a' <= w[i] <= 'z') by {
      CollapseKeepsCharsOf(u);
    }
    assert Filter(IsWordChar, r) == Filter(IsWordChar, u) by {
      PunctToSpaceKeeps(w);
      CollapseSpaceKeeps(IsWordChar, u);
    }
    r
  }

  /** Every character `CollapseSpace` keeps comes from its input, or is a
      space. */
  lemma {:induction false} CollapseKeepsCharsOf(s: string)
    requires forall i :: 0 <= i < |s| ==> !('a' <= s[i] <= 'z')
    ensures forall i :: 0 <= i < |CollapseSpace(s)| ==> !('a' <= CollapseSpace(s)[i] <= 'z')
    decreases |s|
  {
    if s != [] {
      if IsSpace(s[0]) {
        var t := StripLeft(s);
        CollapseKeepsCharsOf(t);
      } else {
        CollapseKeepsCharsOf(s[1..]);
      }
    }
  }

  const Dg: Re := Char(Digit)                // `\d`

  /** Salutations. */
  const Salutations: seq<Re> := [
    Seq([Lit("DEAR"), Ws1, Group(1, AnyOf([Lit("HIRING"), Lit("SIR"), Lit("MADAM"), Lit("MR"), Lit("MS"), Lit("MRS")]))]),
    Phrase(["TO", "WHOM", "IT", "MAY", "CONCERN"]),
    Seq([Lit("DEAR"), Ws1, Plus(Char(Word)), Ws1, Lit("TEAM")]),
    Seq([Lit("DEAR"), Ws1, Plus(Char(Word)), Ws1, Lit("MANAGER")]),
    Phrase(["HELLO", "HIRING"])
  ]

  /** Cover-letter phrases. */
  const LetterPhrases: seq<Re> := [
    Seq([Phrase(["I", "AM"]), Ws1, Group(1, AnyOf([Lit("WRITING"), Lit("PLEASED"), Lit("EXCITED"), Lit("INTERESTED")]))]),
    Seq([Phrase(["THANK", "YOU", "FOR"]), Ws1, Group(1, AnyOf([Lit("CONSIDERING"), Phrase(["YOUR", "TIME"])]))]),
    Phrase(["I", "WOULD", "LIKE", "TO", "APPLY"]),
    Phrase(["I", "AM", "APPLYING", "FOR"]),
    Seq([Phrase(["PLEASE", "FIND"]), Ws1, Group(1, AnyOf([Lit("MY"), Lit("ATTACHED")]))]),
    Phrase(["I", "LOOK", "FORWARD", "TO"]),
    Phrase(["COVER", "LETTER"])
  ]

  /** Closings. */
  const Closings: seq<Re> := [
    Seq([Lit("SINCERELY"), Ws1, Lit("YOUR"), Opt(Lit("S"))]),
    Phrase(["BEST", "REGARDS"]),
    Seq([Lit("YOURS"), Ws1, Group(1, AnyOf([Lit("TRULY"), Lit("FAITHFULLY")]))]),
    Phrase(["KIND", "REGARDS"]),
    Lit("RESPECTFULLY")
  ]

  /** Letter-specific content after the subject line. */
  const LetterContent: seq<Re> := [
    Seq([Lit("POSITION"), Ws1, Opt(Group(1, Seq([Lit("I"), Ws1, Lit("AM"), Ws1]))), Lit("APPLYING")]),
    Seq([Phrase(["MY", "RESUME"]), Ws1, Opt(Group(1, Seq([Lit("IS"), Ws1]))), Lit("ATTACHED")]),
    Phrase(["PLEASE", "CONSIDER", "MY"]),
    Seq([Phrase(["I", "BELIEVE"]), Ws1, Group(1, AnyOf([Phrase(["I", "AM"]), Lit("MY")]))]),
    Phrase(["MY", "QUALIFICATIONS", "INCLUDE"])
  ]

  /** `^\s*(JANUARY|FEBRUARY|...|DECEMBER)` */
  const MonthDate: Re :=
    Seq([Start, Ws0, Group(1, AnyOf([Lit("JANUARY"), Lit("FEBRUARY"), Lit("MARCH"), Lit("APRIL"),
      Lit("MAY"), Lit("JUNE"), Lit("JULY"), Lit("AUGUST"), Lit("SEPTEMBER"), Lit("OCTOBER"),
      Lit("NOVEMBER"), Lit("DECEMBER")]))])

  const EarlyPatterns: seq<Re> := Salutations + LetterPhrases + Closings
  const LatePatterns: seq<Re> := LetterContent + [MonthDate]

  /** The 25 patterns of the classifier, in the order they are listed. */
  const Patterns: seq<Re> := EarlyPatterns + [SubjectLine] + LatePatterns + [NumericDate]

  /** `RE\s*:\s*\w+` */
  const SubjectLine: Re := Seq([Lit("RE"), Ws0, Char(Exactly(':')), Ws0, Plus(Char(Word))])

  /** `^\s*\d{1,2}[\/\-]\d{1,2}[\/\-]\d{2,4}` */
  const NumericDate: Re :=
    Seq([Start, Ws0, Dg, Opt(Dg), Char(OneOf("/-")), Dg, Opt(Dg), Char(OneOf("/-")),
         Dg, Dg, Opt(Seq([Dg, Opt(Dg)]))])

  /** The phrases that decide on their own. */
  const StrongIndicators: seq<string> :=
    ["TO WHOM IT MAY CONCERN", "DEAR HIRING MANAGER", "DEAR HIRING TEAM", "COVER LETTER"]

  /** How many of `pats` have a match in `s`. */
  function CountFound(pats: seq<Re>, s: string): (n: nat)
    ensures n <= |pats|
  {
    if pats == [] then 0
    else (if Found(pats[0], s) then 1 else 0) + CountFound(pats[1..], s)
  }

  predicate HasStrongIndicator(s: string)
  {
    exists k :: 0 <= k < |StrongIndicators| && Contains(s, StrongIndicators[k])
  }

  predicate IsCoverLetter(text: string)
  {
    var c := CleanText(text);
    CountFound(Patterns, c) >= 2 || HasStrongIndicator(c)
  }

  /** Counting one more pattern adds one exactly when it matches. */
  lemma CountFoundSnoc(pats: seq<Re>, k: nat, s: string)
    requires k < |pats|
    ensures CountFound(pats[..k + 1], s) == CountFound(pats[..k], s) + if Found(pats[k], s) then 1 else 0
  {
    assert pats[..k + 1] == pats[..k] + [pats[k]];
    CountFoundAppend(pats[..k], [pats[k]], s);
  }

  /** The loop `for pattern in cover_letter_patterns: if re.search(...):
      matches += 1`, over any list of patterns. */
  method CountMatches(pats: seq<Re>, c: string) returns (matches: nat)
    ensures matches == CountFound(pats, c)
  {
    matches := 0;
    var k := 0;
    while k < |pats|
      invariant k <= |pats|
      invariant matches == CountFound(pats[..k], c)
    {
      CountFoundSnoc(pats, k, c);
      if Found(pats[k], c) {
        matches := matches + 1;
      }
      k := k + 1;
    }
    assert pats[..k] == pats;
  }

  /** `is_cover_letter_page`: two or more matching patterns decide, and
      otherwise a strong phrase does. */
  method IsCoverLetterPage(pageText: string) returns (b: bool)
    ensures b == IsCoverLetter(pageText)
  {
    var c := CleanText(pageText);
    var matches := CountMatches(Patterns, c);
    if matches >= 2 {
      return true;
    }
    b := HasStrongIndicator(c);
  }

  lemma {:induction false} CountFoundAppend(a: seq<Re>, b: seq<Re>, s: string)
    ensures CountFound(a + b, s) == CountFound(a, s) + CountFound(b, s)
  {
    if a == [] {
      assert a + b == b;
    } else {
      assert (a + b)[1..] == a[1..] + b;
      CountFoundAppend(a[1..], b, s);
    }
  }

  /** Cleaning removes every `:`, `/` and `-`, so the subject-line pattern and
      the numeric-date pattern can never match. */
  lemma UnmatchablePatterns(text: string)
    ensures !Found(SubjectLine, CleanText(text))
    ensures !Found(NumericDate, CleanText(text))
  {
    var c := CleanText(text);
    assert NoPunct(c);
    SubjectLineNeedsColon(c);
    NumericDateNeedsSeparator(c);
  }

  /** `RE\s*:\s*\w+` needs a `:`. */
  lemma SubjectLineNeedsColon(c: string)
    requires NoPunct(c)
    ensures !Found(SubjectLine, c)
  {
    SeqNeedsPunct([Lit("RE"), Ws0, Char(Exactly(':')), Ws0, Plus(Char(Word))], 2);
    NotFoundWithoutPunct(SubjectLine, c);
  }

  /** The numeric date needs a `/` or a `-`. */
  lemma NumericDateNeedsSeparator(c: string)
    requires NoPunct(c)
    ensures !Found(NumericDate, c)
  {
    assert ClassIsPunct(OneOf("/-"));
    SeqNeedsPunct([Start, Ws0, Dg, Opt(Dg), Char(OneOf("/-")), Dg, Opt(Dg), Char(OneOf("/-")),
         Dg, Dg, Opt(Seq([Dg, Opt(Dg)]))], 4);
    NotFoundWithoutPunct(NumericDate, c);
  }

  /** The 23 patterns that can match a cleaned text. */
  function LivePatterns(): (live: seq<Re>)
    ensures |live| == 23
  {
    EarlyPatterns + LatePatterns
  }

  /** Patterns that never match do not change the count. */
  lemma CountSkipping(a: seq<Re>, x: Re, b: seq<Re>, y: Re, s: string)
    requires !Found(x, s) && !Found(y, s)
    ensures CountFound(a + [x] + b + [y], s) == CountFound(a + b, s)
  {
    CountFoundAppend(a + [x] + b, [y], s);
    CountFoundAppend(a + [x], b, s);
    CountFoundAppend(a, [x], s);
    CountFoundAppend(a, b, s);
  }

  /** The classification only depends on the 23 live patterns and the strong
      phrases: a page is a cover letter exactly when two of those patterns
      match its cleaned text or one of the phrases occurs in it. */
  lemma CoverLetterDecision(text: string)
    ensures IsCoverLetter(text) <==>
      CountFound(LivePatterns(), CleanText(text)) >= 2 || HasStrongIndicator(CleanText(text))
    ensures CountFound(Patterns, CleanText(text)) <= 23
  {
    UnmatchablePatterns(text);
    CountSkipping(EarlyPatterns, SubjectLine, LatePatterns, NumericDate, CleanText(text));
  }
}

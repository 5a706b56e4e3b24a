/** A backtracking matcher for the fragment of Python's `re` syntax that the
    resume splitter's patterns use. `Run` lists every way a pattern can match
    at a position in the order Python's backtracking tries them, so the first
    entry is the match `re` reports; `Search` is `re.search`. */
module Regex {
  import opened Text

  datatype CharClass =
    | Exactly(c: char)       // a literal character
    | OneOf(chars: string)   // `[...]`
    | Digit                  // `\d`
    | Space                  // `\s`
    | Word                   // `\w`
    | Dot                    // `.`: anything but a newline

  predicate Holds(cl: CharClass, c: char)
  {
    match cl
    case Exactly(d) => c == d
    case OneOf(cs) => c in cs
    case Digit => IsDigit(c)
    case Space => IsSpace(c)
    case Word => IsWordChar(c)
    case Dot => c != '\n'
  }

  datatype Re =
    | Char(cl: CharClass)
    | Cat(first: Re, second: Re)
    | Alt(left: Re, right: Re)       // `a|b`, left tried first
    | Opt(body: Re)                  // `a?`, greedy
    | Star(body: Re, greedy: bool)   // `a*` when greedy, `a*?` otherwise
    | Group(index: nat, body: Re)    // a numbered capturing group
    | Start                          // `^`
    | End                            // `$`
    | Empty

  type Captures = map<nat, string>

  /** One way to match: where it ends and what the groups captured. */
  datatype Step = Step(end: nat, groups: Captures)

  predicate EndsWithin(steps: seq<Step>, i: nat, n: nat)
  {
    forall k :: 0 <= k < |steps| ==> i <= steps[k].end <= n
  }

  /** All matches of `r` in `s` that begin at `i`, in backtracking order. */
  function Run(r: Re, s: string, i: nat, caps: Captures): (out: seq<Step>)
    requires i <= |s|
    ensures EndsWithin(out, i, |s|)
    decreases |s| - i, r, 0
  {
    match r
    case Char(cl) => if i < |s| && Holds(cl, s[i]) then [Step(i + 1, caps)] else []
    case Cat(a, b) => RunAll(b, s, i, Run(a, s, i, caps))
    case Alt(a, b) => Run(a, s, i, caps) + Run(b, s, i, caps)
    case Opt(a) => Run(a, s, i, caps) + [Step(i, caps)]
    case Star(a, greedy) =>
      var more := StarAll(a, greedy, s, i, Run(a, s, i, caps));
      if greedy then more + [Step(i, caps)] else [Step(i, caps)] + more
    case Group(k, a) => Tag(k, s, i, Run(a, s, i, caps))
    case Start => if i == 0 then [Step(i, caps)] else []
    case End => if i == |s| || (i + 1 == |s| && s[i] == '\n') then [Step(i, caps)] else []
    case Empty => [Step(i, caps)]
  }

  /** Continues each step of `steps`, in order, with `b`. */
  function RunAll(b: Re, s: string, i: nat, steps: seq<Step>): (out: seq<Step>)
    requires EndsWithin(steps, i, |s|)
    ensures EndsWithin(out, i, |s|)
    decreases |s| - i, b, |steps|
  {
    if steps == [] then []
    else Run(b, s, steps[0].end, steps[0].groups) + RunAll(b, s, i, steps[1..])
  }

  /** Continues each step of `steps` that consumed input with another round
      of `Star(a, greedy)`; a round that matched nothing ends the loop. */
  function StarAll(a: Re, greedy: bool, s: string, i: nat, steps: seq<Step>): (out: seq<Step>)
    requires EndsWithin(steps, i, |s|)
    ensures EndsWithin(out, i, |s|)
    decreases |s| - i, a, |steps|
  {
    if steps == [] then []
    else
      var here := if steps[0].end > i then Run(Star(a, greedy), s, steps[0].end, steps[0].groups) else [];
      here + StarAll(a, greedy, s, i, steps[1..])
  }

  /** Records the text from `i` to each step's end as group `k`. */
  function Tag(k: nat, s: string, i: nat, steps: seq<Step>): (out: seq<Step>)
    requires EndsWithin(steps, i, |s|)
    ensures |out| == |steps| && EndsWithin(out, i, |s|)
  {
    seq(|steps|, j requires 0 <= j < |steps| =>
      Step(steps[j].end, steps[j].groups[k := s[i..steps[j].end]]))
  }

  /** The match `re.search` returns: the leftmost start with a match, and the
      first match in backtracking order there. */
  datatype Match = Match(start: nat, end: nat, groups: Captures)

  function SearchFrom(r: Re, s: string, p: nat): (m: Option<Match>)
    requires p <= |s|
    ensures m.Some? ==> p <= m.value.start <= m.value.end <= |s|
    ensures m.Some? ==> var steps := Run(r, s, m.value.start, map[]);
      steps != [] && m.value.end == steps[0].end && m.value.groups == steps[0].groups
    ensures m.Some? ==> forall q :: p <= q < m.value.start ==> Run(r, s, q, map[]) == []
    ensures m.None? <==> forall q :: p <= q <= |s| ==> Run(r, s, q, map[]) == []
    decreases |s| - p
  {
    var steps := Run(r, s, p, map[]);
    if |steps| > 0 then Some(Match(p, steps[0].end, steps[0].groups))
    else if p == |s| then None
    else SearchFrom(r, s, p + 1)
  }

  function Search(r: Re, s: string): Option<Match>
  {
    SearchFrom(r, s, 0)
  }

  predicate Found(r: Re, s: string)
  {
    Search(r, s).Some?
  }

  /** `m.group(k)`; a group that took no part in the match reads as "". */
  function GroupText(m: Match, k: nat): string
  {
    if k in m.groups then m.groups[k] else ""
  }

  datatype Option<T> = None | Some(value: T)

  // Shorthands for writing patterns.

  /** A literal string. */
  function Lit(w: string): Re
  {
    if w == [] then Empty else Cat(Char(Exactly(w[0])), Lit(w[1..]))
  }

  /** `x+` */
  function Plus(x: Re): Re
  {
    Cat(x, Star(x, true))
  }

  /** `x+?` */
  function LazyPlus(x: Re): Re
  {
    Cat(x, Star(x, false))
  }

  /** `r1 r2 ... rn` in sequence. */
  function Seq(rs: seq<Re>): Re
  {
    if rs == [] then Empty else Cat(rs[0], Seq(rs[1..]))
  }

  /** `r1|r2|...|rn` (for a non-empty list). */
  function AnyOf(rs: seq<Re>): Re
  {
    if rs == [] then Empty
    else if |rs| == 1 then rs[0]
    else Alt(rs[0], AnyOf(rs[1..]))
  }

  const Ws1: Re := Plus(Char(Space))         // `\s+`
  const Ws0: Re := Star(Char(Space), true)   // `\s*`

  /** Words separated by `\s+`. */
  function Phrase(words: seq<string>): Re
  {
    if words == [] then Empty
    else if |words| == 1 then Lit(words[0])
    else Seq([Lit(words[0]), Plus(Char(Space)), Phrase(words[1..])])
  }

  /** The number of capturing groups, `len(match.groups())`. */
  function GroupCount(r: Re): nat
  {
    match r
    case Cat(a, b) => GroupCount(a) + GroupCount(b)
    case Alt(a, b) => GroupCount(a) + GroupCount(b)
    case Opt(a) => GroupCount(a)
    case Star(a, _) => GroupCount(a)
    case Group(_, a) => 1 + GroupCount(a)
    case _ => 0
  }

  // A pattern that cannot match without a character of `[^\w\s]`.

  predicate ClassIsPunct(cl: CharClass)
  {
    match cl
    case Exactly(c) => IsPunct(c)
    case OneOf(cs) => forall j :: 0 <= j < |cs| ==> IsPunct(cs[j])
    case _ => false
  }

  predicate NeedsPunct(r: Re)
  {
    match r
    case Char(cl) => ClassIsPunct(cl)
    case Cat(a, b) => NeedsPunct(a) || NeedsPunct(b)
    case Alt(a, b) => NeedsPunct(a) && NeedsPunct(b)
    case Group(_, a) => NeedsPunct(a)
    case _ => false
  }

  /** A sequence needs punctuation when one of its parts does. */
  lemma {:induction false} SeqNeedsPunct(rs: seq<Re>, k: nat)
    requires k < |rs| && NeedsPunct(rs[k])
    ensures NeedsPunct(Seq(rs))
  {
    if k > 0 {
      SeqNeedsPunct(rs[1..], k - 1);
    }
  }

  /** A pattern that needs a punctuation character has no match at any
      position of a text that has none. */
  lemma {:induction false} RunWithoutPunct(r: Re, s: string, i: nat, caps: Captures)
    requires i <= |s| && NeedsPunct(r) && NoPunct(s)
    ensures Run(r, s, i, caps) == []
    decreases r, 0
  {
    match r
    case Char(cl) =>
    case Cat(a, b) =>
      if NeedsPunct(a) {
        RunWithoutPunct(a, s, i, caps);
      } else {
        RunAllWithoutPunct(b, s, i, Run(a, s, i, caps));
      }
    case Alt(a, b) =>
      RunWithoutPunct(a, s, i, caps);
      RunWithoutPunct(b, s, i, caps);
    case Group(k, a) =>
      RunWithoutPunct(a, s, i, caps);
  }

  lemma {:induction false} RunAllWithoutPunct(b: Re, s: string, i: nat, steps: seq<Step>)
    requires EndsWithin(steps, i, |s|) && NeedsPunct(b) && NoPunct(s)
    ensures RunAll(b, s, i, steps) == []
    decreases b, |steps|
  {
    if steps != [] {
      RunWithoutPunct(b, s, steps[0].end, steps[0].groups);
      RunAllWithoutPunct(b, s, i, steps[1..]);
    }
  }

  lemma {:induction false} SearchWithoutPunct(r: Re, s: string, p: nat)
    requires p <= |s| && NeedsPunct(r) && NoPunct(s)
    ensures SearchFrom(r, s, p) == None
    decreases |s| - p
  {
    RunWithoutPunct(r, s, p, map[]);
    if p < |s| {
      SearchWithoutPunct(r, s, p + 1);
    }
  }

  /** `re.search` finds nothing for such a pattern in such a text. */
  lemma NotFoundWithoutPunct(r: Re, s: string)
    requires NeedsPunct(r) && NoPunct(s)
    ensures !Found(r, s)
  {
    SearchWithoutPunct(r, s, 0);
  }
}

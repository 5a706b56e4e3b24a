/** Character classes and the string operations of Python's `str` and `re`
    that the resume splitter uses, over `string` (a sequence of Unicode
    scalar values). */
module Text {

  /** Python's `str.isspace()`; the same set is matched by `\s`, and used by
      `strip()` and `split()`. */
  predicate IsSpace(c: char)
  {
    c == ' ' || ('\t' <= c <= '\r') || ('\U{1C}' <= c <= '\U{1F}')
    || c == '\U{85}' || c == '\U{A0}' || c == '\U{1680}'
    || ('\U{2000}' <= c <= '\U{200A}') || c == '\U{2028}' || c == '\U{2029}'
    || c == '\U{202F}' || c == '\U{205F}' || c == '\U{3000}'
  }

  /** `\d`, restricted to ASCII digits. */
  predicate IsDigit(c: char)
  {
    '0' <= c <= '9'
  }

  /** `\w`, restricted to ASCII letters, digits and the underscore. */
  predicate IsWordChar(c: char)
  {
    ('a' <= c <= 'z') || ('A' <= c <= 'Z') || IsDigit(c) || c == '_'
  }

  /** The characters of the class `[^\w\s]`. */
  predicate IsPunct(c: char)
  {
    !IsWordChar(c) && !IsSpace(c)
  }

  predicate NoPunct(s: string)
  {
    forall i :: 0 <= i < |s| ==> !IsPunct(s[i])
  }

  predicate AllSpace(s: string)
  {
    forall i :: 0 <= i < |s| ==> IsSpace(s[i])
  }

  predicate NoSpace(s: string)
  {
    forall i :: 0 <= i < |s| ==> !IsSpace(s[i])
  }

  /** `str.upper()` on ASCII letters; every other character is kept. */
  function UpperChar(c: char): char
  {
    if 'a' <= c <= 'z' then (c as int - 'a' as int + 'A' as int) as char else c
  }

  function Upper(s: string): (r: string)
  {
    seq(|s|, i requires 0 <= i < |s| => UpperChar(s[i]))
  }

  /** Python's slice `s[:k]`. */
  function Prefix(s: string, k: nat): (r: string)
    ensures |r| == if |s| <= k then |s| else k
    ensures r <= s
  {
    if |s| <= k then s else s[..k]
  }

  /** Python's `w in s` on strings: `w` occurs as a contiguous substring. */
  predicate Contains(s: string, w: string)
    decreases |s|
  {
    w <= s || (|s| > 0 && Contains(s[1..], w))
  }

  /** `w` occurs in `s` at position `i`. */
  predicate OccursAt(s: string, w: string, i: int)
  {
    0 <= i <= |s| - |w| && s[i..i + |w|] == w
  }

  /** `Contains` agrees with the positional reading of a substring. */
  lemma {:induction false} ContainsAt(s: string, w: string)
    ensures Contains(s, w) <==> exists i :: OccursAt(s, w, i)
    decreases |s|
  {
    if w <= s {
      assert OccursAt(s, w, 0);
    } else if |s| > 0 {
      ContainsAt(s[1..], w);
      if Contains(s[1..], w) {
        var i :| OccursAt(s[1..], w, i);
        assert s[i + 1..i + 1 + |w|] == s[1..][i..i + |w|];
        assert OccursAt(s, w, i + 1);
      }
      if exists i :: OccursAt(s, w, i) {
        var i :| OccursAt(s, w, i);
        if i > 0 {
          assert s[1..][i - 1..i - 1 + |w|] == s[i..i + |w|];
          assert OccursAt(s[1..], w, i - 1);
        }
      }
    }
  }

  /** A substring of a prefix of `s` is also a substring of every longer prefix. */
  lemma ContainsInLongerPrefix(s: string, w: string, k: nat, k': nat)
    requires k <= k'
    requires Contains(Prefix(s, k), w)
    ensures Contains(Prefix(s, k'), w)
  {
    ContainsAt(Prefix(s, k), w);
    ContainsAt(Prefix(s, k'), w);
    var i :| OccursAt(Prefix(s, k), w, i);
    assert Prefix(s, k')[i..i + |w|] == s[i..i + |w|];
    assert OccursAt(Prefix(s, k'), w, i);
  }

  /** `re.search(r'C\d+', s)` succeeds: a `C` immediately followed by a digit. */
  predicate HasIdToken(s: string)
  {
    exists i :: 0 <= i < |s| - 1 && s[i] == 'C' && IsDigit(s[i + 1])
  }

  /** Every character of `chars` in `s` is replaced by `sub` (`re.sub` with a
      one-character class, or `str.replace` of one character). */
  function ReplaceAny(s: string, chars: string, sub: char): (r: string)
  {
    seq(|s|, i requires 0 <= i < |s| => if s[i] in chars then sub else s[i])
  }

  function StripLeft(s: string): (r: string)
    ensures |r| <= |s| && r == s[|s| - |r|..]
    ensures AllSpace(s[..|s| - |r|])
    ensures r == [] || !IsSpace(r[0])
    decreases |s|
  {
    if |s| > 0 && IsSpace(s[0]) then
      var r := StripLeft(s[1..]);
      StripLeftStep(s, r);
      r
    else s
  }

  lemma StripLeftStep(s: string, r: string)
    requires |s| > 0 && IsSpace(s[0])
    requires |r| <= |s[1..]| && r == s[1..][|s[1..]| - |r|..] && AllSpace(s[1..][..|s[1..]| - |r|])
    ensures |r| <= |s| && r == s[|s| - |r|..] && AllSpace(s[..|s| - |r|])
  {
    assert s[1..][|s[1..]| - |r|..] == s[|s| - |r|..];
    assert s[..|s| - |r|] == [s[0]] + s[1..][..|s[1..]| - |r|];
  }

  function StripRight(s: string): (r: string)
    ensures |r| <= |s| && r == s[..|r|]
    ensures AllSpace(s[|r|..])
    ensures r == [] || !IsSpace(r[|r| - 1])
    decreases |s|
  {
    if |s| > 0 && IsSpace(s[|s| - 1]) then
      var r := StripRight(s[..|s| - 1]);
      StripRightStep(s, r);
      r
    else s
  }

  lemma StripRightStep(s: string, r: string)
    requires |s| > 0 && IsSpace(s[|s| - 1])
    requires |r| <= |s| - 1 && r == s[..|s| - 1][..|r|] && AllSpace(s[..|s| - 1][|r|..])
    ensures |r| <= |s| && r == s[..|r|] && AllSpace(s[|r|..])
  {
    assert s[..|s| - 1][..|r|] == s[..|r|];
    assert s[|r|..] == s[..|s| - 1][|r|..] + [s[|s| - 1]];
  }

  /** Python's `str.strip()`: what is left once the leading and the trailing
      whitespace are removed. */
  function Strip(s: string): (r: string)
    ensures exists i, j :: 0 <= i <= j <= |s| && r == s[i..j] && AllSpace(s[..i]) && AllSpace(s[j..])
    ensures r == [] || (!IsSpace(r[0]) && !IsSpace(r[|r| - 1]))
  {
    var t := StripLeft(s);
    var r := StripRight(t);
    StripSlice(s, t, r);
    r
  }

  /** Whitespace dropped from the left, then from the right, leaves a slice. */
  lemma StripSlice(s: string, t: string, r: string)
    requires |t| <= |s| && t == s[|s| - |t|..] && AllSpace(s[..|s| - |t|])
    requires |r| <= |t| && r == t[..|r|] && AllSpace(t[|r|..])
    ensures exists i, j :: 0 <= i <= j <= |s| && r == s[i..j] && AllSpace(s[..i]) && AllSpace(s[j..])
  {
    var i := |s| - |t|;
    assert r == s[i..i + |r|];
    assert s[i + |r|..] == t[|r|..];
  }

  /** The longest prefix of `s` that holds no whitespace. */
  function LeadingWord(s: string): (w: string)
    ensures w <= s && NoSpace(w)
    ensures |w| == |s| || IsSpace(s[|w|])
    decreases |s|
  {
    if s == [] || IsSpace(s[0]) then [] else [s[0]] + LeadingWord(s[1..])
  }

  /** Words: non-empty runs without whitespace. */
  predicate Words(parts: seq<string>)
  {
    forall k :: 0 <= k < |parts| ==> parts[k] != [] && NoSpace(parts[k])
  }

  lemma WordsCons(w: string, more: seq<string>)
    requires w != [] && NoSpace(w) && Words(more)
    ensures Words([w] + more)
  {
    forall k | 0 <= k < |[w] + more|
      ensures ([w] + more)[k] != [] && NoSpace(([w] + more)[k])
    {
      if k > 0 {
        assert ([w] + more)[k] == more[k - 1];
      }
    }
  }

  /** Python's `str.split()` without a separator: the maximal runs of
      non-whitespace characters, in order. */
  function SplitWs(s: string): (parts: seq<string>)
    ensures Words(parts)
    decreases |s|
  {
    var t := StripLeft(s);
    if t == [] then []
    else
      var w := LeadingWord(t);
      assert w != [] by {
        assert !IsSpace(t[0]);
      }
      var rest := t[|w|..];
      assert |rest| < |s|;
      var more := SplitWs(rest);
      WordsCons(w, more);
      [w] + more
  }

  /** Python's `s.split(sep)` for a one-character separator; it always yields
      at least one piece, and no piece holds the separator. */
  function SplitOn(s: string, sep: char): (parts: seq<string>)
    ensures |parts| >= 1
    ensures forall k :: 0 <= k < |parts| ==> sep !in parts[k]
    decreases |s|
  {
    if s == [] then [[]]
    else
      var rest := SplitOn(s[1..], sep);
      if s[0] == sep then [[]] + rest else [[s[0]] + rest[0]] + rest[1..]
  }

  /** Python's `sep.join(parts)` for a one-character separator. */
  function Join(parts: seq<string>, sep: char): string
  {
    if parts == [] then []
    else if |parts| == 1 then parts[0]
    else parts[0] + [sep] + Join(parts[1..], sep)
  }

  /** Splitting on a separator loses nothing: joining the pieces gives the
      text back. */
  lemma {:induction false} SplitOnJoin(s: string, sep: char)
    ensures Join(SplitOn(s, sep), sep) == s
    decreases |s|
  {
    if s != [] {
      var rest := SplitOn(s[1..], sep);
      SplitOnJoin(s[1..], sep);
      if s[0] != sep {
        var parts := [[s[0]] + rest[0]] + rest[1..];
        if |rest| == 1 {
          assert Join(parts, sep) == [s[0]] + rest[0];
        } else {
          assert parts[1..] == rest[1..];
          assert Join(rest, sep) == rest[0] + [sep] + Join(rest[1..], sep);
        }
      } else {
        assert ([[]] + rest)[1..] == rest;
      }
    }
  }

  /** The only whitespace left is single spaces, never two in a row. */
  predicate Collapsed(r: string)
  {
    (forall i :: 0 <= i < |r| && IsSpace(r[i]) ==> r[i] == ' ')
    && (forall i, j :: 0 <= i < |r| && 0 <= j < |r| && j == i + 1 && r[i] == ' ' ==> r[j] != ' ')
  }

  /** `re.sub(r'\s+', ' ', s)`: each maximal run of whitespace becomes one
      space. */
  function CollapseSpace(s: string): (r: string)
    ensures Collapsed(r)
    ensures s == [] <==> r == []
    decreases |s|
  {
    if s == [] then []
    else if IsSpace(s[0]) then [' '] + CollapseSpace(StripLeft(s))
    else [s[0]] + CollapseSpace(s[1..])
  }

  /** The collapsed text starts with a space exactly when the text starts
      with whitespace, and otherwise with the text's first character. */
  lemma CollapseSpaceFirst(s: string)
    requires s != []
    ensures CollapseSpace(s)[0] == if IsSpace(s[0]) then ' ' else s[0]
  {
  }

  /** `re.sub(r'[^\w\s]', ' ', s)`. */
  function PunctToSpace(s: string): (r: string)
  {
    seq(|s|, i requires 0 <= i < |s| => if IsPunct(s[i]) then ' ' else s[i])
  }

  /** `re.sub(r'[^\w\s]', '', s)`. */
  function DropPunct(s: string): (r: string)
    ensures NoPunct(r)
    decreases |s|
  {
    if s == [] then []
    else if IsPunct(s[0]) then DropPunct(s[1..])
    else [s[0]] + DropPunct(s[1..])
  }

  // What the rewriting functions keep.

  predicate NotSpace(c: char)
  {
    !IsSpace(c)
  }

  /** The characters of `s` that satisfy `keep`, in order. */
  function Filter(keep: char -> bool, s: string): (r: string)
    ensures |r| <= |s|
    ensures forall i :: 0 <= i < |r| ==> keep(r[i])
    decreases |s|
  {
    if s == [] then [] else (if keep(s[0]) then [s[0]] else []) + Filter(keep, s[1..])
  }

  lemma {:induction false} FilterAppend(keep: char -> bool, a: string, b: string)
    ensures Filter(keep, a + b) == Filter(keep, a) + Filter(keep, b)
    decreases |a|
  {
    if a != [] {
      assert (a + b)[1..] == a[1..] + b;
      FilterAppend(keep, a[1..], b);
    } else {
      assert a + b == b;
    }
  }

  /** Whitespace holds nothing `keep` keeps when `keep` never keeps
      whitespace. */
  lemma {:induction false} FilterAllSpace(keep: char -> bool, s: string)
    requires forall c :: keep(c) ==> !IsSpace(c)
    requires AllSpace(s)
    ensures Filter(keep, s) == []
    decreases |s|
  {
    if s != [] {
      FilterAllSpace(keep, s[1..]);
    }
  }

  lemma FilterCons(keep: char -> bool, c: char, x: string)
    ensures Filter(keep, [c] + x) == (if keep(c) then [c] else []) + Filter(keep, x)
  {
    assert ([c] + x)[1..] == x;
  }

  /** Leading whitespace holds nothing `keep` keeps. */
  lemma FilterStripLeft(keep: char -> bool, s: string)
    requires forall c :: keep(c) ==> !IsSpace(c)
    ensures Filter(keep, s) == Filter(keep, StripLeft(s))
  {
    var t := StripLeft(s);
    var g := s[..|s| - |t|];
    assert s == g + t;
    FilterAppend(keep, g, t);
    FilterAllSpace(keep, g);
  }

  /** Collapsing whitespace keeps, in order, every character that is not
      whitespace; `keep` is any class of such characters. */
  lemma {:induction false} CollapseSpaceKeeps(keep: char -> bool, s: string)
    requires forall c :: keep(c) ==> !IsSpace(c)
    ensures Filter(keep, CollapseSpace(s)) == Filter(keep, s)
    decreases |s|
  {
    if s != [] {
      if IsSpace(s[0]) {
        var t := StripLeft(s);
        assert Filter(keep, CollapseSpace(s)) == Filter(keep, CollapseSpace(t)) by {
          assert CollapseSpace(s) == [' '] + CollapseSpace(t);
          FilterCons(keep, ' ', CollapseSpace(t));
        }
        CollapseSpaceKeeps(keep, t);
        FilterStripLeft(keep, s);
      } else {
        var c := s[0];
        assert Filter(keep, CollapseSpace(s)) == (if keep(c) then [c] else []) + Filter(keep, CollapseSpace(s[1..])) by {
          assert CollapseSpace(s) == [c] + CollapseSpace(s[1..]);
          FilterCons(keep, c, CollapseSpace(s[1..]));
        }
        CollapseSpaceKeeps(keep, s[1..]);
      }
    }
  }

  /** The characters `re.sub(r'\s+', ' ', s)` keeps, in order, are exactly the
      ones of `s` that are not whitespace. */
  lemma CollapseSpaceText(s: string)
    ensures Filter(NotSpace, CollapseSpace(s)) == Filter(NotSpace, s)
  {
    CollapseSpaceKeeps(NotSpace, s);
  }

  /** `PunctToSpace` and the removal of `[^\w\s]` leave every word character
      in place. */
  lemma {:induction false} PunctToSpaceKeeps(s: string)
    ensures Filter(IsWordChar, PunctToSpace(s)) == Filter(IsWordChar, s)
    decreases |s|
  {
    if s != [] {
      PunctToSpaceKeeps(s[1..]);
      assert PunctToSpace(s) == [PunctToSpace(s)[0]] + PunctToSpace(s[1..]);
    }
  }

  /** Text without punctuation comes back unchanged ... */
  lemma {:induction false} DropPunctKeeps(s: string)
    requires NoPunct(s)
    ensures DropPunct(s) == s
    decreases |s|
  {
    if s != [] {
      DropPunctKeeps(s[1..]);
    }
  }

  predicate NotPunct(c: char)
  {
    !IsPunct(c)
  }

  /** ... and otherwise every character that is a word or whitespace
      character survives, in order. */
  lemma {:induction false} DropPunctFilter(s: string)
    ensures DropPunct(s) == Filter(NotPunct, s)
    decreases |s|
  {
    if s != [] {
      DropPunctFilter(s[1..]);
    }
  }

  // `str.split()` against `re.sub(r'\s+', ' ', s.strip())`.

  lemma {:induction false} StripLeftAfterSpace(a: string, b: string)
    requires AllSpace(a) && (b == [] || !IsSpace(b[0]))
    ensures StripLeft(a + b) == b
    decreases |a|
  {
    if a != [] {
      assert (a + b)[1..] == a[1..] + b;
      StripLeftAfterSpace(a[1..], b);
    } else {
      assert a + b == b;
    }
  }

  lemma {:induction false} StripRightBeforeSpace(a: string, b: string)
    requires AllSpace(b) && (a == [] || !IsSpace(a[|a| - 1]))
    ensures StripRight(a + b) == a
    decreases |b|
  {
    if b != [] {
      assert (a + b)[..|a + b| - 1] == a + b[..|b| - 1];
      StripRightBeforeSpace(a, b[..|b| - 1]);
    } else {
      assert a + b == a;
    }
  }

  lemma {:induction false} StripRightKeepsFront(a: string, b: string)
    requires b != [] && !IsSpace(b[0])
    ensures StripRight(a + b) == a + StripRight(b)
    decreases |b|
  {
    if IsSpace(b[|b| - 1]) {
      assert |b| > 1;
      assert (a + b)[..|a + b| - 1] == a + b[..|b| - 1];
      StripRightKeepsFront(a, b[..|b| - 1]);
    }
  }

  lemma CollapseCons(c: char, y: string)
    requires !IsSpace(c)
    ensures CollapseSpace([c] + y) == [c] + CollapseSpace(y)
  {
    assert ([c] + y)[1..] == y;
  }

  lemma {:induction false} CollapseAfterWord(w: string, x: string)
    requires NoSpace(w)
    ensures CollapseSpace(w + x) == w + CollapseSpace(x)
    decreases |w|
  {
    if w != [] {
      var y := w[1..] + x;
      assert w + x == [w[0]] + y;
      CollapseCons(w[0], y);
      CollapseAfterWord(w[1..], x);
      assert [w[0]] + (w[1..] + CollapseSpace(x)) == w + CollapseSpace(x);
    } else {
      assert w + x == x;
    }
  }

  lemma {:induction false} JoinCons(w: string, parts: seq<string>)
    requires parts != []
    ensures Join([w] + parts, ' ') == w + [' '] + Join(parts, ' ')
  {
    assert ([w] + parts)[1..] == parts;
  }

  /** The last run: a word followed by whitespace only. */
  lemma {:induction false} SplitWsLast(w: string, rest: string)
    requires w != [] && NoSpace(w) && StripLeft(rest) == []
    ensures CollapseSpace(StripRight(w + rest)) == w
  {
    assert rest[..|rest|] == rest;
    assert !IsSpace(w[|w| - 1]);
    assert w + [] == w;
    StripRightBeforeSpace(w, rest);
    CollapseAfterWord(w, []);
  }

  /** Text that holds a non-whitespace character keeps whatever precedes it
      when its right end is stripped. */
  lemma {:induction false} StripRightFront(a: string, rest: string)
    requires !AllSpace(rest)
    ensures StripRight(a + rest) == a + StripRight(rest)
    decreases |rest|
  {
    var n := |rest| - 1;
    var s := a + rest;
    assert s[|s| - 1] == rest[n];
    if IsSpace(rest[n]) {
      assert s[..|s| - 1] == a + rest[..n];
      assert !AllSpace(rest[..n]);
      StripRightFront(a, rest[..n]);
      StripRightDrop(s);
      StripRightDrop(rest);
    } else {
      StripRightKeep(s);
      StripRightKeep(rest);
    }
  }

  lemma StripRightDrop(s: string)
    requires s != [] && IsSpace(s[|s| - 1])
    ensures StripRight(s) == StripRight(s[..|s| - 1])
  {
  }

  lemma StripRightKeep(s: string)
    requires s != [] && !IsSpace(s[|s| - 1])
    ensures StripRight(s) == s
  {
  }

  /** Whitespace before more text survives stripping the right end only. */
  lemma {:induction false} StripRightInner(rest: string)
    requires rest != [] && IsSpace(rest[0]) && StripLeft(rest) != []
    ensures StripRight(rest) != [] && IsSpace(StripRight(rest)[0])
    ensures StripLeft(StripRight(rest)) == Strip(rest)
  {
    var t := StripLeft(rest);
    var g := rest[..|rest| - |t|];
    assert rest == g + t;
    assert g != [] by {
      assert !IsSpace(t[0]);
    }
    StripRightKeepsFront(g, t);
    var y := StripRight(t);
    assert y == t[..|y|] && y != [];
    assert StripRight(rest) == g + y;
    assert (g + y)[0] == g[0];
    StripLeftAfterSpace(g, y);
  }

  /** Text that holds a non-whitespace character keeps a word before it
      when its right end is stripped. */
  lemma StripRightAfterWord(w: string, rest: string)
    requires StripLeft(rest) != []
    ensures StripRight(w + rest) == w + StripRight(rest)
  {
    var t := StripLeft(rest);
    assert !IsSpace(rest[|rest| - |t|]);
    StripRightFront(w, rest);
  }

  /** Leading whitespace before more text collapses to one space. */
  lemma CollapseInner(rest: string)
    requires rest != [] && IsSpace(rest[0]) && StripLeft(rest) != []
    ensures CollapseSpace(StripRight(rest)) == [' '] + CollapseSpace(Strip(rest))
  {
    StripRightInner(rest);
  }

  /** A word, then whitespace, then more text. */
  lemma SplitWsNext(w: string, rest: string)
    requires w != [] && NoSpace(w)
    requires rest != [] && IsSpace(rest[0]) && StripLeft(rest) != []
    ensures CollapseSpace(StripRight(w + rest)) == w + [' '] + CollapseSpace(Strip(rest))
  {
    StripRightAfterWord(w, rest);
    CollapseAfterWord(w, StripRight(rest));
    CollapseInner(rest);
    assert w + ([' '] + CollapseSpace(Strip(rest))) == w + [' '] + CollapseSpace(Strip(rest));
  }

  /** One step of `str.split()`: the first word, then the rest. */
  lemma SplitWsStep(s: string)
    requires StripLeft(s) != []
    ensures var t := StripLeft(s); var w := LeadingWord(t); w != [] && NoSpace(w) && |t[|w|..]| < |s|
    ensures var t := StripLeft(s); var w := LeadingWord(t); t[|w|..] == [] || IsSpace(t[|w|..][0])
    ensures var t := StripLeft(s); var w := LeadingWord(t); SplitWs(s) == [w] + SplitWs(t[|w|..])
    ensures var t := StripLeft(s); var w := LeadingWord(t); Strip(s) == StripRight(w + t[|w|..])
  {
    SplitWsWord(s);
    StripWord(s);
  }

  /** The first word of text that is not all whitespace, and what follows it. */
  lemma SplitWsWord(s: string)
    requires StripLeft(s) != []
    ensures var t := StripLeft(s); var w := LeadingWord(t); w != [] && NoSpace(w) && |t[|w|..]| < |s|
    ensures var t := StripLeft(s); var w := LeadingWord(t); t[|w|..] == [] || IsSpace(t[|w|..][0])
  {
    var t := StripLeft(s);
    assert !IsSpace(t[0]);
  }

  /** Stripping text is stripping the right end of its first word and what
      follows it. */
  lemma StripWord(s: string)
    ensures var t := StripLeft(s); var w := LeadingWord(t); Strip(s) == StripRight(w + t[|w|..])
  {
    var t := StripLeft(s);
    var w := LeadingWord(t);
    assert w == t[..|w|];
    PrefixSplit(t, |w|);
    assert t == w + t[|w|..];
    assert Strip(s) == StripRight(t);
  }

  lemma PrefixSplit(t: string, n: nat)
    requires n <= |t|
    ensures t == t[..n] + t[n..]
  {
  }

  /** The induction step of `SplitWsRuns`. */
  lemma SplitWsCons(w: string, rest: string)
    requires w != [] && NoSpace(w) && (rest == [] || IsSpace(rest[0]))
    requires Join(SplitWs(rest), ' ') == CollapseSpace(Strip(rest))
    ensures Join([w] + SplitWs(rest), ' ') == CollapseSpace(StripRight(w + rest))
  {
    if StripLeft(rest) == [] {
      assert SplitWs(rest) == [];
      SplitWsLast(w, rest);
    } else {
      SplitWsNext(w, rest);
      JoinCons(w, SplitWs(rest));
    }
  }

  /** The parts of `str.split()` are the maximal runs of non-whitespace
      characters, in order: joined by single spaces, they give the text with
      its ends stripped and each inner whitespace run made one space. */
  lemma {:induction false} SplitWsRuns(s: string)
    ensures Join(SplitWs(s), ' ') == CollapseSpace(Strip(s))
    decreases |s|
  {
    var t := StripLeft(s);
    if t == [] {
      assert SplitWs(s) == [];
      assert Strip(s) == [];
    } else {
      SplitWsStep(s);
      var w := LeadingWord(t);
      var rest := t[|w|..];
      SplitWsRuns(rest);
      SplitWsCons(w, rest);
    }
  }
}

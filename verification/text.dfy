/** Character classes and string scanning shared by the field matchers and the
    URL builder. Strings are sequences of Unicode scalar values. */
module Text {

  import opened Wrappers

  /** The characters matched by the regular-expression escape `\s` and removed
      by `String.prototype.trim`: the ECMAScript WhiteSpace and LineTerminator
      code points. */
  predicate IsWhitespace(c: char) {
    || c == '\t' || c == '\n' || c == '\U{000B}' || c == '\U{000C}' || c == '\r'
    || c == ' ' || c == '\U{00A0}' || c == '\U{1680}'
    || ('\U{2000}' <= c <= '\U{200A}')
    || c == '\U{2028}' || c == '\U{2029}' || c == '\U{202F}' || c == '\U{205F}'
    || c == '\U{3000}' || c == '\U{FEFF}'
  }

  /** `\d` without the `u` flag: ASCII digits only. */
  predicate IsDigit(c: char) {
    '0' <= c <= '9'
  }

  predicate IsAsciiLetter(c: char) {
    ('a' <= c <= 'z') || ('A' <= c <= 'Z')
  }

  /** The character classes the matchers scan runs of. */
  datatype CharClass =
    | Space    // `\s`
    | Digit    // `\d`
    | Ident    // `[a-zA-Z0-9-]`
    | Amount   // `[0-9,]`

  predicate InClass(c: char, cls: CharClass) {
    match cls
    case Space => IsWhitespace(c)
    case Digit => IsDigit(c)
    case Ident => IsAsciiLetter(c) || IsDigit(c) || c == '-'
    case Amount => IsDigit(c) || c == ','
  }

  predicate AllIn(w: string, cls: CharClass) {
    forall k :: 0 <= k < |w| ==> InClass(w[k], cls)
  }

  /** The end of the longest run of `cls` characters starting at `p`: what a
      greedy `cls*` consumes from `p`. */
  function RunEnd(s: string, p: nat, cls: CharClass): (q: nat)
    requires p <= |s|
    ensures p <= q <= |s|
    ensures AllIn(s[p..q], cls)
    ensures q == |s| || !InClass(s[q], cls)
    decreases |s| - p
  {
    if p < |s| && InClass(s[p], cls) then RunEnd(s, p + 1, cls) else p
  }

  lemma SubSlice(s: string, q: nat, d: nat, i: nat, j: nat)
    requires q <= d <= |s| && i <= j <= d - q
    ensures s[q..d][i..j] == s[q + i..q + j]
  {
    assert forall k :: 0 <= k < j - i ==> s[q..d][i..j][k] == s[q + i..q + j][k];
  }

  lemma AllInSub(s: string, x: nat, y: nat, x': nat, y': nat, cls: CharClass)
    requires x <= x' <= y' <= y <= |s| && AllIn(s[x..y], cls)
    ensures AllIn(s[x'..y'], cls)
  {
    assert forall k :: 0 <= k < y' - x' ==> s[x'..y'][k] == s[x..y][k + x' - x];
  }

  /** The run scanned by `RunEnd` stops exactly at the first character
      outside the class. */
  lemma RunEndExact(s: string, q: nat, x: nat, cls: CharClass)
    requires q <= x <= |s| && AllIn(s[q..x], cls) && (x == |s| || !InClass(s[x], cls))
    ensures RunEnd(s, q, cls) == x
  {
  }

  /** Greedy `\s*` from `p`. */
  function SkipWs(s: string, p: nat): (q: nat)
    requires p <= |s|
    ensures p <= q <= |s|
    ensures AllIn(s[p..q], Space)
    ensures q == |s| || !IsWhitespace(s[q])
  {
    RunEnd(s, p, Space)
  }

  /** ASCII case folding, the only folding the `i` flag applies to patterns
      made of ASCII letters when the `u` flag is absent. */
  function Lower(c: char): char {
    if 'A' <= c <= 'Z' then (c as int + 32) as char else c
  }

  /** `a` and `b` are equal up to ASCII case. */
  predicate CiEq(a: string, b: string) {
    |a| == |b| && forall k :: 0 <= k < |a| ==> Lower(a[k]) == Lower(b[k])
  }

  /** The literal `lit` occurs at position `p` of `s`, ignoring ASCII case. */
  predicate LitCiAt(s: string, p: nat, lit: string) {
    p + |lit| <= |s| && CiEq(s[p..p + |lit|], lit)
  }

  /** A case-insensitive search for a literal, as `/lit/i` tests a string. */
  predicate ContainsCi(s: string, lit: string) {
    exists p :: 0 <= p <= |s| && LitCiAt(s, p, lit)
  }

  /** `t` occurs in `s` starting at index `i`. */
  predicate OccursAt(s: string, t: string, i: nat) {
    i + |t| <= |s| && s[i..i + |t|] == t
  }

  /** `t` occurs in `s` (`s.includes(t)`). */
  predicate Contains(s: string, t: string) {
    exists i: nat :: i <= |s| && OccursAt(s, t, i)
  }

  /** The first index at or after `from` where `t` occurs in `s`. */
  function IndexOfFrom(s: string, t: string, from: nat): (r: Option<nat>)
    ensures r.Some? ==> from <= r.value && OccursAt(s, t, r.value)
    ensures r.Some? ==> forall j: nat :: from <= j < r.value ==> !OccursAt(s, t, j)
    ensures r.None? ==> forall j: nat :: from <= j ==> !OccursAt(s, t, j)
    decreases |s| - from
  {
    if from + |t| > |s| then None
    else if OccursAt(s, t, from) then Some(from)
    else IndexOfFrom(s, t, from + 1)
  }

  /** `s.indexOf(t)`: the first occurrence of `t` in `s`, `None` when there is none. */
  function IndexOf(s: string, t: string): (r: Option<nat>)
    ensures r.Some? <==> Contains(s, t)
    ensures r.Some? ==> OccursAt(s, t, r.value)
    ensures r.Some? ==> forall j: nat :: j < r.value ==> !OccursAt(s, t, j)
  {
    IndexOfFrom(s, t, 0)
  }

  /** `s.trimStart()`: the suffix left after removing leading whitespace. */
  function TrimStart(s: string): (r: string)
    ensures |r| <= |s| && r == s[|s| - |r|..]
    ensures AllIn(s[..|s| - |r|], Space)
    ensures r == [] || !IsWhitespace(r[0])
  {
    if |s| > 0 && IsWhitespace(s[0]) then
      var t := s[1..];
      var r := TrimStart(t);
      var cut := s[..|s| - |r|];
      assert AllIn(cut, Space) by {
        forall k | 0 <= k < |cut|
          ensures InClass(cut[k], Space)
        {
          if k > 0 {
            assert cut[k] == t[..|t| - |r|][k - 1];
          }
        }
      }
      r
    else s
  }

  /** `s.trimEnd()`: the prefix left after removing trailing whitespace. */
  function TrimEnd(s: string): (r: string)
    ensures |r| <= |s| && r == s[..|r|]
    ensures AllIn(s[|r|..], Space)
    ensures r == [] || !IsWhitespace(r[|r| - 1])
  {
    if |s| > 0 && IsWhitespace(s[|s| - 1]) then
      var t := s[..|s| - 1];
      var r := TrimEnd(t);
      assert AllIn(s[|r|..], Space) by {
        forall k | 0 <= k < |s[|r|..]|
          ensures InClass(s[|r|..][k], Space)
        {
          if |r| + k < |t| {
            assert s[|r|..][k] == t[|r|..][k];
          }
        }
      }
      r
    else s
  }

  /** `s.trim()`: a slice of `s` that neither starts nor ends with whitespace,
      with only whitespace cut from either side. */
  function Trim(s: string): (r: string)
    ensures exists a, b :: 0 <= a <= b <= |s| && r == s[a..b] && AllIn(s[..a], Space) && AllIn(s[b..], Space)
    ensures r == [] || (!IsWhitespace(r[0]) && !IsWhitespace(r[|r| - 1]))
  {
    TrimBothEnds(s);
    TrimEnd(TrimStart(s))
  }

  lemma TrimBothEnds(s: string)
    ensures var r := TrimEnd(TrimStart(s));
      exists a, b :: 0 <= a <= b <= |s| && r == s[a..b] && AllIn(s[..a], Space) && AllIn(s[b..], Space)
    ensures var r := TrimEnd(TrimStart(s));
      r == [] || (!IsWhitespace(r[0]) && !IsWhitespace(r[|r| - 1]))
  {
    var t := TrimStart(s);
    var r := TrimEnd(t);
    var a := |s| - |t|;
    assert r == s[a..a + |r|];
    assert s[a + |r|..] == t[|r|..];
    assert r == [] || r[0] == t[0];
  }

  /** `s.split('\n')`: the pieces between newlines, always at least one. */
  function SplitLines(s: string): (r: seq<string>)
    ensures |r| >= 1
    ensures forall i :: 0 <= i < |r| ==> '\n' !in r[i]
  {
    if |s| == 0 then [""]
    else
      var rest := SplitLines(s[1..]);
      if s[0] == '\n' then [""] + rest else [[s[0]] + rest[0]] + rest[1..]
  }

  /** `ls.join('\n')`. */
  function JoinLines(ls: seq<string>): string
    requires |ls| >= 1
  {
    if |ls| == 1 then ls[0] else ls[0] + "\n" + JoinLines(ls[1..])
  }

  /** Splitting on newlines loses nothing: joining the pieces gives back the text. */
  lemma {:induction false} JoinSplit(s: string)
    ensures JoinLines(SplitLines(s)) == s
  {
    if |s| > 0 {
      var rest := SplitLines(s[1..]);
      JoinSplit(s[1..]);
      if s[0] == '\n' {
        assert s == "\n" + s[1..];
      } else if |rest| == 1 {
        assert s == [s[0]] + s[1..];
      } else {
        assert JoinLines(rest) == rest[0] + "\n" + JoinLines(rest[1..]);
        assert s == [s[0]] + s[1..];
      }
    }
  }

  /** Joining newline-free pieces and splitting again gives back the pieces. */
  lemma {:induction false} SplitJoin(ls: seq<string>)
    requires |ls| >= 1
    requires forall i :: 0 <= i < |ls| ==> '\n' !in ls[i]
    ensures SplitLines(JoinLines(ls)) == ls
  {
    if |ls| == 1 {
      SplitNoNewline(ls[0]);
    } else {
      SplitJoin(ls[1..]);
      SplitPrefix(ls[0], JoinLines(ls[1..]));
      assert [ls[0]] + ls[1..] == ls;
    }
  }

  lemma {:induction false} SplitNoNewline(w: string)
    requires '\n' !in w
    ensures SplitLines(w) == [w]
  {
    if |w| > 0 {
      SplitNoNewline(w[1..]);
      assert w == [w[0]] + w[1..];
    }
  }

  lemma {:induction false} SplitPrefix(w: string, rest: string)
    requires '\n' !in w
    ensures SplitLines(w + "\n" + rest) == [w] + SplitLines(rest)
  {
    if |w| == 0 {
      assert w + "\n" + rest == "\n" + rest;
      assert ("\n" + rest)[1..] == rest;
    } else {
      SplitPrefix(w[1..], rest);
      assert (w + "\n" + rest)[1..] == w[1..] + "\n" + rest;
      assert [w[0]] + w[1..] == w;
    }
  }
}

/** The four label-and-value matchers of the extraction engine (invoice
    number, date, due date, total), each a hand-written version of one
    case-insensitive regular expression run with `String.prototype.match`
    (no `g` flag): start positions are tried left to right, at each position
    the label alternatives are tried in source order, and the first success
    is returned.

    Every pattern has the shape LABEL SEP (VALUE), where SEP is
    `\s*[:.]?\s*` (for the total, `\s*[:.]?\s*(?:[$€£¥])?\s*`) and VALUE is
    greedy with nothing after it. Each character SEP can consume lies outside
    the class VALUE must start with, and no backtracking path through SEP
    gets further than the greedy one, so for each end of the label the only
    capture start that can succeed is the one reached by consuming SEP
    greedily; and a greedy VALUE with nothing after it succeeds on its first
    try. This is why each label end below has one capture attempt. */
module Matchers {

  import opened Wrappers
  import opened Text

  datatype Field = InvoiceNumber | Date | DueDate | Total

  /** A captured value `value`, read from index `at` of the text. */
  datatype Hit = Hit(at: nat, value: string)

  /** A successful match starting at `start` and capturing `hit`. */
  datatype Found = Found(start: nat, hit: Hit)

  // ----- The label grammar, declaratively -----

  /** `w` equals one of `words`, ignoring ASCII case. */
  predicate OneOf(w: string, words: seq<string>) {
    exists t :: t in words && CiEq(w, t)
  }

  /** `w` is `head`, then whitespace, then one of `tails` (ASCII case ignored):
      the language of `head\s*(?:tail1|tail2|...)`. */
  predicate WordsApart(w: string, head: string, tails: seq<string>) {
    && |head| <= |w|
    && CiEq(w[..|head|], head)
    && exists j :: |head| <= j <= |w| && AllIn(w[|head|..j], Space) && OneOf(w[j..], tails)
  }

  const InvoiceTails: seq<string> := ["no.", "no", "number", "#"]
  const InvTails: seq<string> := ["no.", "no", "#"]

  /** The label part of each field's pattern, as a language. */
  predicate IsLabel(f: Field, w: string) {
    match f
    case InvoiceNumber => WordsApart(w, "invoice", InvoiceTails) || WordsApart(w, "inv", InvTails)
    case Date => OneOf(w, ["date", "dated"])
    case DueDate => WordsApart(w, "due", ["date"])
    case Total =>
      || OneOf(w, ["total"])
      || WordsApart(w, "grand", ["total"])
      || WordsApart(w, "amount", ["due"])
      || WordsApart(w, "balance", ["due"])
  }

  predicate IsPunct(c: char) {
    c == ':' || c == '.'
  }

  /** The currency symbols the total pattern may skip: `$`, `€`, `£`, `¥`. */
  predicate IsCurrencySymbol(c: char) {
    c == '$' || c == '\U{20AC}' || c == '\U{00A3}' || c == '\U{00A5}'
  }

  /** `w` is whitespace, optionally one `:` or `.`, then whitespace. */
  predicate IsPunctSep(w: string) {
    || AllIn(w, Space)
    || exists j :: 0 <= j < |w| && AllIn(w[..j], Space) && IsPunct(w[j]) && AllIn(w[j + 1..], Space)
  }

  /** The text allowed between a label and its value. */
  predicate IsSeparator(f: Field, w: string) {
    if f == Total then
      || IsPunctSep(w)
      || exists k :: 0 <= k < |w| && IsPunctSep(w[..k]) && IsCurrencySymbol(w[k]) && AllIn(w[k + 1..], Space)
    else IsPunctSep(w)
  }

  // ----- The value grammar, declaratively -----

  predicate IsDateSep(c: char) {
    c == '-' || c == '/' || c == '.'
  }

  /** `\d{1,4}[-/.]\d{1,2}[-/.]\d{2,4}` as a language: the separators sit at
      indices `a` and `b`. */
  predicate IsDateToken(v: string) {
    exists a, b | 1 <= a <= 4 && a + 2 <= b <= a + 3 :: DateShape(v, a, b)
  }

  /** `v` is a date token whose separators sit at indices `a` and `b`. */
  predicate DateShape(v: string, a: int, b: int) {
    && 1 <= a <= 4 && a + 2 <= b <= a + 3 && b + 3 <= |v| <= b + 5
    && AllIn(v[0..a], Digit) && IsDateSep(v[a])
    && AllIn(v[a + 1..b], Digit) && IsDateSep(v[b])
    && AllIn(v[b + 1..|v|], Digit)
  }

  /** `[0-9,]+(?:\.[0-9]{1,2})?` as a language. */
  predicate IsAmount(v: string) {
    exists k ::
      && 1 <= k <= |v| && AllIn(v[..k], Amount)
      && (k == |v| || (v[k] == '.' && 2 <= |v| - k <= 3 && AllIn(v[k + 1..], Digit)))
  }

  /** `[a-zA-Z0-9-]{3,}` as a language. */
  predicate IsInvoiceNumber(v: string) {
    |v| >= 3 && AllIn(v, Ident)
  }

  predicate IsValue(f: Field, v: string) {
    match f
    case InvoiceNumber => IsInvoiceNumber(v)
    case Date => IsDateToken(v)
    case DueDate => IsDateToken(v)
    case Total => IsAmount(v)
  }

  // ----- Label ends, in the order the regular expression tries them -----

  /** Ends of the literals `words` at `j`, in order, for those that occur there. */
  function WordEnds(s: string, j: nat, words: seq<string>): (r: seq<nat>)
    ensures forall e :: e in r ==> j <= e <= |s| && OneOf(s[j..e], words)
  {
    if words == [] then []
    else
      var first := if LitCiAt(s, j, words[0]) then [j + |words[0]|] else [];
      assert forall e :: e in first ==> OneOf(s[j..e], words) by {
        if LitCiAt(s, j, words[0]) {
          assert words[0] in words;
        }
      }
      var rest := WordEnds(s, j, words[1..]);
      assert forall e :: e in rest ==> OneOf(s[j..e], words) by {
        forall e | e in rest
          ensures OneOf(s[j..e], words)
        {
          var t :| t in words[1..] && CiEq(s[j..e], t);
          assert t in words;
        }
      }
      first + rest
  }

  /** Ends of `head\s*(?:tails...)` at `p`: the greedy `\s*` is the only
      whitespace count after which a tail can start. */
  function PhraseEnds(s: string, p: nat, head: string, tails: seq<string>): (r: seq<nat>)
    requires p <= |s|
    ensures forall e :: e in r ==> p <= e <= |s| && WordsApart(s[p..e], head, tails)
  {
    if LitCiAt(s, p, head) then
      var j := SkipWs(s, p + |head|);
      var r := WordEnds(s, j, tails);
      assert forall e :: e in r ==> WordsApart(s[p..e], head, tails) by {
        forall e | e in r
          ensures WordsApart(s[p..e], head, tails)
        {
          var w := s[p..e];
          assert p + |head| <= j <= e;
          assert w[..|head|] == s[p..p + |head|];
          assert w[|head|..j - p] == s[p + |head|..j] by {
            assert forall k :: |head| <= k < j - p ==> w[k] == s[p + k];
          }
          assert w[j - p..] == s[j..e];
        }
      }
      r
    else []
  }

  /** One alternative of a label pattern: a single word, or a head word,
      whitespace and one of several tail words. */
  datatype Alt = Word(word: string) | Phrase(head: string, tails: seq<string>)

  /** The label alternatives of each pattern, in source order. */
  function Alternatives(f: Field): seq<Alt> {
    match f
    case InvoiceNumber => [Phrase("invoice", InvoiceTails), Phrase("inv", InvTails)]
    case Date => [Word("date"), Word("dated")]
    case DueDate => [Phrase("due", ["date"])]
    case Total =>
      [Word("total"), Phrase("grand", ["total"]), Phrase("amount", ["due"]), Phrase("balance", ["due"])]
  }

  predicate AltMatches(a: Alt, w: string) {
    match a
    case Word(x) => CiEq(w, x)
    case Phrase(h, ts) => WordsApart(w, h, ts)
  }

  /** Each alternative of a field describes text in that field's label language. */
  lemma AlternativeIsLabel(f: Field, a: Alt, w: string)
    requires a in Alternatives(f) && AltMatches(a, w)
    ensures IsLabel(f, w)
  {
    match f
    case Date =>
      if a == Word("date") {
        assert "date" in ["date", "dated"];
      } else {
        assert "dated" in ["date", "dated"];
      }
    case Total =>
      if a == Word("total") {
        assert "total" in ["total"];
      }
    case _ =>
  }

  /** Ends of alternative `a` at `p`. */
  function AltEnds(s: string, p: nat, a: Alt): (r: seq<nat>)
    requires p <= |s|
    ensures forall e :: e in r ==> p <= e <= |s| && AltMatches(a, s[p..e])
  {
    match a
    case Word(x) => if LitCiAt(s, p, x) then [p + |x|] else []
    case Phrase(h, ts) => PhraseEnds(s, p, h, ts)
  }

  /** Ends of the alternatives `alts` at `p`, alternative by alternative. */
  function AltsEnds(s: string, p: nat, alts: seq<Alt>): (r: seq<nat>)
    requires p <= |s|
    ensures forall e :: e in r ==> p <= e <= |s| && exists a :: a in alts && AltMatches(a, s[p..e])
  {
    if alts == [] then []
    else
      var first := AltEnds(s, p, alts[0]);
      var rest := AltsEnds(s, p, alts[1..]);
      assert forall e :: e in first ==> AltMatches(alts[0], s[p..e]);
      assert forall a :: a in alts[1..] ==> a in alts;
      first + rest
  }

  /** The label ends of the pattern of `f` at `p`, in the order the
      alternatives are tried. */
  function LabelEnds(f: Field, s: string, p: nat): (r: seq<nat>)
    requires p <= |s|
    ensures forall e :: e in r ==> p <= e <= |s| && IsLabel(f, s[p..e])
  {
    var r := AltsEnds(s, p, Alternatives(f));
    assert forall e :: e in r ==> IsLabel(f, s[p..e]) by {
      forall e | e in r
        ensures IsLabel(f, s[p..e])
      {
        var a :| a in Alternatives(f) && AltMatches(a, s[p..e]);
        AlternativeIsLabel(f, a, s[p..e]);
      }
    }
    r
  }

  // ----- From a label end to the value -----

  /** One optional character of the given kind at `p`, taken greedily. */
  function OptPunct(s: string, p: nat): (q: nat)
    requires p <= |s|
    ensures q == p || (p < |s| && q == p + 1 && IsPunct(s[p]))
  {
    if p < |s| && IsPunct(s[p]) then p + 1 else p
  }

  function OptSymbol(s: string, p: nat): (q: nat)
    requires p <= |s|
    ensures q == p || (p < |s| && q == p + 1 && IsCurrencySymbol(s[p]))
  {
    if p < |s| && IsCurrencySymbol(s[p]) then p + 1 else p
  }

  lemma PunctSepSlice(s: string, e: nat, q0: nat, q1: nat, q2: nat)
    requires e <= q0 <= q1 <= q2 <= |s|
    requires AllIn(s[e..q0], Space) && AllIn(s[q1..q2], Space)
    requires q1 == q0 || (q1 == q0 + 1 && IsPunct(s[q0]))
    ensures IsPunctSep(s[e..q2])
  {
    var w := s[e..q2];
    if q1 == q0 {
      assert forall k :: 0 <= k < |w| ==> w[k] == s[e + k] && (e + k < q0 || q1 <= e + k);
      assert forall k :: 0 <= k < |w| ==> InClass(w[k], Space) by {
        forall k | 0 <= k < |w|
          ensures InClass(w[k], Space)
        {
          if e + k < q0 {
            assert s[e..q0][k] == s[e + k];
          } else {
            assert s[q1..q2][e + k - q1] == s[e + k];
          }
        }
      }
    } else {
      var j := q0 - e;
      assert w[..j] == s[e..q0];
      assert w[j] == s[q0];
      assert w[j + 1..] == s[q1..q2];
    }
  }

  /** Where the value starts after the label ends at `e`: the greedy path
      through the separator. */
  function ValueStart(f: Field, s: string, e: nat): (q: nat)
    requires e <= |s|
    ensures e <= q <= |s|
    ensures IsSeparator(f, s[e..q])
  {
    var q0 := SkipWs(s, e);
    var q1 := OptPunct(s, q0);
    var q2 := SkipWs(s, q1);
    PunctSepSlice(s, e, q0, q1, q2);
    if f != Total then q2
    else
      var q3 := OptSymbol(s, q2);
      var q4 := SkipWs(s, q3);
      if q3 == q2 then
        PunctSepSlice(s, e, q0, q1, q4);
        q4
      else
        var w := s[e..q4];
        assert w[..q2 - e] == s[e..q2];
        assert w[q2 - e] == s[q2];
        assert w[q2 - e + 1..] == s[q3..q4];
        q4
  }

  /** `[a-zA-Z0-9-]{3,}` at `q`: the whole run of identifier characters,
      when it is at least three long. */
  function InvoiceNumberAt(s: string, q: nat): (r: Option<string>)
    requires q <= |s|
    ensures r.Some? ==> OccursAt(s, r.value, q) && IsInvoiceNumber(r.value)
    ensures r.Some? ==> q + |r.value| == |s| || !InClass(s[q + |r.value|], Ident)
    ensures r.None? <==> RunEnd(s, q, Ident) < q + 3
  {
    var e := RunEnd(s, q, Ident);
    if e - q >= 3 then Some(s[q..e]) else None
  }

  function Min(a: int, b: int): int {
    if a <= b then a else b
  }

  /** The digit runs and separators found by `DateTokenAt` form a date token. */
  lemma DateTokenSlice(s: string, q: nat, a: nat, b: nat, c: nat, d: nat)
    requires q < a < b < d <= c <= |s|
    requires a - q <= 4 && a + 2 <= b <= a + 3 && b + 3 <= d <= b + 5
    requires AllIn(s[q..a], Digit) && IsDateSep(s[a])
    requires AllIn(s[a + 1..b], Digit) && IsDateSep(s[b])
    requires AllIn(s[b + 1..c], Digit)
    ensures IsDateToken(s[q..d])
  {
    var v := s[q..d];
    SubSlice(s, q, d, 0, a - q);
    SubSlice(s, q, d, a - q + 1, b - q);
    SubSlice(s, q, d, b - q + 1, d - q);
    AllInSub(s, b + 1, c, b + 1, d, Digit);
    assert v[a - q] == s[a] && v[b - q] == s[b];
    assert DateShape(v, a - q, b - q);
  }

  /** `\d{1,4}[-/.]\d{1,2}[-/.]\d{2,4}` at `q`. A `\d{1,4}` or `\d{1,2}` group
      can be followed by a separator only when it took its whole digit run,
      so a run that is too long fails; the last group takes at most four
      digits of its run. */
  function DateTokenAt(s: string, q: nat): (r: Option<string>)
    requires q <= |s|
    ensures r.Some? ==> OccursAt(s, r.value, q) && IsDateToken(r.value)
  {
    var a := RunEnd(s, q, Digit);
    if 1 <= a - q <= 4 && a < |s| && IsDateSep(s[a]) then
      var b := RunEnd(s, a + 1, Digit);
      if 1 <= b - (a + 1) <= 2 && b < |s| && IsDateSep(s[b]) then
        var c := RunEnd(s, b + 1, Digit);
        if c - (b + 1) >= 2 then
          var d := Min(c, b + 5);
          assert b + 3 <= d <= c;
          var v := s[q..d];
          DateTokenSlice(s, q, a, b, c, d);
          Some(v)
        else None
      else None
    else None
  }

  /** `[0-9,]+(?:\.[0-9]{1,2})?` at `q`, both parts greedy. */
  function AmountAt(s: string, q: nat): (r: Option<string>)
    requires q <= |s|
    ensures r.Some? ==> OccursAt(s, r.value, q) && IsAmount(r.value)
    ensures r.None? <==> q == |s| || !InClass(s[q], Amount)
  {
    var e := RunEnd(s, q, Amount);
    if e == q then None
    else if e + 1 < |s| && s[e] == '.' && IsDigit(s[e + 1]) then
      var d := if e + 2 < |s| && IsDigit(s[e + 2]) then e + 3 else e + 2;
      AmountWithCents(s, q, e, d);
      Some(s[q..d])
    else
      var v := s[q..e];
      assert v[..e - q] == v;
      Some(v)
  }

  /** An integer part `s[q..e]`, a dot and one or two digits up to `d`
      form an amount. */
  lemma AmountWithCents(s: string, q: nat, e: nat, d: nat)
    requires q < e && e + 2 <= d <= e + 3 && d <= |s|
    requires AllIn(s[q..e], Amount) && s[e] == '.' && AllIn(s[e + 1..d], Digit)
    ensures IsAmount(s[q..d])
  {
    var v := s[q..d];
    SubSlice(s, q, d, 0, e - q);
    SubSlice(s, q, d, e - q + 1, d - q);
    assert v[..e - q] == v[0..e - q];
    assert v[e - q + 1..] == v[e - q + 1..d - q];
    assert v[e - q] == s[e];
  }

  function ValueAt(f: Field, s: string, q: nat): (r: Option<string>)
    requires q <= |s|
    ensures r.Some? ==> OccursAt(s, r.value, q) && IsValue(f, r.value)
  {
    match f
    case InvoiceNumber => InvoiceNumberAt(s, q)
    case Date => DateTokenAt(s, q)
    case DueDate => DateTokenAt(s, q)
    case Total => AmountAt(s, q)
  }

  /** The separator and value after a label that ends at `e`. */
  function CaptureAt(f: Field, s: string, e: nat): (r: Option<Hit>)
    requires e <= |s|
    ensures r.Some? ==> e <= r.value.at <= |s| && IsSeparator(f, s[e..r.value.at])
    ensures r.Some? ==> OccursAt(s, r.value.value, r.value.at) && IsValue(f, r.value.value)
  {
    var q := ValueStart(f, s, e);
    match ValueAt(f, s, q)
    case Some(v) => Some(Hit(q, v))
    case None => None
  }

  /** The first label end in `ends` whose separator and value match. */
  function FirstCapture(f: Field, s: string, ends: seq<nat>): (r: Option<Hit>)
    requires forall i :: 0 <= i < |ends| ==> ends[i] <= |s|
    ensures r.Some? ==> exists i :: 0 <= i < |ends| && CaptureAt(f, s, ends[i]) == r
    ensures r.Some? ==> exists i :: (0 <= i < |ends| && CaptureAt(f, s, ends[i]) == r
        && forall j :: 0 <= j < i ==> CaptureAt(f, s, ends[j]).None?)
    ensures r.None? <==> forall i :: 0 <= i < |ends| ==> CaptureAt(f, s, ends[i]).None?
  {
    if ends == [] then None
    else
      match CaptureAt(f, s, ends[0])
      case Some(h) => Some(h)
      case None =>
        var r := FirstCapture(f, s, ends[1..]);
        if r.Some? then
          var i :| 0 <= i < |ends[1..]| && CaptureAt(f, s, ends[1..][i]) == r
            && forall j :: 0 <= j < i ==> CaptureAt(f, s, ends[1..][j]).None?;
          assert CaptureAt(f, s, ends[i + 1]) == r;
          assert forall j :: 0 <= j < i + 1 ==> CaptureAt(f, s, ends[j]).None? by {
            forall j | 0 <= j < i + 1
              ensures CaptureAt(f, s, ends[j]).None?
            {
              if j > 0 {
                assert ends[j] == ends[1..][j - 1];
              }
            }
          }
          r
        else
          assert forall i :: 0 <= i < |ends| ==> CaptureAt(f, s, ends[i]).None? by {
            forall i | 0 <= i < |ends|
              ensures CaptureAt(f, s, ends[i]).None?
            {
              if i > 0 {
                assert ends[i] == ends[1..][i - 1];
              }
            }
          }
          r
  }

  /** The pattern of `f` tried at position `p` only. */
  function MatchAt(f: Field, s: string, p: nat): (r: Option<Hit>)
    requires p <= |s|
    ensures r.Some? ==> p <= r.value.at <= |s|
    ensures r.Some? ==> OccursAt(s, r.value.value, r.value.at) && IsValue(f, r.value.value)
  {
    var ends := LabelEnds(f, s, p);
    assert forall i :: 0 <= i < |ends| ==> ends[i] in ends;
    var r := FirstCapture(f, s, ends);
    if r.Some? then
      var i :| 0 <= i < |ends| && CaptureAt(f, s, ends[i]) == r;
      assert ends[i] in ends;
      r
    else r
  }

  /** A value `v` sits at index `q` of `s`, after a label of `f` that spans
      `s[p..e]` and a separator spanning `s[e..q]`. */
  predicate LabelledAt(f: Field, s: string, p: nat, e: nat, q: nat, v: string) {
    && p <= e <= q && q + |v| <= |s|
    && IsLabel(f, s[p..e]) && IsSeparator(f, s[e..q]) && s[q..q + |v|] == v
  }

  /** A match at `p` is a label starting at `p`, then a separator, then the
      captured value. */
  lemma MatchAtSound(f: Field, s: string, p: nat)
    requires p <= |s| && MatchAt(f, s, p).Some?
    ensures var h := MatchAt(f, s, p).value;
      exists e :: LabelledAt(f, s, p, e, h.at, h.value)
  {
    var ends := LabelEnds(f, s, p);
    var h := MatchAt(f, s, p).value;
    var i :| 0 <= i < |ends| && CaptureAt(f, s, ends[i]) == Some(h);
    var e := ends[i];
    assert p <= e <= |s| && IsLabel(f, s[p..e]) by {
      assert e in ends;
    }
    CaptureLabelled(f, s, p, e, h);
  }

  lemma CaptureLabelled(f: Field, s: string, p: nat, e: nat, h: Hit)
    requires p <= e <= |s| && IsLabel(f, s[p..e]) && CaptureAt(f, s, e) == Some(h)
    ensures LabelledAt(f, s, p, e, h.at, h.value)
  {
  }

  /** The result of trying the pattern of `f` at every start position of
      `s`, in order. */
  function Attempts(f: Field, s: string): (r: seq<Option<Hit>>)
    ensures |r| == |s| + 1
    ensures forall p :: 0 <= p <= |s| ==> r[p] == MatchAt(f, s, p)
  {
    seq(|s| + 1, p requires 0 <= p <= |s| => MatchAt(f, s, p))
  }

  /** The first index at or after `from` holding a `Some`. */
  function FirstSome<T>(ms: seq<Option<T>>, from: nat): (r: Option<nat>)
    ensures r.Some? ==> from <= r.value < |ms| && ms[r.value].Some?
    ensures r.Some? ==> forall p :: from <= p < r.value ==> ms[p].None?
    ensures r.None? <==> forall p :: from <= p < |ms| ==> ms[p].None?
    decreases |ms| - from
  {
    if from >= |ms| then None
    else if ms[from].Some? then Some(from)
    else FirstSome(ms, from + 1)
  }

  /** `s.match(pattern)`: the leftmost position where the pattern matches,
      and the first match there. */
  function Search(f: Field, s: string): (r: Option<Found>)
    ensures r.Some? ==> r.value.start <= |s| && MatchAt(f, s, r.value.start) == Some(r.value.hit)
    ensures r.Some? ==> forall p :: 0 <= p < r.value.start ==> MatchAt(f, s, p).None?
    ensures r.None? <==> forall p :: 0 <= p <= |s| ==> MatchAt(f, s, p).None?
  {
    var ms := Attempts(f, s);
    match FirstSome(ms, 0)
    case Some(p) => Some(Found(p, ms[p].value))
    case None => None
  }

  /** The pattern of `f` matches at `p` with hit `h`, and at no earlier
      position. */
  predicate LeftmostMatchAt(f: Field, s: string, p: nat, h: Hit) {
    p <= |s| && MatchAt(f, s, p) == Some(h) && forall p' :: 0 <= p' < p ==> MatchAt(f, s, p').None?
  }

  /** The captured group of `s.match(pattern)`, `None` when there is no match. */
  function FieldValue(f: Field, s: string): (r: Option<string>)
    ensures r.Some? ==> IsValue(f, r.value)
    ensures r.Some? ==> exists p: nat, q: nat :: p <= q <= |s| && MatchAt(f, s, p) == Some(Hit(q, r.value))
    ensures r.Some? ==> exists p: nat, q: nat :: LeftmostMatchAt(f, s, p, Hit(q, r.value))
    ensures r.None? <==> forall p :: 0 <= p <= |s| ==> MatchAt(f, s, p).None?
  {
    match Search(f, s)
    case Some(found) =>
      assert LeftmostMatchAt(f, s, found.start, Hit(found.hit.at, found.hit.value));
      Some(found.hit.value)
    case None => None
  }
}

/** Properties of the field matchers. */
module MatcherFacts {

  import opened Wrappers
  import opened Text
  import opened Matchers

  /** Every extracted value is the value part of a label-separator-value
      occurrence in the text, and has its field's shape. */
  lemma FieldValueSound(f: Field, s: string)
    requires FieldValue(f, s).Some?
    ensures IsValue(f, FieldValue(f, s).value)
    ensures exists p, e, q :: LabelledAt(f, s, p, e, q, FieldValue(f, s).value)
  {
    var found := Search(f, s).value;
    var p := found.start;
    MatchAtSound(f, s, p);
  }

  /** A run of class characters from `x` reaches at least `y`. */
  lemma RunEndCovers(s: string, x: nat, y: nat, cls: CharClass)
    requires x <= y <= |s| && AllIn(s[x..y], cls)
    ensures RunEnd(s, x, cls) >= y
  {
    assert forall k :: x <= k < y ==> InClass(s[k], cls) by {
      forall k | x <= k < y
        ensures InClass(s[k], cls)
      {
        assert s[x..y][k - x] == s[k];
      }
    }
  }

  /** `DateTokenAt` succeeds on digit groups and separators laid out as a
      date token in `s[q..n]`, with the separators at `a` and `b`. */
  lemma DateTokenAtGroups(s: string, q: nat, a: nat, b: nat, n: nat)
    requires q < a < b < n <= |s|
    requires a - q <= 4 && a + 2 <= b <= a + 3 && b + 3 <= n <= b + 5
    requires AllIn(s[q..a], Digit) && IsDateSep(s[a])
    requires AllIn(s[a + 1..b], Digit) && IsDateSep(s[b])
    requires AllIn(s[b + 1..n], Digit)
    ensures DateTokenAt(s, q).Some?
    ensures |DateTokenAt(s, q).value| >= n - q
  {
    assert !InClass(s[a], Digit) && !InClass(s[b], Digit);
    RunEndExact(s, q, a, Digit);
    RunEndExact(s, a + 1, b, Digit);
    RunEndCovers(s, b + 1, n, Digit);
    var c := RunEnd(s, b + 1, Digit);
    assert Min(c, b + 5) >= n;
    DateTokenAtValue(s, q, a, b, c);
  }

  /** What `DateTokenAt` reads once its three digit runs are known. */
  lemma DateTokenAtValue(s: string, q: nat, a: nat, b: nat, c: nat)
    requires q < a < b < c <= |s|
    requires a - q <= 4 && a + 2 <= b <= a + 3 && b + 3 <= c
    requires IsDateSep(s[a]) && IsDateSep(s[b])
    requires RunEnd(s, q, Digit) == a && RunEnd(s, a + 1, Digit) == b && RunEnd(s, b + 1, Digit) == c
    ensures DateTokenAt(s, q) == Some(s[q..Min(c, b + 5)])
  {
  }

  /** The separator positions of a date token found in `s[q..n]`. */
  lemma DateTokenSeparators(s: string, q: nat, n: nat) returns (a: nat, b: nat)
    requires q <= n <= |s| && IsDateToken(s[q..n])
    ensures q < a < b < n
    ensures a - q <= 4 && a + 2 <= b <= a + 3 && b + 3 <= n <= b + 5
    ensures AllIn(s[q..a], Digit) && IsDateSep(s[a])
    ensures AllIn(s[a + 1..b], Digit) && IsDateSep(s[b])
    ensures AllIn(s[b + 1..n], Digit)
  {
    var a', b' :| 1 <= a' <= 4 && a' + 2 <= b' <= a' + 3 && DateShape(s[q..n], a', b');
    assert b' + 3 <= n - q <= b' + 5;
    a, b := q + a', q + b';
    SubSlice(s, q, n, 0, a');
    SubSlice(s, q, n, a' + 1, b');
    SubSlice(s, q, n, b' + 1, n - q);
    assert s[q..n][a'] == s[a] && s[q..n][b'] == s[b];
  }

  /** The date reader misses no date token: whenever some prefix of the
      text from `q` is a date token, `DateTokenAt` succeeds there, and what
      it reads is at least as long as that prefix. */
  lemma DateTokenAtComplete(s: string, q: nat, n: nat)
    requires q <= n <= |s| && IsDateToken(s[q..n])
    ensures DateTokenAt(s, q).Some?
    ensures |DateTokenAt(s, q).value| >= n - q
  {
    var a, b := DateTokenSeparators(s, q, n);
    DateTokenAtGroups(s, q, a, b, n);
  }

  /** A two-group token such as `2024-1` is not a date token. */
  lemma TwoGroupsIsNotDate()
    ensures !IsDateToken("2024-1")
  {
  }

  /** A date token is between 6 and 12 characters long. */
  lemma DateTokenShape(v: string)
    requires IsDateToken(v)
    ensures 6 <= |v| <= 12
  {
  }

  /** No calendar check is made: month 99 of day 99 is a date token. */
  lemma NoCalendarCheck()
    ensures IsDateToken("99/99/9999")
  {
    assert DateShape("99/99/9999", 2, 5);
  }

  /** An amount holds only digits, commas and at most one dot, so a currency
      symbol the pattern skips is never part of it. */
  lemma AmountHasNoSymbol(v: string)
    requires IsAmount(v)
    ensures forall i :: 0 <= i < |v| ==> IsDigit(v[i]) || v[i] == ',' || v[i] == '.'
    ensures forall i :: 0 <= i < |v| ==> !IsCurrencySymbol(v[i])
    ensures forall i, j :: 0 <= i < j < |v| && v[i] == '.' ==> v[j] != '.'
  {
    var k :| 1 <= k <= |v| && AllIn(v[..k], Amount)
      && (k == |v| || (v[k] == '.' && 2 <= |v| - k <= 3 && AllIn(v[k + 1..], Digit)));
    forall i | 0 <= i < |v|
      ensures (IsDigit(v[i]) || v[i] == ',' || v[i] == '.') && (v[i] == '.' ==> i == k)
    {
      if i < k {
        assert v[..k][i] == v[i];
      } else if i > k {
        assert v[k + 1..][i - k - 1] == v[i];
      }
    }
  }

  /** The label ends of the due-date pattern: `due`, whitespace, `date`. */
  lemma DueDateEnds(s: string, p: nat) returns (j: nat)
    requires p <= |s|
    ensures p <= j <= |s|
    ensures LabelEnds(DueDate, s, p) == [] || (LitCiAt(s, j, "date") && LabelEnds(DueDate, s, p) == [j + 4])
  {
    j := p;
    var alts := Alternatives(DueDate);
    assert alts == [Phrase("due", ["date"])];
    assert AltsEnds(s, p, alts) == AltEnds(s, p, alts[0]) + AltsEnds(s, p, alts[1..]);
    assert alts[1..] == [];
    if LitCiAt(s, p, "due") {
      j := SkipWs(s, p + 3);
      var tails: seq<string> := ["date"];
      assert WordEnds(s, j, tails) == (if LitCiAt(s, j, "date") then [j + 4] else []) + WordEnds(s, j, tails[1..]);
      assert tails[1..] == [];
    }
  }

  /** At a position holding the word `date`, the date pattern first tries
      the label ending right after it. */
  lemma DateEndsAtWord(s: string, j: nat)
    requires j <= |s| && LitCiAt(s, j, "date")
    ensures |LabelEnds(Date, s, j)| > 0 && LabelEnds(Date, s, j)[0] == j + 4
  {
    var alts := Alternatives(Date);
    assert alts == [Word("date"), Word("dated")];
    assert AltsEnds(s, j, alts) == AltEnds(s, j, alts[0]) + AltsEnds(s, j, alts[1..]);
  }

  /** At a position holding the word `total`, the total pattern first
      tries the label ending right after it. */
  lemma TotalEndsAtWord(s: string, p: nat)
    requires p <= |s| && LitCiAt(s, p, "total")
    ensures |LabelEnds(Total, s, p)| > 0 && LabelEnds(Total, s, p)[0] == p + 5
  {
    var alts := Alternatives(Total);
    assert AltsEnds(s, p, alts) == AltEnds(s, p, alts[0]) + AltsEnds(s, p, alts[1..]);
  }

  /** The `total` alternative needs no word boundary, so the `total` inside
      `Subtotal` is a label: the leftmost `total` whose value reads, with no
      match of the total pattern before it, supplies the total. */
  lemma LeftmostTotalWins(s: string, p: nat)
    requires p <= |s| && LitCiAt(s, p, "total") && CaptureAt(Total, s, p + 5).Some?
    requires forall q :: 0 <= q < p ==> MatchAt(Total, s, q).None?
    ensures FieldValue(Total, s) == Some(CaptureAt(Total, s, p + 5).value.value)
  {
    TotalEndsAtWord(s, p);
    var ends := LabelEnds(Total, s, p);
    assert forall i :: 0 <= i < |ends| ==> ends[i] <= |s| by {
      assert forall i :: 0 <= i < |ends| ==> ends[i] in ends;
    }
    FirstCaptureHead(Total, s, ends);
    assert MatchAt(Total, s, p).Some?;
    assert Search(Total, s).value.start == p;
  }

  lemma FirstCaptureHead(f: Field, s: string, ends: seq<nat>)
    requires |ends| > 0 && forall i :: 0 <= i < |ends| ==> ends[i] <= |s|
    requires CaptureAt(f, s, ends[0]).Some?
    ensures FirstCapture(f, s, ends) == CaptureAt(f, s, ends[0])
  {
  }

  /** The date and due-date patterns read the same separator and value. */
  lemma SameDateCapture(s: string, e: nat)
    requires e <= |s|
    ensures CaptureAt(Date, s, e) == CaptureAt(DueDate, s, e)
  {
    assert ValueStart(Date, s, e) == ValueStart(DueDate, s, e);
  }

  /** The due-date pattern never matches where the date pattern cannot: the
      word "date" inside a due-date match starts a date match with the same
      value. */
  lemma DueDateMatchHasDateMatch(s: string, p: nat) returns (j: nat)
    requires p <= |s| && MatchAt(DueDate, s, p).Some?
    ensures p <= j <= |s| && MatchAt(Date, s, j) == MatchAt(DueDate, s, p)
  {
    j := DueDateEnds(s, p);
    DueDateMatchIsCapture(s, p, j);
    SameDateCapture(s, j + 4);
    DateMatchAtWord(s, j);
  }

  lemma DueDateMatchIsCapture(s: string, p: nat, j: nat)
    requires p <= j <= |s| && MatchAt(DueDate, s, p).Some?
    requires LabelEnds(DueDate, s, p) == [] || (LitCiAt(s, j, "date") && LabelEnds(DueDate, s, p) == [j + 4])
    ensures LitCiAt(s, j, "date") && MatchAt(DueDate, s, p) == CaptureAt(DueDate, s, j + 4)
  {
    var ends := LabelEnds(DueDate, s, p);
    assert ends != [];
    assert ends == [j + 4];
    assert FirstCapture(DueDate, s, ends).Some?;
    FirstCaptureHead(DueDate, s, ends);
  }

  lemma DateMatchAtWord(s: string, j: nat)
    requires j <= |s| && LitCiAt(s, j, "date") && CaptureAt(Date, s, j + 4).Some?
    ensures MatchAt(Date, s, j) == CaptureAt(Date, s, j + 4)
  {
    DateEndsAtWord(s, j);
    var dateEnds := LabelEnds(Date, s, j);
    assert forall i :: 0 <= i < |dateEnds| ==> dateEnds[i] <= |s| by {
      assert forall i :: 0 <= i < |dateEnds| ==> dateEnds[i] in dateEnds;
    }
    FirstCaptureHead(Date, s, dateEnds);
  }

  /** Whenever a due date is found a date is found too, no later than the
      word "date" of the due-date label. */
  lemma DueDateImpliesDate(s: string)
    requires Search(DueDate, s).Some?
    ensures Search(Date, s).Some?
    ensures exists j :: (Search(DueDate, s).value.start <= j <= |s|
      && MatchAt(Date, s, j) == MatchAt(DueDate, s, Search(DueDate, s).value.start)
      && Search(Date, s).value.start <= j)
  {
    var p := Search(DueDate, s).value.start;
    var j := DueDateMatchHasDateMatch(s, p);
    assert MatchAt(Date, s, j).Some?;
  }
}

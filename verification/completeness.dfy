/** Completeness of the field matchers against their declarative grammar:
    whenever the text holds a label of a field, a separator and a value of
    the field's shape, the matcher succeeds at the label's start, so the
    field is found there or earlier. With the soundness lemmas of
    `Matchers` and `MatcherFacts` this makes "found" and "labelled value
    occurs" the same thing. */
module MatcherCompleteness {

  import opened Wrappers
  import opened Text
  import opened Matchers
  import opened MatcherFacts
  import opened AlternativeOrder

  // ----- Values -----

  /** The amount reader misses no amount: whenever some prefix of the text
      from `q` is an amount, `AmountAt` succeeds there and reads at least
      that much, so it reads the longest amount at `q`. */
  lemma AmountAtComplete(s: string, q: nat, n: nat)
    requires q <= n <= |s| && IsAmount(s[q..n])
    ensures AmountAt(s, q).Some?
    ensures |AmountAt(s, q).value| >= n - q
  {
    var v := s[q..n];
    var k :| 1 <= k <= |v| && AllIn(v[..k], Amount)
      && (k == |v| || (v[k] == '.' && 2 <= |v| - k <= 3 && AllIn(v[k + 1..], Digit)));
    AmountSplitAt(s, q, n, k);
  }

  /** The amount reader reaches `n` when the integer part of `s[q..n]` ends
      at `q + k`. */
  lemma AmountSplitAt(s: string, q: nat, n: nat, k: nat)
    requires q <= n <= |s| && 1 <= k <= n - q && AllIn(s[q..n][..k], Amount)
    requires k == n - q || (s[q..n][k] == '.' && 2 <= n - q - k <= 3 && AllIn(s[q..n][k + 1..], Digit))
    ensures AmountAt(s, q).Some? && |AmountAt(s, q).value| >= n - q
  {
    var v := s[q..n];
    SubSlice(s, q, n, 0, k);
    RunEndCovers(s, q, q + k, Amount);
    if k == |v| {
      AmountIntegerOnly(s, q, n);
    } else {
      assert s[q + k] == v[k];
      RunEndExact(s, q, q + k, Amount);
      assert s[q + k + 1] == v[k + 1..][0];
      assert |v| - k == 3 ==> s[q + k + 2] == v[k + 1..][1];
      AmountTail(s, q, q + k, n);
    }
  }

  /** When the integer part reaches `n`, the amount read reaches `n`. */
  lemma AmountIntegerOnly(s: string, q: nat, n: nat)
    requires q < n <= |s| && RunEnd(s, q, Amount) >= n
    ensures AmountAt(s, q).Some? && |AmountAt(s, q).value| >= n - q
  {
  }

  /** When the integer part ends at `e` and a dot with one or two digits
      follows up to `n`, the amount read reaches `n`. */
  lemma AmountTail(s: string, q: nat, e: nat, n: nat)
    requires q < e && e + 2 <= n <= e + 3 && n <= |s|
    requires RunEnd(s, q, Amount) == e && s[e] == '.' && IsDigit(s[e + 1])
    requires n == e + 3 ==> IsDigit(s[e + 2])
    ensures AmountAt(s, q).Some? && |AmountAt(s, q).value| >= n - q
  {
  }

  /** The invoice-number reader misses no identifier of three or more
      characters and reads at least as far. */
  lemma InvoiceNumberAtComplete(s: string, q: nat, n: nat)
    requires q <= n <= |s| && IsInvoiceNumber(s[q..n])
    ensures InvoiceNumberAt(s, q).Some?
    ensures |InvoiceNumberAt(s, q).value| >= n - q
  {
    RunEndCovers(s, q, n, Ident);
  }

  /** Each field's value reader misses no value of the field's shape. */
  lemma ValueAtComplete(f: Field, s: string, q: nat, n: nat)
    requires q <= n <= |s| && IsValue(f, s[q..n])
    ensures ValueAt(f, s, q).Some?
    ensures |ValueAt(f, s, q).value| >= n - q
  {
    match f
    case InvoiceNumber => InvoiceNumberAtComplete(s, q, n);
    case Date => DateTokenAtComplete(s, q, n);
    case DueDate => DateTokenAtComplete(s, q, n);
    case Total => AmountAtComplete(s, q, n);
  }

  /** A value of any field starts with a character that no separator can
      consume: not whitespace, not `:` or `.`, not a currency symbol. */
  lemma ValueStartsSolid(f: Field, v: string)
    requires IsValue(f, v)
    ensures |v| > 0 && !IsWhitespace(v[0]) && !IsPunct(v[0]) && !IsCurrencySymbol(v[0])
  {
    match f
    case InvoiceNumber =>
      assert InClass(v[0], Ident);
    case Total =>
      var k :| 1 <= k <= |v| && AllIn(v[..k], Amount)
        && (k == |v| || (v[k] == '.' && 2 <= |v| - k <= 3 && AllIn(v[k + 1..], Digit)));
      assert v[..k][0] == v[0];
    case _ =>
      var a, b :| 1 <= a <= 4 && a + 2 <= b <= a + 3 && DateShape(v, a, b);
      assert v[0..a][0] == v[0];
  }

  // ----- Separators -----

  /** The greedy path through `\s*[:.]?\s*` stops exactly where a separator
      of that form ends, when the next character can be neither. */
  lemma PunctSepEnd(s: string, e: nat, q: nat)
    requires e <= q < |s| && IsPunctSep(s[e..q])
    requires !IsWhitespace(s[q]) && !IsPunct(s[q])
    ensures SkipWs(s, OptPunct(s, SkipWs(s, e))) == q
  {
    var w := s[e..q];
    if AllIn(w, Space) {
      SpaceOnlySepEnd(s, e, q);
    } else {
      var j :| 0 <= j < |w| && AllIn(w[..j], Space) && IsPunct(w[j]) && AllIn(w[j + 1..], Space);
      PunctSepAtEnd(s, e, q, j);
    }
  }

  /** A separator of whitespace only. */
  lemma SpaceOnlySepEnd(s: string, e: nat, q: nat)
    requires e <= q < |s| && AllIn(s[e..q], Space)
    requires !IsWhitespace(s[q]) && !IsPunct(s[q])
    ensures SkipWs(s, OptPunct(s, SkipWs(s, e))) == q
  {
    RunEndExact(s, e, q, Space);
    assert OptPunct(s, q) == q;
    assert AllIn(s[q..q], Space);
    RunEndExact(s, q, q, Space);
  }

  /** A separator whose punctuation sits at `e + j`. */
  lemma PunctSepAtEnd(s: string, e: nat, q: nat, j: nat)
    requires e + j < q < |s|
    requires AllIn(s[e..q][..j], Space) && IsPunct(s[e..q][j]) && AllIn(s[e..q][j + 1..], Space)
    requires !IsWhitespace(s[q])
    ensures SkipWs(s, OptPunct(s, SkipWs(s, e))) == q
  {
    SpacePrefix(s, e, q, j);
    SpaceSuffix(s, e, q, j + 1);
    assert s[e + j] == s[e..q][j];
    RunEndExact(s, e, e + j, Space);
    assert OptPunct(s, e + j) == e + j + 1;
    RunEndExact(s, e + j + 1, q, Space);
  }

  lemma SpacePrefix(s: string, e: nat, q: nat, k: nat)
    requires e <= q <= |s| && k <= q - e && AllIn(s[e..q][..k], Space)
    ensures AllIn(s[e..e + k], Space)
  {
    assert s[e..q][..k] == s[e..e + k];
  }

  /** The separator read after a label ends at `e` is any separator that is
      followed by the first character of a value: the greedy path loses
      none of them. */
  lemma SeparatorEnd(f: Field, s: string, e: nat, q: nat)
    requires e <= q < |s| && IsSeparator(f, s[e..q])
    requires !IsWhitespace(s[q]) && !IsPunct(s[q]) && !IsCurrencySymbol(s[q])
    ensures ValueStart(f, s, e) == q
  {
    var w := s[e..q];
    if f != Total || IsPunctSep(w) {
      PunctSepEnd(s, e, q);
      ValueStartPlain(f, s, e, q);
    } else {
      var k' :| 0 <= k' < |w| && IsPunctSep(w[..k']) && IsCurrencySymbol(w[k']) && AllIn(w[k' + 1..], Space);
      SymbolSepEnd(s, e, q, k');
    }
  }

  /** The total's separator with a currency symbol at `e + k`. */
  lemma SymbolSepEnd(s: string, e: nat, q: nat, k: nat)
    requires e + k < q < |s|
    requires IsPunctSep(s[e..q][..k]) && IsCurrencySymbol(s[e..q][k]) && AllIn(s[e..q][k + 1..], Space)
    requires !IsWhitespace(s[q])
    ensures ValueStart(Total, s, e) == q
  {
    assert s[e + k] == s[e..q][k];
    PunctSepPrefix(s, e, q, k);
    SpaceSuffix(s, e, q, k + 1);
    PunctSepEnd(s, e, e + k);
    RunEndExact(s, e + k + 1, q, Space);
    ValueStartSymbol(s, e, e + k, q);
  }

  lemma PunctSepPrefix(s: string, e: nat, q: nat, k: nat)
    requires e <= q <= |s| && k <= q - e && IsPunctSep(s[e..q][..k])
    ensures IsPunctSep(s[e..e + k])
  {
    assert s[e..q][..k] == s[e..e + k];
  }

  lemma SpaceSuffix(s: string, e: nat, q: nat, k: nat)
    requires e <= q <= |s| && k <= q - e && AllIn(s[e..q][k..], Space)
    ensures AllIn(s[e + k..q], Space)
  {
    assert s[e..q][k..] == s[e + k..q];
  }

  /** The value start when no currency symbol follows the punctuation. */
  lemma ValueStartPlain(f: Field, s: string, e: nat, q: nat)
    requires e <= q < |s| && SkipWs(s, OptPunct(s, SkipWs(s, e))) == q
    requires !IsWhitespace(s[q]) && !IsCurrencySymbol(s[q])
    ensures ValueStart(f, s, e) == q
  {
    if f == Total {
      assert OptSymbol(s, q) == q;
      assert AllIn(s[q..q], Space);
      RunEndExact(s, q, q, Space);
    }
  }

  /** The value start of the total when a currency symbol sits at `k`. */
  lemma ValueStartSymbol(s: string, e: nat, k: nat, q: nat)
    requires e <= k < q <= |s| && SkipWs(s, OptPunct(s, SkipWs(s, e))) == k
    requires IsCurrencySymbol(s[k]) && SkipWs(s, k + 1) == q
    ensures ValueStart(Total, s, e) == q
  {
    assert OptSymbol(s, k) == k + 1;
  }

  // ----- Labels -----

  /** A literal of `words` at `j` is listed among the word ends there. */
  lemma {:induction false} WordEndsComplete(s: string, j: nat, words: seq<string>, t: string)
    requires t in words && LitCiAt(s, j, t)
    ensures j + |t| in WordEnds(s, j, words)
  {
    if words[0] != t {
      WordEndsComplete(s, j, words[1..], t);
    }
  }

  /** A word that begins with a character no whitespace folds to, so the
      greedy `\s*` before it never eats into it. */
  predicate SolidStart(t: string) {
    |t| > 0 && !IsWhitespace(Lower(t[0]))
  }

  /** Every tail of a phrase alternative starts solid. */
  predicate SolidAlt(a: Alt) {
    a.Phrase? ==> forall t :: t in a.tails ==> SolidStart(t)
  }

  /** Any span of `head\s*(?:tails...)` at `p` is listed among the phrase ends. */
  lemma PhraseEndsComplete(s: string, p: nat, e: nat, head: string, tails: seq<string>)
    requires p <= e <= |s| && WordsApart(s[p..e], head, tails)
    requires forall t :: t in tails ==> SolidStart(t)
    ensures e in PhraseEnds(s, p, head, tails)
  {
    var j, t := PhraseParts(s, p, e, head, tails);
    assert SolidStart(t);
    PhraseEndsFrom(s, p, j, e, head, tails, t);
  }

  /** The phrase end found from its parts: head at `p`, whitespace up to
      `j`, tail `t` at `j`. */
  lemma PhraseEndsFrom(s: string, p: nat, j: nat, e: nat, head: string, tails: seq<string>, t: string)
    requires LitCiAt(s, p, head) && p + |head| <= j <= |s|
    requires AllIn(s[p + |head|..j], Space)
    requires t in tails && LitCiAt(s, j, t) && SolidStart(t) && e == j + |t|
    ensures e in PhraseEnds(s, p, head, tails)
  {
    SolidAt(s, j, t);
    RunEndExact(s, p + |head|, j, Space);
    WordEndsComplete(s, j, tails, t);
    InPhraseEnds(s, p, j, e, head, tails);
  }

  /** An end listed for the tails after the head's whitespace is a phrase end. */
  lemma InPhraseEnds(s: string, p: nat, j: nat, e: nat, head: string, tails: seq<string>)
    requires p <= |s| && LitCiAt(s, p, head) && SkipWs(s, p + |head|) == j
    requires e in WordEnds(s, j, tails)
    ensures e in PhraseEnds(s, p, head, tails)
  {
    PhraseEndsAt(s, p, head, tails);
  }

  /** A word that starts solid is not preceded by whitespace it could be
      confused with: where it occurs, the first character is no whitespace. */
  lemma SolidAt(s: string, j: nat, t: string)
    requires LitCiAt(s, j, t) && SolidStart(t)
    ensures j < |s| && !IsWhitespace(s[j])
  {
    assert s[j..j + |t|][0] == s[j];
    assert Lower(s[j]) == Lower(t[0]);
  }

  /** The phrase ends once the head is found: the word ends after the
      greedy whitespace. */
  lemma PhraseEndsAt(s: string, p: nat, head: string, tails: seq<string>)
    requires p <= |s| && LitCiAt(s, p, head)
    ensures PhraseEnds(s, p, head, tails) == WordEnds(s, SkipWs(s, p + |head|), tails)
  {
  }

  /** The head, the whitespace up to `j` and the tail `t` of a phrase span. */
  lemma PhraseParts(s: string, p: nat, e: nat, head: string, tails: seq<string>) returns (j: nat, t: string)
    requires p <= e <= |s| && WordsApart(s[p..e], head, tails)
    ensures LitCiAt(s, p, head) && p + |head| <= j <= e
    ensures AllIn(s[p + |head|..j], Space)
    ensures t in tails && LitCiAt(s, j, t) && e == j + |t|
  {
    var w := s[p..e];
    var h := |head|;
    HeadAt(s, p, e, head);
    var j' :| h <= j' <= |w| && AllIn(w[h..j'], Space) && OneOf(w[j'..], tails);
    j := p + j';
    SpaceAt(s, p, e, h, j');
    t := TailAt(s, p, e, j', tails);
  }

  lemma HeadAt(s: string, p: nat, e: nat, head: string)
    requires p <= e <= |s| && |head| <= e - p && CiEq(s[p..e][..|head|], head)
    ensures LitCiAt(s, p, head)
  {
    assert s[p..e][..|head|] == s[p..p + |head|];
  }

  lemma SpaceAt(s: string, p: nat, e: nat, h: nat, j': nat)
    requires p <= e <= |s| && h <= j' <= e - p && AllIn(s[p..e][h..j'], Space)
    ensures AllIn(s[p + h..p + j'], Space)
  {
    SubSlice(s, p, e, h, j');
  }

  lemma TailAt(s: string, p: nat, e: nat, j': nat, tails: seq<string>) returns (t: string)
    requires p <= e <= |s| && j' <= e - p && OneOf(s[p..e][j'..], tails)
    ensures t in tails && LitCiAt(s, p + j', t) && e == p + j' + |t|
  {
    assert s[p..e][j'..] == s[p + j'..e];
    t :| t in tails && CiEq(s[p + j'..e], t);
  }

  /** Any span of alternative `a` at `p` is listed among its ends. */
  lemma AltEndsComplete(s: string, p: nat, e: nat, a: Alt)
    requires p <= e <= |s| && AltMatches(a, s[p..e]) && SolidAlt(a)
    ensures e in AltEnds(s, p, a)
  {
    match a
    case Word(x) =>
      assert LitCiAt(s, p, x);
    case Phrase(h, ts) =>
      PhraseEndsComplete(s, p, e, h, ts);
  }

  /** Any span of one of `alts` at `p` is listed among their ends. */
  lemma {:induction false} AltsEndsComplete(s: string, p: nat, e: nat, alts: seq<Alt>, a: Alt)
    requires p <= e <= |s| && a in alts && AltMatches(a, s[p..e]) && SolidAlt(a)
    ensures e in AltsEnds(s, p, alts)
  {
    if alts[0] == a {
      AltEndsComplete(s, p, e, a);
    } else {
      AltsEndsComplete(s, p, e, alts[1..], a);
    }
  }

  /** The alternative of `f` that a label falls under. */
  lemma LabelAlternative(f: Field, w: string) returns (a: Alt)
    requires IsLabel(f, w)
    ensures a in Alternatives(f) && AltMatches(a, w) && SolidAlt(a)
  {
    match f
    case InvoiceNumber =>
      a := if WordsApart(w, "invoice", InvoiceTails) then Phrase("invoice", InvoiceTails) else Phrase("inv", InvTails);
    case Date =>
      var t :| t in ["date", "dated"] && CiEq(w, t);
      a := Word(t);
    case DueDate =>
      a := Phrase("due", ["date"]);
    case Total =>
      if OneOf(w, ["total"]) {
        var t :| t in ["total"] && CiEq(w, t);
        a := Word(t);
      } else if WordsApart(w, "grand", ["total"]) {
        a := Phrase("grand", ["total"]);
      } else if WordsApart(w, "amount", ["due"]) {
        a := Phrase("amount", ["due"]);
      } else {
        a := Phrase("balance", ["due"]);
      }
  }

  /** Every label of `f` starting at `p` is tried: its end is among the
      label ends of the pattern there. */
  lemma LabelEndsComplete(f: Field, s: string, p: nat, e: nat)
    requires p <= e <= |s| && IsLabel(f, s[p..e])
    ensures e in LabelEnds(f, s, p)
  {
    var a := LabelAlternative(f, s[p..e]);
    AltsEndsComplete(s, p, e, Alternatives(f), a);
  }

  // ----- Whole matches -----

  /** After a label ending at `e`, a separator and a value of the field's
      shape, the capture succeeds at `e` with the value starting where the
      separator ends. */
  lemma CaptureAtComplete(f: Field, s: string, e: nat, q: nat, v: string)
    requires e <= q && q + |v| <= |s| && IsSeparator(f, s[e..q]) && s[q..q + |v|] == v && IsValue(f, v)
    ensures CaptureAt(f, s, e).Some?
    ensures CaptureAt(f, s, e).value.at == q
    ensures |CaptureAt(f, s, e).value.value| >= |v|
  {
    ValueStartsSolid(f, v);
    assert s[q] == v[0];
    SeparatorEnd(f, s, e, q);
    ValueAtComplete(f, s, q, q + |v|);
  }

  /** The matcher of `f` succeeds at every position where a label of `f`,
      a separator and a value of the field's shape occur. */
  lemma MatchAtComplete(f: Field, s: string, p: nat, e: nat, q: nat, v: string)
    requires LabelledAt(f, s, p, e, q, v) && IsValue(f, v)
    ensures MatchAt(f, s, p).Some?
  {
    LabelEndsComplete(f, s, p, e);
    CaptureAtComplete(f, s, e, q, v);
    MatchAtFromEnd(f, s, p, e);
  }

  /** A label end at which the capture succeeds makes the match succeed. */
  lemma MatchAtFromEnd(f: Field, s: string, p: nat, e: nat)
    requires p <= |s| && e in LabelEnds(f, s, p) && e <= |s| && CaptureAt(f, s, e).Some?
    ensures MatchAt(f, s, p).Some?
  {
    var ends := LabelEnds(f, s, p);
    assert forall k :: 0 <= k < |ends| ==> ends[k] <= |s| by {
      assert forall k :: 0 <= k < |ends| ==> ends[k] in ends;
    }
    var i :| 0 <= i < |ends| && ends[i] == e;
    FirstCaptureSome(f, s, ends, i);
  }

  lemma FirstCaptureSome(f: Field, s: string, ends: seq<nat>, i: nat)
    requires forall k :: 0 <= k < |ends| ==> ends[k] <= |s|
    requires i < |ends| && CaptureAt(f, s, ends[i]).Some?
    ensures FirstCapture(f, s, ends).Some?
  {
  }

  /** The field is found whenever a label, a separator and a value of the
      field's shape occur in the text, and the match it comes from starts
      no later than that label. */
  lemma FieldValueComplete(f: Field, s: string, p: nat, e: nat, q: nat, v: string)
    requires LabelledAt(f, s, p, e, q, v) && IsValue(f, v)
    ensures FieldValue(f, s).Some?
    ensures Search(f, s).Some? && Search(f, s).value.start <= p
  {
    MatchAtComplete(f, s, p, e, q, v);
  }

  // ----- Greedy values and the leftmost match -----

  /** `v` occurs at `q`, has the field's shape, and no longer value of the
      field's shape starts at `q`: what a greedy group captures there. */
  predicate LongestValueAt(f: Field, s: string, q: nat, v: string) {
    && OccursAt(s, v, q) && IsValue(f, v)
    && forall n :: q <= n <= |s| && IsValue(f, s[q..n]) ==> n <= q + |v|
  }

  /** Each field's value reader returns the longest value of the field's
      shape at `q`. */
  lemma ValueAtLongest(f: Field, s: string, q: nat)
    requires q <= |s| && ValueAt(f, s, q).Some?
    ensures LongestValueAt(f, s, q, ValueAt(f, s, q).value)
  {
    forall n | q <= n <= |s| && IsValue(f, s[q..n])
      ensures n <= q + |ValueAt(f, s, q).value|
    {
      ValueAtComplete(f, s, q, n);
    }
  }

  /** The capture after a label end is the longest value of the field's
      shape where the separator ends. */
  lemma CaptureAtLongest(f: Field, s: string, e: nat)
    requires e <= |s| && CaptureAt(f, s, e).Some?
    ensures LongestValueAt(f, s, CaptureAt(f, s, e).value.at, CaptureAt(f, s, e).value.value)
  {
    ValueAtLongest(f, s, ValueStart(f, s, e));
  }

  /** A match at `p` captures the longest value of the field's shape where
      its separator ends. */
  lemma MatchAtLongest(f: Field, s: string, p: nat)
    requires p <= |s| && MatchAt(f, s, p).Some?
    ensures LongestValueAt(f, s, MatchAt(f, s, p).value.at, MatchAt(f, s, p).value.value)
  {
    var ends := LabelEnds(f, s, p);
    assert forall k :: 0 <= k < |ends| ==> ends[k] <= |s| by {
      assert forall k :: 0 <= k < |ends| ==> ends[k] in ends;
    }
    var i :| 0 <= i < |ends| && CaptureAt(f, s, ends[i]) == FirstCapture(f, s, ends);
    CaptureAtLongest(f, s, ends[i]);
  }

  /** No label of `f` starts before `p` with a separator and a value of the
      field's shape after it. */
  ghost predicate NoLabelledBefore(f: Field, s: string, p: nat) {
    forall p': nat, e: nat, q: nat, v: string :: p' < p && LabelledAt(f, s, p', e, q, v) ==> !IsValue(f, v)
  }

  lemma MatchAtIfValue(f: Field, s: string, p: nat, e: nat, q: nat, v: string)
    requires LabelledAt(f, s, p, e, q, v)
    ensures IsValue(f, v) ==> MatchAt(f, s, p).Some?
  {
    if IsValue(f, v) {
      MatchAtComplete(f, s, p, e, q, v);
    }
  }

  /** Where the pattern matches nowhere before `p`, no labelled value of the
      field's shape starts before `p` either. */
  lemma NothingLabelledBefore(f: Field, s: string, p: nat)
    requires p <= |s| && forall p' :: 0 <= p' < p ==> MatchAt(f, s, p').None?
    ensures NoLabelledBefore(f, s, p)
  {
    forall p': nat, e: nat, q: nat, v: string | p' < p && LabelledAt(f, s, p', e, q, v)
      ensures !IsValue(f, v)
    {
      MatchAtIfValue(f, s, p', e, q, v);
    }
  }

  /** Every label of `f` at `p` whose separator and value read gives `v`,
      whichever alternative of the pattern the label is. */
  ghost predicate EveryLabelGives(f: Field, s: string, p: nat, v: string) {
    forall e: nat :: p <= e <= |s| && IsLabel(f, s[p..e]) && CaptureAt(f, s, e).Some? ==>
      CaptureAt(f, s, e).value.value == v
  }

  /** The match at `p` is what every label there gives, so the order the
      alternatives are tried in does not decide the value. */
  lemma MatchAtEveryLabel(f: Field, s: string, p: nat)
    requires p <= |s| && MatchAt(f, s, p).Some?
    ensures EveryLabelGives(f, s, p, MatchAt(f, s, p).value.value)
  {
    forall e: nat | p <= e <= |s| && IsLabel(f, s[p..e]) && CaptureAt(f, s, e).Some?
      ensures CaptureAt(f, s, e).value.value == MatchAt(f, s, p).value.value
    {
      LabelEndsComplete(f, s, p, e);
      MatchAtIsAnyCapture(f, s, p, e);
    }
  }

  /** `v` is the value of a label of `f` at the leftmost position where a
      label, a separator and a value of the field's shape occur; every label
      there gives `v`; and it is the longest value of that shape where its
      separator ends. */
  ghost predicate LeftmostLabelled(f: Field, s: string, v: string) {
    exists p: nat, e: nat, q: nat ::
      && LabelledAt(f, s, p, e, q, v) && NoLabelledBefore(f, s, p)
      && EveryLabelGives(f, s, p, v) && LongestValueAt(f, s, q, v)
  }

  /** The field found comes from the leftmost labelled occurrence in the
      text and is read greedily there. */
  lemma FieldValueLeftmostLongest(f: Field, s: string)
    requires FieldValue(f, s).Some?
    ensures LeftmostLabelled(f, s, FieldValue(f, s).value)
  {
    var found := Search(f, s).value;
    var p := found.start;
    var h := found.hit;
    MatchAtSound(f, s, p);
    var e :| LabelledAt(f, s, p, e, h.at, h.value);
    NothingLabelledBefore(f, s, p);
    MatchAtLongest(f, s, p);
    MatchAtEveryLabel(f, s, p);
    assert FieldValue(f, s).value == h.value;
  }
}

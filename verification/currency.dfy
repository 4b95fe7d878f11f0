/** The currency heuristic: a case-sensitive presence scan for a symbol or
    an ISO 4217 code, in the fixed order USD, EUR, GBP. */
module Currency {

  import opened Wrappers
  import opened Text

  const Dollar: char := '$'
  const Euro: char := '\U{20AC}'
  const Pound: char := '\U{00A3}'

  /** The text mentions US dollars: `$` or `USD`. */
  predicate MentionsUsd(s: string) {
    Contains(s, [Dollar]) || Contains(s, "USD")
  }

  /** The text mentions euros: `€` or `EUR`. */
  predicate MentionsEur(s: string) {
    Contains(s, [Euro]) || Contains(s, "EUR")
  }

  /** The text mentions pounds sterling: `£` or `GBP`. */
  predicate MentionsGbp(s: string) {
    Contains(s, [Pound]) || Contains(s, "GBP")
  }

  /** The currency code chosen for a (normalised) text: the first of USD,
      EUR, GBP that the text mentions, and none when it mentions none. */
  function DetectCurrency(s: string): (r: Option<string>)
    ensures r.Some? ==> r.value == "USD" || r.value == "EUR" || r.value == "GBP"
    ensures r == Some("USD") <==> MentionsUsd(s)
    ensures r == Some("EUR") <==> !MentionsUsd(s) && MentionsEur(s)
    ensures r == Some("GBP") <==> !MentionsUsd(s) && !MentionsEur(s) && MentionsGbp(s)
    ensures r.None? <==> !MentionsUsd(s) && !MentionsEur(s) && !MentionsGbp(s)
  {
    if MentionsUsd(s) then Some("USD")
    else if MentionsEur(s) then Some("EUR")
    else if MentionsGbp(s) then Some("GBP")
    else None
  }

  /** The characters whose presence can set the currency. */
  predicate IsTriggerChar(c: char) {
    c == Dollar || c == Euro || c == Pound || c in "USDEURGBP"
  }

  /** A non-empty `t` can only occur in `s` if its first character does. */
  lemma ContainsFirst(s: string, t: string)
    requires |t| > 0 && Contains(s, t)
    ensures exists i :: 0 <= i < |s| && s[i] == t[0]
  {
    var i: nat :| i <= |s| && OccursAt(s, t, i);
    assert s[i..i + |t|][0] == s[i];
  }

  /** A text made of characters that cannot start a symbol or code, such as
      `¥`, digits or lower-case letters, gets no currency. */
  lemma NoTriggerNoCurrency(s: string)
    requires forall i :: 0 <= i < |s| ==> !IsTriggerChar(s[i])
    ensures DetectCurrency(s).None?
  {
    if Contains(s, [Dollar]) { ContainsFirst(s, [Dollar]); }
    if Contains(s, "USD") { ContainsFirst(s, "USD"); }
    if Contains(s, [Euro]) { ContainsFirst(s, [Euro]); }
    if Contains(s, "EUR") { ContainsFirst(s, "EUR"); }
    if Contains(s, [Pound]) { ContainsFirst(s, [Pound]); }
    if Contains(s, "GBP") { ContainsFirst(s, "GBP"); }
  }

  lemma LastOfOccurrence(s: string, t: string, i: nat)
    requires |t| > 0 && OccursAt(s, t, i)
    ensures s[i + |t| - 1] in t
  {
    assert s[i..i + |t|][|t| - 1] == s[i + |t| - 1];
  }

  /** Appending a character that is not in `t` neither creates nor destroys
      an occurrence of `t`. */
  lemma ContainsAppend(s: string, c: char, t: string)
    requires c !in t
    ensures Contains(s + [c], t) <==> Contains(s, t)
  {
    var s' := s + [c];
    if Contains(s', t) {
      var i: nat :| i <= |s'| && OccursAt(s', t, i);
      if |t| == 0 {
        assert OccursAt(s, t, 0);
      } else if i + |t| == |s'| {
        LastOfOccurrence(s', t, i);
        assert false;
      } else {
        assert s[i..i + |t|] == s'[i..i + |t|];
        assert OccursAt(s, t, i);
      }
    }
    if Contains(s, t) {
      var i: nat :| i <= |s| && OccursAt(s, t, i);
      assert s'[i..i + |t|] == s[i..i + |t|];
      assert OccursAt(s', t, i);
    }
  }

  /** The currency does not depend on a trailing character that is not a
      trigger: in particular a `¥` never changes it. */
  lemma AppendNonTrigger(s: string, c: char)
    requires !IsTriggerChar(c)
    ensures DetectCurrency(s + [c]) == DetectCurrency(s)
  {
    ContainsAppend(s, c, [Dollar]);
    ContainsAppend(s, c, "USD");
    ContainsAppend(s, c, [Euro]);
    ContainsAppend(s, c, "EUR");
    ContainsAppend(s, c, [Pound]);
    ContainsAppend(s, c, "GBP");
  }

  /** The scan is case-sensitive: lower-case codes do not count. */
  lemma LowerCaseCodesIgnored()
    ensures DetectCurrency("usd eur gbp").None?
  {
    NoTriggerNoCurrency("usd eur gbp");
  }

  /** Dollars win over every other currency present. */
  lemma DollarWins(s: string)
    ensures DetectCurrency(s + [Dollar] + [Euro] + [Pound]) == Some("USD")
  {
    var t := s + [Dollar] + [Euro] + [Pound];
    assert OccursAt(t, [Dollar], |s|);
  }
}

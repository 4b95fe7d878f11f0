/** `buildUrl`: filling the `:key` placeholders of a path template from an
    ordered list of (key, value) pairs, the values already rendered as
    strings. */
module Urls {

  import opened Wrappers
  import opened Text

  /** The placeholder text `:key`. */
  function Placeholder(key: string): (r: string)
    ensures |r| == |key| + 1 && r[0] == ':'
  {
    [':'] + key
  }

  /** `i` is the first index where `t` occurs in `s`. */
  predicate FirstAt(s: string, t: string, i: nat) {
    OccursAt(s, t, i) && forall j: nat :: j < i ==> !OccursAt(s, t, j)
  }

  /** `FirstAt` is the index `indexOf` returns. */
  lemma FirstAtIsIndexOf(s: string, t: string, i: nat)
    ensures FirstAt(s, t, i) <==> IndexOf(s, t) == Some(i)
  {
    if FirstAt(s, t, i) {
      assert Contains(s, t);
      var k := IndexOf(s, t).value;
      assert !(k < i) && !(i < k);
    }
  }

  /** The replacement text that `String.prototype.replace` inserts for a
      string pattern: in the template `tpl`, `$$` stands for `$`, `$&` for
      the matched text, `` $` `` for the text before the match and `$'` for
      the text after it; any other `$` is kept as it is. A template without
      `$` is inserted verbatim. */
  function Expand(tpl: string, matched: string, before: string, after: string): (r: string)
    ensures '$' !in tpl ==> r == tpl
    decreases |tpl|
  {
    if |tpl| == 0 then []
    else if tpl[0] == '$' && |tpl| >= 2 && tpl[1] in "$&`'" then
      var rest := Expand(tpl[2..], matched, before, after);
      if tpl[1] == '$' then "$" + rest
      else if tpl[1] == '&' then matched + rest
      else if tpl[1] == '`' then before + rest
      else after + rest
    else
      assert '$' !in tpl ==> '$' !in tpl[1..] by {
        assert forall k :: 0 <= k < |tpl[1..]| ==> tpl[1..][k] == tpl[k + 1];
      }
      [tpl[0]] + Expand(tpl[1..], matched, before, after)
  }

  /** `url.replace(":" + key, value)` exactly as the code writes it: the
      first occurrence of the placeholder is replaced by the value read as a
      replacement template. */
  function SubstituteAsWritten(url: string, key: string, value: string): (r: string)
    ensures !Contains(url, Placeholder(key)) ==> r == url
    ensures '$' !in value ==> r == Substitute(url, key, value)
  {
    var pat := Placeholder(key);
    match IndexOf(url, pat)
    case None => url
    case Some(i) => url[..i] + Expand(value, pat, url[..i], url[i + |pat|..]) + url[i + |pat|..]
  }

  /** One step of `buildUrl`: when `:key` occurs in `url`, its first
      occurrence is replaced by `value` taken literally; otherwise `url` is
      left as it is. The text before that occurrence is kept, the text after
      it is kept, and the length changes by `|value| - |key| - 1`. */
  function Substitute(url: string, key: string, value: string): (r: string)
    ensures !Contains(url, Placeholder(key)) ==> r == url
    ensures Contains(url, Placeholder(key)) ==> |r| == |url| + |value| - |key| - 1
    ensures Contains(url, Placeholder(key)) ==>
      exists i: nat :: (FirstAt(url, Placeholder(key), i)
        && r[..i] == url[..i]
        && r[i..i + |value|] == value
        && r[i + |value|..] == url[i + |key| + 1..])
  {
    var pat := Placeholder(key);
    if !Contains(url, pat) then url
    else
      var i := IndexOf(url, pat).value;
      var r := url[..i] + value + url[i + |pat|..];
      assert FirstAt(url, pat, i);
      assert r[..i] == url[..i];
      assert r[i..i + |value|] == value;
      assert r[i + |value|..] == url[i + |pat|..];
      r
  }

  /** A url without `:` holds no placeholder. */
  lemma NoColonNoPlaceholder(url: string, key: string)
    ensures ':' !in url ==> !Contains(url, Placeholder(key))
  {
    var pat := Placeholder(key);
    forall i: nat | i <= |url| && OccursAt(url, pat, i)
      ensures url[i] == ':'
    {
      assert url[i..i + |pat|][0] == url[i];
    }
  }

  /** The pairs applied in order, each to the result of the previous one. */
  function ApplyAll(url: string, ps: seq<(string, string)>): (r: string)
    ensures ':' !in url ==> r == url
    decreases |ps|
  {
    if ps == [] then url
    else
      var next := Substitute(url, ps[0].0, ps[0].1);
      NoColonNoPlaceholder(url, ps[0].0);
      ApplyAll(next, ps[1..])
  }

  /** `buildUrl(path, params)`: without params the path is returned as it
      is; a path without `:` is returned as it is for any params. */
  function BuildUrl(path: string, params: Option<seq<(string, string)>>): (r: string)
    ensures params.None? ==> r == path
    ensures ':' !in path ==> r == path
    ensures params.Some? ==> r == ApplyAll(path, params.value)
  {
    match params
    case None => path
    case Some(ps) => ApplyAll(path, ps)
  }

  /** The pairs applied in order with the code's `replace`, each value read
      as a replacement template. */
  function ApplyAllAsWritten(url: string, ps: seq<(string, string)>): (r: string)
    ensures ':' !in url ==> r == url
    decreases |ps|
  {
    if ps == [] then url
    else
      NoColonNoPlaceholder(url, ps[0].0);
      ApplyAllAsWritten(SubstituteAsWritten(url, ps[0].0, ps[0].1), ps[1..])
  }

  /** `buildUrl(path, params)` exactly as the code writes it: without
      params the path is returned as it is, and so is a path without `:`
      for any params. */
  function BuildUrlAsWritten(path: string, params: Option<seq<(string, string)>>): (r: string)
    ensures params.None? ==> r == path
    ensures ':' !in path ==> r == path
  {
    match params
    case None => path
    case Some(ps) => ApplyAllAsWritten(path, ps)
  }

  /** No value of the pairs holds a `$`. */
  predicate DollarFree(ps: seq<(string, string)>) {
    forall i :: 0 <= i < |ps| ==> '$' !in ps[i].1
  }

  /** While no value holds a `$`, the code's fold and the literal one agree. */
  lemma {:induction false} ApplyAllAgrees(url: string, ps: seq<(string, string)>)
    requires DollarFree(ps)
    ensures ApplyAllAsWritten(url, ps) == ApplyAll(url, ps)
    decreases |ps|
  {
    if ps != [] {
      assert '$' !in ps[0].1;
      assert DollarFree(ps[1..]) by {
        assert forall i :: 0 <= i < |ps[1..]| ==> ps[1..][i] == ps[i + 1];
      }
      ApplyAllAgrees(Substitute(url, ps[0].0, ps[0].1), ps[1..]);
    }
  }

  /** `buildUrl` as written equals the literal substitution for every path
      and every params whose values hold no `$`. */
  lemma BuildUrlAgrees(path: string, params: Option<seq<(string, string)>>)
    requires params.Some? ==> DollarFree(params.value)
    ensures BuildUrlAsWritten(path, params) == BuildUrl(path, params)
  {
    if params.Some? {
      ApplyAllAgrees(path, params.value);
    }
  }

  /** Applying `ps` then `qs` is applying their concatenation. */
  lemma {:induction false} ApplyAllConcat(url: string, ps: seq<(string, string)>, qs: seq<(string, string)>)
    ensures ApplyAll(url, ps + qs) == ApplyAll(ApplyAll(url, ps), qs)
    decreases |ps|
  {
    if ps != [] {
      assert (ps + qs)[0] == ps[0];
      assert (ps + qs)[1..] == ps[1..] + qs;
      ApplyAllConcat(Substitute(url, ps[0].0, ps[0].1), ps[1..], qs);
    } else {
      assert ps + qs == qs;
    }
  }

  /** A pair whose placeholder does not occur leaves the url unchanged. */
  lemma {:induction false} AbsentKeyIsSkipped(url: string, key: string, value: string, ps: seq<(string, string)>)
    requires !Contains(url, Placeholder(key))
    ensures ApplyAll(url, [(key, value)] + ps) == ApplyAll(url, ps)
  {
    assert ([(key, value)] + ps)[1..] == ps;
  }

  /** The result of a substitution at the first occurrence `i`, in full. */
  lemma SubstituteAt(url: string, key: string, value: string, i: nat)
    requires FirstAt(url, Placeholder(key), i)
    ensures Substitute(url, key, value) == url[..i] + value + url[i + |key| + 1..]
  {
    var pat := Placeholder(key);
    var r := Substitute(url, key, value);
    assert Contains(url, pat);
    var i': nat :| FirstAt(url, pat, i') && r[..i'] == url[..i']
      && r[i'..i' + |value|] == value && r[i' + |value|..] == url[i' + |pat|..];
    assert i' == i;
    assert r == r[..i] + r[i..i + |value|] + r[i + |value|..];
  }

  /** Only the first occurrence is replaced: a later copy of the placeholder
      survives, shifted by the change in length. */
  lemma LaterCopySurvives(url: string, key: string, value: string, i: nat, k: nat)
    requires FirstAt(url, Placeholder(key), i)
    requires OccursAt(url, Placeholder(key), k) && i + |key| + 1 <= k
    ensures OccursAt(Substitute(url, key, value), Placeholder(key), k + |value| - |key| - 1)
  {
    var pat := Placeholder(key);
    SubstituteAt(url, key, value, i);
    var r := Substitute(url, key, value);
    var k' := k + |value| - |pat|;
    assert r[k'..k' + |pat|] == url[k..k + |pat|];
  }

  /** Nothing before index 10 of the example path starts a placeholder. */
  lemma ExamplePathFirstAt()
    ensures FirstAt("/invoices/:id/:id", ":id", 10)
  {
    var url := "/invoices/:id/:id";
    forall j: nat | j < 10 ensures !OccursAt(url, ":id", j) {
      assert url[j] != ':';
      if j + 3 <= |url| { assert url[j..j + 3][0] == url[j]; }
    }
  }

  /** A placeholder that appears twice keeps its second copy. */
  lemma RepeatedPlaceholderExample()
    ensures BuildUrl("/invoices/:id/:id", Some([("id", "7")])) == "/invoices/7/:id"
  {
    RepeatedPlaceholderStep();
    BuildUrlOnePair("/invoices/:id/:id", "id", "7");
  }

  lemma RepeatedPlaceholderStep()
    ensures Substitute("/invoices/:id/:id", "id", "7") == "/invoices/7/:id"
  {
    var url := "/invoices/:id/:id";
    ExamplePathFirstAt();
    SubstituteAt(url, "id", "7", 10);
    assert url[..10] + "7" + url[13..] == "/invoices/7/:id";
  }

  /** With a single pair, `buildUrl` is one substitution. */
  lemma BuildUrlOnePair(path: string, key: string, value: string)
    ensures BuildUrl(path, Some([(key, value)])) == Substitute(path, key, value)
  {
    var ps := [(key, value)];
    var next := Substitute(path, key, value);
    assert ps[1..] == [];
    assert ApplyAll(next, ps[1..]) == next;
    assert ApplyAll(path, ps) == ApplyAll(next, ps[1..]);
  }

  /** The code as written reads the value as a replacement template: a
      value `$&` puts the placeholder itself back, where the literal
      substitution inserts `$&`. */
  lemma DollarValueCounterexample()
    ensures SubstituteAsWritten("/a/:id", "id", "$&") == "/a/:id"
    ensures Substitute("/a/:id", "id", "$&") == "/a/$&"
  {
    ShortPathFirstAt();
    AsWrittenAt("/a/:id", "id", "$&", 3);
    assert Expand("$&", ":id", "/a/", "") == ":id" by {
      assert Expand([], ":id", "/a/", "") == [];
    }
    SubstituteAt("/a/:id", "id", "$&", 3);
  }

  /** The same discrepancy at the level of `buildUrl`: the code returns the
      path unchanged where the literal substitution fills in `$&`. */
  lemma BuildUrlDollarCounterexample()
    ensures BuildUrlAsWritten("/a/:id", Some([("id", "$&")])) == "/a/:id"
    ensures BuildUrl("/a/:id", Some([("id", "$&")])) == "/a/$&"
  {
    DollarValueCounterexample();
    var ps := [("id", "$&")];
    assert ps[1..] == [];
    assert ApplyAllAsWritten("/a/:id", ps) == ApplyAllAsWritten(SubstituteAsWritten("/a/:id", "id", "$&"), []);
    assert ApplyAll("/a/:id", ps) == ApplyAll(Substitute("/a/:id", "id", "$&"), []);
  }

  lemma ShortPathFirstAt()
    ensures FirstAt("/a/:id", ":id", 3)
  {
    var url := "/a/:id";
    forall j: nat | j < 3 ensures !OccursAt(url, ":id", j) {
      assert url[j] != ':';
      if j + 3 <= |url| { assert url[j..j + 3][0] == url[j]; }
    }
  }

  /** The code as written, at the first occurrence `i`, in full. */
  lemma AsWrittenAt(url: string, key: string, value: string, i: nat)
    requires FirstAt(url, Placeholder(key), i)
    ensures SubstituteAsWritten(url, key, value)
      == url[..i] + Expand(value, Placeholder(key), url[..i], url[i + |key| + 1..]) + url[i + |key| + 1..]
  {
    FirstAtIsIndexOf(url, Placeholder(key), i);
  }
}

/** The vendor heuristic: the first non-empty trimmed line that mentions
    neither "invoice", "date" nor a match of `bill\s*to` and is shorter than 50
    characters. */
module Vendor {

  import opened Wrappers
  import opened Text

  /** `/bill\s*to/i` tried at `p`: after `bill` the greedy `\s*` is the only
      whitespace count that can be followed by `t`. */
  predicate BillToAt(l: string, p: nat) {
    p + 4 <= |l| && LitCiAt(l, p, "bill") && LitCiAt(l, SkipWs(l, p + 4), "to")
  }

  /** `l.match(/bill\s*to/i)` succeeds. */
  predicate HasBillTo(l: string) {
    exists p :: 0 <= p <= |l| && BillToAt(l, p)
  }

  /** `bill`, any whitespace, `to`, at `p`, as a language. */
  predicate BillToSpan(l: string, p: nat, j: nat) {
    p + 4 <= j && LitCiAt(l, p, "bill") && LitCiAt(l, j, "to") && AllIn(l[p + 4..j], Space)
  }

  /** The scan for `bill\s*to` finds exactly the spans of the language. */
  lemma HasBillToIff(l: string)
    ensures HasBillTo(l) <==> exists p, j :: BillToSpan(l, p, j)
  {
    if HasBillTo(l) {
      var p :| 0 <= p <= |l| && BillToAt(l, p);
      assert BillToSpan(l, p, SkipWs(l, p + 4));
    }
    if exists p, j :: BillToSpan(l, p, j) {
      var p: nat, j: nat :| BillToSpan(l, p, j);
      assert !IsWhitespace(l[j]) by {
        assert l[j..j + 2][0] == l[j];
      }
      RunEndExact(l, p + 4, j, Space);
      assert BillToAt(l, p);
    }
  }

  /** The test each trimmed line must pass to be taken as the vendor. */
  predicate IsVendorLine(l: string) {
    && !ContainsCi(l, "invoice")
    && !ContainsCi(l, "date")
    && !HasBillTo(l)
    && |l| < 50
  }

  /** `lines.map(l => l.trim())`. */
  function TrimAll(ls: seq<string>): (r: seq<string>)
    ensures |r| == |ls|
    ensures forall i :: 0 <= i < |ls| ==> r[i] == Trim(ls[i])
  {
    if ls == [] then [] else [Trim(ls[0])] + TrimAll(ls[1..])
  }

  /** `lines.filter(l => l.length > 0)`. */
  function NonEmpty(ls: seq<string>): (r: seq<string>)
    ensures forall i :: 0 <= i < |r| ==> r[i] != []
    ensures forall x :: x in r <==> x in ls && x != []
  {
    if ls == [] then [] else (if ls[0] != [] then [ls[0]] else []) + NonEmpty(ls[1..])
  }

  /** `lines.find(IsVendorLine)`. */
  function Find(ls: seq<string>): (r: Option<string>)
    ensures r.Some? ==> r.value in ls && IsVendorLine(r.value)
    ensures r.Some? ==> exists i :: 0 <= i < |ls| && ls[i] == r.value && forall j :: 0 <= j < i ==> !IsVendorLine(ls[j])
    ensures r.None? <==> forall x :: x in ls ==> !IsVendorLine(x)
  {
    if ls == [] then None
    else if IsVendorLine(ls[0]) then Some(ls[0])
    else Find(ls[1..])
  }

  /** Filtering then finding picks the first line that is non-empty and
      passes the test, and nothing is picked only when no line does. */
  lemma {:induction false} FindNonEmpty(ls: seq<string>)
    ensures var r := Find(NonEmpty(ls));
      && (r.Some? ==> exists i :: 0 <= i < |ls| && ls[i] == r.value && FirstVendorAt(ls, i))
      && (r.None? <==> forall j :: 0 <= j < |ls| ==> !Qualifies(ls[j]))
  {
    if ls != [] {
      FindNonEmpty(ls[1..]);
      var tail := NonEmpty(ls[1..]);
      if ls[0] != [] {
        assert NonEmpty(ls) == [ls[0]] + tail;
        assert NonEmpty(ls)[1..] == tail;
      } else {
        assert NonEmpty(ls) == tail;
      }
      var r := Find(NonEmpty(ls));
      if Qualifies(ls[0]) {
        assert r == Some(ls[0]);
        assert FirstVendorAt(ls, 0);
      } else {
        assert r == Find(tail);
        if r.Some? {
          var i :| 0 <= i < |ls[1..]| && ls[1..][i] == r.value && FirstVendorAt(ls[1..], i);
          assert ls[i + 1] == r.value;
          assert FirstVendorAt(ls, i + 1) by {
            forall j | 0 <= j < i + 1
              ensures !Qualifies(ls[j])
            {
              if j > 0 {
                assert ls[j] == ls[1..][j - 1];
              }
            }
          }
        }
        assert r.None? <==> forall j :: 0 <= j < |ls| ==> !Qualifies(ls[j]) by {
          assert forall j :: 1 <= j < |ls| ==> ls[j] == ls[1..][j - 1];
        }
      }
    }
  }

  /** A trimmed line that may be the vendor. */
  predicate Qualifies(l: string) {
    l != [] && IsVendorLine(l)
  }

  /** `ls[i]` qualifies and no earlier line does. */
  predicate FirstVendorAt(ls: seq<string>, i: int) {
    0 <= i < |ls| && Qualifies(ls[i]) && forall j :: 0 <= j < i ==> !Qualifies(ls[j])
  }

  /** `lines.filter(l => l.length > 0).find(IsVendorLine)`: the first of
      the trimmed lines that is non-empty and passes the vendor test. */
  function PickVendor(ls: seq<string>): (r: Option<string>)
    ensures r.Some? ==> exists i :: 0 <= i < |ls| && ls[i] == r.value && FirstVendorAt(ls, i)
    ensures r.None? <==> forall j :: 0 <= j < |ls| ==> !Qualifies(ls[j])
  {
    FindNonEmpty(ls);
    Find(NonEmpty(ls))
  }

  /** The trimmed lines of a (normalised) text, in order. */
  function TrimmedLines(s: string): (r: seq<string>)
    ensures |r| == |SplitLines(s)|
    ensures forall i :: 0 <= i < |r| ==> r[i] == Trim(SplitLines(s)[i])
  {
    TrimAll(SplitLines(s))
  }

  /** The vendor of a (normalised) text. */
  function VendorOf(s: string): Option<string> {
    PickVendor(TrimmedLines(s))
  }

  /** The vendor is the first line of the text that, once trimmed, is
      non-empty and passes the vendor test: it is non-empty, shorter than 50
      characters, and mentions neither "invoice", "date" nor a match of `bill\s*to`. */
  lemma VendorIsFirstQualifyingLine(s: string)
    requires VendorOf(s).Some?
    ensures Qualifies(VendorOf(s).value)
    ensures FirstQualifyingLine(s, VendorOf(s).value)
  {
    var ts := TrimmedLines(s);
    var i :| 0 <= i < |ts| && ts[i] == PickVendor(ts).value && FirstVendorAt(ts, i);
    FirstOfTrimmed(SplitLines(s), ts, i);
  }

  /** `v` is the trimmed form of a line of `s`, and no earlier line
      qualifies once trimmed. */
  predicate FirstQualifyingLine(s: string, v: string) {
    exists i :: 0 <= i < |SplitLines(s)| && Trim(SplitLines(s)[i]) == v
      && forall j :: 0 <= j < i ==> !Qualifies(Trim(SplitLines(s)[j]))
  }

  lemma FirstOfTrimmed(ls: seq<string>, ts: seq<string>, i: int)
    requires |ts| == |ls|
    requires forall j :: 0 <= j < |ls| ==> ts[j] == Trim(ls[j])
    requires FirstVendorAt(ts, i)
    ensures 0 <= i < |ls| && Trim(ls[i]) == ts[i]
    ensures forall j :: 0 <= j < i ==> !Qualifies(Trim(ls[j]))
  {
  }

  /** There is no vendor when no line qualifies once trimmed ... */
  lemma NoVendorWhenNoneQualifies(s: string)
    ensures (forall j :: 0 <= j < |SplitLines(s)| ==> !Qualifies(Trim(SplitLines(s)[j]))) ==> VendorOf(s).None?
  {
    var ls := SplitLines(s);
    var ts := TrimmedLines(s);
    NoneQualifies(ls, ts);
    if forall j :: 0 <= j < |ls| ==> !Qualifies(Trim(ls[j])) {
      assert forall j :: 0 <= j < |ts| ==> !Qualifies(ts[j]);
    }
  }

  /** ... and only then. */
  lemma NoneQualifiesWhenNoVendor(s: string)
    ensures VendorOf(s).None? ==> forall j :: 0 <= j < |SplitLines(s)| ==> !Qualifies(Trim(SplitLines(s)[j]))
  {
    NoneQualifies(SplitLines(s), TrimmedLines(s));
  }

  lemma NoneQualifies(ls: seq<string>, ts: seq<string>)
    requires |ts| == |ls|
    requires forall j :: 0 <= j < |ls| ==> ts[j] == Trim(ls[j])
    ensures (forall j :: 0 <= j < |ts| ==> !Qualifies(ts[j]))
      <==> forall j :: 0 <= j < |ls| ==> !Qualifies(Trim(ls[j]))
  {
  }

  /** A text that neither starts nor ends with whitespace is its own trim. */
  lemma TrimKeeps(x: string)
    requires |x| > 0 && !IsWhitespace(x[0]) && !IsWhitespace(x[|x| - 1])
    ensures Trim(x) == x
  {
    var a, b :| 0 <= a <= b <= |x| && Trim(x) == x[a..b] && AllIn(x[..a], Space) && AllIn(x[b..], Space);
    if a > 0 {
      assert x[..a][0] == x[0];
    }
    if b < |x| {
      assert x[b..][|x| - 1 - b] == x[|x| - 1];
    }
  }

  /** A line none of whose characters folds to the first letter of `lit`
      does not mention `lit`. */
  lemma NoFirstLetter(l: string, lit: string)
    requires |lit| > 0 && forall k :: 0 <= k < |l| ==> Lower(l[k]) != Lower(lit[0])
    ensures !ContainsCi(l, lit)
  {
    forall p | 0 <= p <= |l|
      ensures !LitCiAt(l, p, lit)
    {
      if p + |lit| <= |l| {
        assert l[p..p + |lit|][0] == l[p];
      }
    }
  }

  /** The lines of an invoice whose vendor name comes last. */
  const SampleLines: seq<string> := [
    "Invoice Number: INV-2024-001", "Date: 2024-01-15", "Due Date: 2024-02-15",
    "Total: $1,250.00", "Acme Corp"]

  /** The heuristic takes the first line that passes, not the line holding
      the vendor's name: below, the total line is taken for the vendor and
      `Acme Corp` is never reached. */
  lemma TotalLineTakenForVendor()
    ensures VendorOf(JoinLines(SampleLines)) == Some("Total: $1,250.00")
  {
    SampleSettled();
    TrimmedOfJoin(SampleLines);
    SampleFirstVendor();
    PickFirst(SampleLines, 3);
  }

  lemma SampleSettled()
    ensures forall i :: 0 <= i < |SampleLines| ==> SettledLine(SampleLines[i])
  {
  }

  lemma SampleFirstVendor()
    ensures FirstVendorAt(SampleLines, 3)
  {
    SampleHeaderLinesFail();
    SampleTotalLineQualifies();
  }

  /** A non-empty line without newline that neither starts nor ends with
      whitespace. */
  predicate SettledLine(l: string) {
    '\n' !in l && l != [] && !IsWhitespace(l[0]) && !IsWhitespace(l[|l| - 1])
  }

  /** Lines that are already trimmed come back from splitting and trimming
      their join unchanged. */
  lemma TrimmedOfJoin(ls: seq<string>)
    requires |ls| >= 1
    requires forall i :: 0 <= i < |ls| ==> SettledLine(ls[i])
    ensures TrimmedLines(JoinLines(ls)) == ls
  {
    SplitJoin(ls);
    var ts := TrimmedLines(JoinLines(ls));
    forall i | 0 <= i < |ls|
      ensures ts[i] == ls[i]
    {
      TrimKeeps(ls[i]);
    }
  }

  /** The vendor picked is the first qualifying line. */
  lemma PickFirst(ts: seq<string>, i: int)
    requires FirstVendorAt(ts, i)
    ensures PickVendor(ts) == Some(ts[i])
  {
    assert Qualifies(ts[i]);
    forall k | FirstVendorAt(ts, k)
      ensures k == i
    {
    }
  }

  lemma SampleHeaderLinesFail()
    ensures !Qualifies(SampleLines[0]) && !Qualifies(SampleLines[1]) && !Qualifies(SampleLines[2])
  {
    assert LitCiAt(SampleLines[0], 0, "invoice");
    assert LitCiAt(SampleLines[1], 0, "date");
    assert LitCiAt(SampleLines[2], 4, "date");
  }

  lemma SampleTotalLineQualifies()
    ensures Qualifies(SampleLines[3])
  {
    var l := SampleLines[3];
    NoFirstLetter(l, "invoice");
    NoFirstLetter(l, "date");
    NoFirstLetter(l, "bill");
    assert !HasBillTo(l);
  }

  /** A text with no lines but the empty one has no vendor. */
  lemma EmptyTextHasNoVendor()
    ensures VendorOf("").None?
  {
    assert SplitLines("") == [""];
    assert Trim("") == "";
  }
}

/** The order in which a pattern's label alternatives are tried does not
    change what it captures. At one start position, every label end whose
    separator and value read gives the same hit. The two places where
    alternatives overlap are `date`/`dated` and `no`/`no.`. A `d` after
    `date` can never start a date, and after `no` or `no.` the separator
    reaches the same value start whenever both captures succeed. */
module AlternativeOrder {

  import opened Wrappers
  import opened Text
  import opened Matchers

  // ----- Reading ends back -----

  /** Every end among the word ends at `j` is the end of one of the words
      found there. */
  lemma {:induction false} WordEndOf(s: string, j: nat, words: seq<string>, e: nat) returns (t: string)
    requires e in WordEnds(s, j, words)
    ensures t in words && LitCiAt(s, j, t) && e == j + |t|
    decreases |words|
  {
    if LitCiAt(s, j, words[0]) && e == j + |words[0]| {
      t := words[0];
    } else {
      t := WordEndOf(s, j, words[1..], e);
    }
  }

  /** Every label end belongs to one of the alternatives. */
  lemma {:induction false} AltOfEnd(s: string, p: nat, alts: seq<Alt>, e: nat) returns (i: nat)
    requires p <= |s| && e in AltsEnds(s, p, alts)
    ensures i < |alts| && e in AltEnds(s, p, alts[i])
    decreases |alts|
  {
    if e in AltEnds(s, p, alts[0]) {
      i := 0;
    } else {
      var k := AltOfEnd(s, p, alts[1..], e);
      i := k + 1;
    }
  }

  /** With none of the words at `j`, there are no word ends there. */
  lemma {:induction false} NoWordEnds(s: string, j: nat, words: seq<string>)
    requires forall t :: t in words ==> !LitCiAt(s, j, t)
    ensures WordEnds(s, j, words) == []
    decreases |words|
  {
    if words != [] {
      assert words[0] in words;
      NoWordEnds(s, j, words[1..]);
    }
  }

  /** Where a literal occurs, each of its characters matches up to case. */
  lemma CiChars(s: string, j: nat, t: string)
    requires LitCiAt(s, j, t)
    ensures forall k :: 0 <= k < |t| ==> Lower(s[j + k]) == Lower(t[k])
  {
    forall k | 0 <= k < |t|
      ensures Lower(s[j + k]) == Lower(t[k])
    {
      assert s[j..j + |t|][k] == s[j + k];
    }
  }

  /** A letter is no whitespace and no separator punctuation, so a greedy
      separator scan from it stays put. */
  lemma SeparatorStaysAtLetter(f: Field, s: string, e: nat)
    requires e < |s| && IsAsciiLetter(s[e])
    ensures ValueStart(f, s, e) == e
  {
    RunEndExact(s, e, e, Space);
    assert OptPunct(s, e) == e;
    assert OptSymbol(s, e) == e;
  }

  // ----- Invoice number: `no` against `no.`, `invoice` against `inv` -----

  /** Where `invoice` starts, the `inv\s*(?:no\.?|#)` alternative has no
      end: its tail would have to start at the `o`. */
  lemma InvoiceBlocksInv(s: string, p: nat)
    requires p <= |s|
    ensures LitCiAt(s, p, "invoice") ==> PhraseEnds(s, p, "inv", InvTails) == []
  {
    if LitCiAt(s, p, "invoice") {
      var j := p + 3;
      CiChars(s, p, "invoice");
      assert Lower(s[j]) == 'o';
      RunEndExact(s, j, j, Space);
      forall t | t in InvTails
        ensures !LitCiAt(s, j, t)
      {
        if j + |t| <= |s| {
          assert s[j..j + |t|][0] == s[j];
        }
      }
      NoWordEnds(s, j, InvTails);
    }
  }

  /** Where the tails of the invoice-number pattern are read: after the
      greedy whitespace that follows `invoice`, or `inv` when the text
      does not hold `invoice` there. */
  function TailStart(s: string, p: nat): nat
    requires p <= |s|
  {
    if LitCiAt(s, p, "invoice") then SkipWs(s, p + 7)
    else if p + 3 <= |s| then SkipWs(s, p + 3)
    else p
  }

  /** A label end of the invoice-number pattern is a tail of
      `InvoiceTails` read at `TailStart`. */
  lemma InvoiceEndParts(s: string, p: nat, e: nat) returns (t: string)
    requires p <= |s| && e in LabelEnds(InvoiceNumber, s, p)
    ensures t in InvoiceTails && LitCiAt(s, TailStart(s, p), t) && e == TailStart(s, p) + |t|
  {
    var i := AltOfEnd(s, p, Alternatives(InvoiceNumber), e);
    InvoiceBlocksInv(s, p);
    if i == 0 {
      t := WordEndOf(s, SkipWs(s, p + 7), InvoiceTails, e);
    } else {
      t := WordEndOf(s, SkipWs(s, p + 3), InvTails, e);
    }
  }

  /** Two tails found at the same place end together, or `no` and `no.`
      end one apart across a dot. */
  lemma TailPair(s: string, j: nat, t1: string, t2: string, e1: nat, e2: nat)
    requires t1 in InvoiceTails && t2 in InvoiceTails && LitCiAt(s, j, t1) && LitCiAt(s, j, t2)
    requires e1 == j + |t1| && e2 == j + |t2|
    ensures || e1 == e2
            || (e2 == e1 + 1 && s[e1] == '.')
            || (e1 == e2 + 1 && s[e2] == '.')
  {
    CiChars(s, j, t1);
    CiChars(s, j, t2);
    assert Lower(s[j]) == Lower(t1[0]) == Lower(t2[0]);
    if |t1| >= 2 && |t2| >= 2 {
      assert Lower(s[j + 1]) == Lower(t1[1]) == Lower(t2[1]);
    }
    if |t1| == 3 {
      assert Lower(s[j + 2]) == Lower(t1[2]);
    }
    if |t2| == 3 {
      assert Lower(s[j + 2]) == Lower(t2[2]);
    }
  }

  /** Two label ends of the invoice-number pattern at one start coincide,
      or sit one apart across a dot. */
  lemma InvoiceEndsClose(s: string, p: nat, e1: nat, e2: nat)
    requires p <= |s| && e1 in LabelEnds(InvoiceNumber, s, p) && e2 in LabelEnds(InvoiceNumber, s, p)
    ensures || e1 == e2
            || (e2 == e1 + 1 && s[e1] == '.')
            || (e1 == e2 + 1 && s[e2] == '.')
  {
    var t1 := InvoiceEndParts(s, p, e1);
    var t2 := InvoiceEndParts(s, p, e2);
    TailPair(s, TailStart(s, p), t1, t2, e1, e2);
  }

  /** A label end just before a dot and the one just after it lead to the
      same invoice-number capture whenever both succeed: after the dot the
      separator reaches the same value start, unless a second `:` or `.`
      follows, and then the capture from before the dot fails on it. */
  lemma DotEndsAgree(s: string, e: nat)
    requires e < |s| && s[e] == '.'
    ensures CaptureAt(InvoiceNumber, s, e).Some? && CaptureAt(InvoiceNumber, s, e + 1).Some? ==>
      CaptureAt(InvoiceNumber, s, e) == CaptureAt(InvoiceNumber, s, e + 1)
  {
    RunEndExact(s, e, e, Space);
    var a := SkipWs(s, e + 1);
    assert ValueStart(InvoiceNumber, s, e) == a;
    if a < |s| && IsPunct(s[a]) {
      RunEndExact(s, a, a, Ident);
    } else {
      RunEndExact(s, a, a, Space);
      assert ValueStart(InvoiceNumber, s, e + 1) == a;
    }
  }

  // ----- Date: `date` against `dated` -----

  /** Where `dated` starts, the capture after `date` fails: the value would
      start at the letter `d`. */
  lemma DatedBlocksDate(s: string, p: nat)
    requires p <= |s|
    ensures LitCiAt(s, p, "dated") ==> CaptureAt(Date, s, p + 4).None?
  {
    if LitCiAt(s, p, "dated") {
      CiChars(s, p, "dated");
      assert Lower(s[p + 4]) == 'd';
      SeparatorStaysAtLetter(Date, s, p + 4);
      RunEndExact(s, p + 4, p + 4, Digit);
    }
  }

  /** Two date label ends at one start whose captures both succeed are the
      same end. */
  lemma DateEndsAgree(s: string, p: nat, e1: nat, e2: nat)
    requires p <= |s| && e1 in LabelEnds(Date, s, p) && e2 in LabelEnds(Date, s, p)
    ensures CaptureAt(Date, s, e1).Some? && CaptureAt(Date, s, e2).Some? ==> e1 == e2
  {
    var i1 := AltOfEnd(s, p, Alternatives(Date), e1);
    var i2 := AltOfEnd(s, p, Alternatives(Date), e2);
    DatedBlocksDate(s, p);
  }

  // ----- Due date and total: one end at most -----

  /** The due-date pattern has at most one label end at a position. */
  lemma DueDateEndsOne(s: string, p: nat, e1: nat, e2: nat)
    requires p <= |s| && e1 in LabelEnds(DueDate, s, p) && e2 in LabelEnds(DueDate, s, p)
    ensures e1 == e2
  {
    var i1 := AltOfEnd(s, p, Alternatives(DueDate), e1);
    var i2 := AltOfEnd(s, p, Alternatives(DueDate), e2);
    var j := SkipWs(s, p + 3);
    var t1 := WordEndOf(s, j, ["date"], e1);
    var t2 := WordEndOf(s, j, ["date"], e2);
  }

  /** An end of a phrase alternative with a single tail follows its head,
      the greedy whitespace after it and the tail. */
  lemma PhraseEndForm(s: string, p: nat, h: string, tail: string, e: nat)
    requires p <= |s| && |h| > 0 && e in PhraseEnds(s, p, h, [tail])
    ensures p + |h| <= |s| && Lower(s[p]) == Lower(h[0]) && e == SkipWs(s, p + |h|) + |tail|
  {
    CiChars(s, p, h);
    var t := WordEndOf(s, SkipWs(s, p + |h|), [tail], e);
  }

  /** The first letter of the text at `p` and where a label end of the
      `i`th alternative of the total pattern lies. */
  predicate TotalAltEnd(s: string, p: nat, i: nat, e: nat) {
    || (i == 0 && p < |s| && Lower(s[p]) == 't' && e == p + 5)
    || (i == 1 && p + 5 <= |s| && Lower(s[p]) == 'g' && e == SkipWs(s, p + 5) + 5)
    || (i == 2 && p + 6 <= |s| && Lower(s[p]) == 'a' && e == SkipWs(s, p + 6) + 3)
    || (i == 3 && p + 7 <= |s| && Lower(s[p]) == 'b' && e == SkipWs(s, p + 7) + 3)
  }

  lemma TotalWordEnd(s: string, p: nat, e: nat)
    requires p <= |s| && e in AltEnds(s, p, Word("total"))
    ensures TotalAltEnd(s, p, 0, e)
  {
    CiChars(s, p, "total");
  }

  lemma TotalPhraseEnd(s: string, p: nat, i: nat, e: nat)
    requires p <= |s| && 1 <= i < |Alternatives(Total)| && e in AltEnds(s, p, Alternatives(Total)[i])
    ensures TotalAltEnd(s, p, i, e)
  {
    if i == 1 {
      PhraseEndForm(s, p, "grand", "total", e);
    } else if i == 2 {
      PhraseEndForm(s, p, "amount", "due", e);
    } else {
      PhraseEndForm(s, p, "balance", "due", e);
    }
  }

  /** A label end of the total pattern, told apart by the first letter of
      the alternative it ends. */
  lemma TotalEndForm(s: string, p: nat, e: nat) returns (i: nat)
    requires p <= |s| && e in LabelEnds(Total, s, p)
    ensures TotalAltEnd(s, p, i, e)
  {
    i := AltOfEnd(s, p, Alternatives(Total), e);
    if i == 0 {
      TotalWordEnd(s, p, e);
    } else {
      TotalPhraseEnd(s, p, i, e);
    }
  }

  /** The total pattern has at most one label end at a position: its
      alternatives start with different letters. */
  lemma TotalEndsOne(s: string, p: nat, e1: nat, e2: nat)
    requires p <= |s| && e1 in LabelEnds(Total, s, p) && e2 in LabelEnds(Total, s, p)
    ensures e1 == e2
  {
    var i1 := TotalEndForm(s, p, e1);
    var i2 := TotalEndForm(s, p, e2);
  }

  // ----- Every field -----

  /** At one start position, any two label ends whose captures both
      succeed give the same hit. */
  lemma CapturesAgree(f: Field, s: string, p: nat, e1: nat, e2: nat)
    requires p <= |s| && e1 in LabelEnds(f, s, p) && e2 in LabelEnds(f, s, p)
    ensures CaptureAt(f, s, e1).Some? && CaptureAt(f, s, e2).Some? ==> CaptureAt(f, s, e1) == CaptureAt(f, s, e2)
  {
    match f
    case InvoiceNumber =>
      InvoiceEndsClose(s, p, e1, e2);
      if e2 == e1 + 1 && e1 < |s| && s[e1] == '.' {
        DotEndsAgree(s, e1);
      } else if e1 == e2 + 1 && e2 < |s| && s[e2] == '.' {
        DotEndsAgree(s, e2);
      }
    case Date => DateEndsAgree(s, p, e1, e2);
    case DueDate => DueDateEndsOne(s, p, e1, e2);
    case Total => TotalEndsOne(s, p, e1, e2);
  }

  /** The match at `p` is the capture of any label end there whose capture
      succeeds, whichever alternative that end belongs to. */
  lemma MatchAtIsAnyCapture(f: Field, s: string, p: nat, e: nat)
    requires p <= |s| && e in LabelEnds(f, s, p) && CaptureAt(f, s, e).Some?
    ensures MatchAt(f, s, p) == CaptureAt(f, s, e)
  {
    var ends := LabelEnds(f, s, p);
    assert forall k :: 0 <= k < |ends| ==> ends[k] <= |s| by {
      assert forall k :: 0 <= k < |ends| ==> ends[k] in ends;
    }
    var k :| 0 <= k < |ends| && ends[k] == e;
    assert FirstCapture(f, s, ends).Some?;
    var i :| 0 <= i < |ends| && CaptureAt(f, s, ends[i]) == FirstCapture(f, s, ends);
    assert ends[i] in ends;
    CapturesAgree(f, s, p, ends[i], e);
  }
}

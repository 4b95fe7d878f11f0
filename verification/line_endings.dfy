/** The line-ending normalisation applied to the document text before any
    field is matched: every CR LF pair becomes a single LF. */
module LineEndings {

  import opened Text

  /** `s` with every carriage return removed. */
  function DropCr(s: string): (r: string)
    ensures '\r' !in r
  {
    if |s| == 0 then "" else (if s[0] == '\r' then "" else [s[0]]) + DropCr(s[1..])
  }

  lemma {:induction false} DropCrConcat(a: string, b: string)
    ensures DropCr(a + b) == DropCr(a) + DropCr(b)
  {
    if |a| > 0 {
      DropCrConcat(a[1..], b);
      assert (a + b)[1..] == a[1..] + b;
    } else {
      assert a + b == b;
    }
  }

  /** `s.replace(/\r\n/g, "\n")`: a left-to-right scan replacing each
      non-overlapping CR LF pair by LF. Only carriage returns are removed, so
      every other character survives in order; a text without carriage
      returns is left as it is. */
  function Normalize(s: string): (r: string)
    ensures |r| <= |s|
    ensures DropCr(r) == DropCr(s)
    ensures '\r' !in s ==> r == s
  {
    if |s| == 0 then ""
    else if |s| >= 2 && s[0] == '\r' && s[1] == '\n' then
      var rest := Normalize(s[2..]);
      DropCrConcat("\n", rest);
      DropCrConcat("\r\n", s[2..]);
      assert s == "\r\n" + s[2..];
      "\n" + rest
    else
      var rest := Normalize(s[1..]);
      DropCrConcat([s[0]], rest);
      DropCrConcat([s[0]], s[1..]);
      assert s == [s[0]] + s[1..];
      [s[0]] + rest
  }

  /** A text holding no CR LF pair is left as it is, lone carriage returns
      included. */
  lemma {:induction false} NormalizeKeepsPairFree(s: string)
    ensures !Contains(s, "\r\n") ==> Normalize(s) == s
  {
    if |s| > 0 && !Contains(s, "\r\n") {
      ContainsTail(s);
      NormalizeKeepsPairFree(s[1..]);
      assert !OccursAt(s, "\r\n", 0);
      assert |s| >= 2 ==> s[0..2] == [s[0], s[1]];
      NormalizeSingle(s[0], s[1..]);
      assert s == [s[0]] + s[1..];
    }
  }

  /** A CR LF pair in the tail of `s` is one in `s`. */
  lemma ContainsTail(s: string)
    requires |s| > 0
    ensures Contains(s[1..], "\r\n") ==> Contains(s, "\r\n")
  {
    if Contains(s[1..], "\r\n") {
      var i: nat :| i <= |s[1..]| && OccursAt(s[1..], "\r\n", i);
      assert s[i + 1..i + 3] == s[1..][i..i + 2];
      assert OccursAt(s, "\r\n", i + 1);
    }
  }

  /** Each CR LF pair is replaced by LF, and the text on either side of it
      is normalised on its own: a carriage return at the end of `a` does not
      pair with the CR LF that follows it. With the clause that text without
      CR LF is kept, this determines `Normalize` on every input. */
  lemma {:induction false} NormalizeAtCrlf(a: string, b: string)
    ensures Normalize(a + "\r\n" + b) == Normalize(a) + "\n" + Normalize(b)
    decreases |a|
  {
    if |a| == 0 {
      assert a + "\r\n" + b == "\r\n" + b;
      assert Normalize(a) + "\n" + Normalize(b) == "\n" + Normalize(b);
      NormalizePair(b);
    } else if |a| >= 2 && a[0] == '\r' && a[1] == '\n' {
      var t := a[2..];
      assert a == "\r\n" + t;
      NormalizeAtCrlf(t, b);
      PairStep(t, b);
    } else {
      var t := a[1..];
      assert a == [a[0]] + t;
      NormalizeAtCrlf(t, b);
      SingleStep(a[0], t, b);
    }
  }

  lemma PairStep(t: string, b: string)
    requires Normalize(t + "\r\n" + b) == Normalize(t) + "\n" + Normalize(b)
    ensures Normalize("\r\n" + t + "\r\n" + b) == Normalize("\r\n" + t) + "\n" + Normalize(b)
  {
    var u := t + "\r\n" + b;
    calc {
      Normalize("\r\n" + t + "\r\n" + b);
    == { Regroup("\r\n", t, "\r\n", b); }
      Normalize("\r\n" + u);
    == { NormalizePair(u); }
      "\n" + Normalize(u);
    == { Regroup("\n", Normalize(t), "\n", Normalize(b)); }
      "\n" + Normalize(t) + "\n" + Normalize(b);
    == { NormalizePair(t); }
      Normalize("\r\n" + t) + "\n" + Normalize(b);
    }
  }

  lemma SingleStep(c: char, t: string, b: string)
    requires c != '\r' || t == [] || t[0] != '\n'
    requires Normalize(t + "\r\n" + b) == Normalize(t) + "\n" + Normalize(b)
    ensures Normalize([c] + t + "\r\n" + b) == Normalize([c] + t) + "\n" + Normalize(b)
  {
    var u := t + "\r\n" + b;
    assert u[0] == if t == [] then '\r' else t[0];
    calc {
      Normalize([c] + t + "\r\n" + b);
    == { Regroup([c], t, "\r\n", b); }
      Normalize([c] + u);
    == { NormalizeSingle(c, u); }
      [c] + Normalize(u);
    == { Regroup([c], Normalize(t), "\n", Normalize(b)); }
      [c] + Normalize(t) + "\n" + Normalize(b);
    == { NormalizeSingle(c, t); }
      Normalize([c] + t) + "\n" + Normalize(b);
    }
  }

  /** Concatenation regrouped. */
  lemma Regroup(x: string, t: string, y: string, b: string)
    ensures x + t + y + b == x + (t + y + b)
  {
  }

  /** A leading CR LF pair becomes LF. */
  lemma NormalizePair(t: string)
    ensures Normalize("\r\n" + t) == "\n" + Normalize(t)
  {
    assert ("\r\n" + t)[2..] == t;
  }

  /** A leading character that does not start a CR LF pair is kept. */
  lemma NormalizeSingle(c: char, t: string)
    requires c != '\r' || t == [] || t[0] != '\n'
    ensures Normalize([c] + t) == [c] + Normalize(t)
  {
    assert ([c] + t)[1..] == t;
  }

  /** `s` written with Windows line endings: every LF preceded by a CR. */
  function ToCrlf(s: string): string {
    if |s| == 0 then "" else (if s[0] == '\n' then "\r\n" else [s[0]]) + ToCrlf(s[1..])
  }

  /** Normalisation undoes `ToCrlf` on text that had no carriage returns. */
  lemma {:induction false} NormalizeToCrlf(s: string)
    requires '\r' !in s
    ensures Normalize(ToCrlf(s)) == s
  {
    if |s| > 0 {
      var rest := ToCrlf(s[1..]);
      NormalizeToCrlf(s[1..]);
      if s[0] == '\n' {
        var t := "\r\n" + rest;
        assert ToCrlf(s) == t;
        assert t[2..] == rest;
        assert Normalize(t) == "\n" + Normalize(rest);
      } else {
        var t := [s[0]] + rest;
        assert ToCrlf(s) == t;
        assert t[1..] == rest;
        assert Normalize(t) == [s[0]] + Normalize(rest);
      }
      assert s == [s[0]] + s[1..];
    }
  }

  /** Normalising is not idempotent: a lone CR before a CR LF pair survives
      the first pass and forms a new pair with the LF. */
  lemma NormalizeNotIdempotent()
    ensures Normalize("\r\r\n\n") == "\r\n\n"
    ensures Normalize(Normalize("\r\r\n\n")) == "\n\n"
  {
    assert Normalize("\r\n\n") == "\n" + Normalize("\n");
    assert Normalize("\n\n") == "\n" + Normalize("\n");
  }
}

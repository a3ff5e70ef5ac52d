/** Lines of printed text. */
module Lines {
  import opened Bytes

  function Newlines(s: Text): nat {
    if s == [] then 0 else Newlines(s[..|s| - 1]) + if s[|s| - 1] == NEWLINE then 1 else 0
  }

  /** How many bytes stand after the last newline. */
  function Column(s: Text): (c: nat)
    ensures c <= |s|
  {
    if s == [] || s[|s| - 1] == NEWLINE then 0 else Column(s[..|s| - 1]) + 1
  }

  /** No line is longer than `width`. */
  predicate Fits(s: Text, width: int) {
    s == [] || (Fits(s[..|s| - 1], width) && Column(s) <= width)
  }

  lemma {:induction false} NewlinesAppend(a: Text, b: Text)
    ensures Newlines(a + b) == Newlines(a) + Newlines(b)
  {
    if b == [] {
      assert a + b == a;
    } else {
      var n := |b| - 1;
      NewlinesAppend(a, b[..n]);
      assert (a + b)[..|a + b| - 1] == a + b[..n];
    }
  }

  /** Text without newlines only moves the column, and fits when the line it continues has room for it. */
  lemma {:induction false} FitsAppend(a: Text, b: Text, width: int)
    requires NEWLINE !in b && width >= 0
    ensures Fits(a + b, width) <==> Fits(a, width) && Column(a) + |b| <= width
    ensures Column(a + b) == Column(a) + |b|
    ensures Newlines(b) == 0
  {
    if b == [] {
      assert a + b == a;
    } else {
      var n := |b| - 1;
      FitsAppend(a, b[..n], width);
      assert (a + b)[..|a + b| - 1] == a + b[..n];
      assert b[n] in b;
    }
  }

  /** What is printed from the start of a line on fits by itself or not at all. */
  lemma {:induction false} FitsConcat(a: Text, b: Text, width: int)
    requires Column(a) == 0
    ensures Fits(a + b, width) <==> Fits(a, width) && Fits(b, width)
    ensures Column(a + b) == Column(b)
  {
    if b == [] {
      assert a + b == a;
    } else {
      var n := |b| - 1;
      FitsConcat(a, b[..n], width);
      assert (a + b)[..|a + b| - 1] == a + b[..n];
    }
  }

  /** A line is printed. */
  lemma LineAppend(a: Text, b: Text, width: int)
    requires NEWLINE !in b && width >= 0
    ensures var next := a + b + [NEWLINE];
            && (Fits(next, width) <==> Fits(a, width) && Column(a) + |b| <= width)
            && Column(next) == 0
            && Newlines(next) == Newlines(a) + 1
  {
    FitsAppend(a, b, width);
    NewlinesAppend(a, b);
    assert (a + b + [NEWLINE])[..|a + b|] == a + b;
  }

  lemma {:induction false} FitsWider(s: Text, narrow: int, wide: int)
    requires Fits(s, narrow) && narrow <= wide
    ensures Fits(s, wide)
  {
    if s != [] {
      FitsWider(s[..|s| - 1], narrow, wide);
    }
  }
}

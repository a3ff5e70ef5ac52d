/** The table of matches that Tab prints below the line. */
module Listing {
  import opened Bytes
  import opened Lines
  import opened Terminal

  function Next(c: nat, cols: nat): (d: nat)
    requires c < cols
    ensures d == if c + 1 == cols then 0 else c + 1
  {
    if c + 1 < cols then SmallMod(c + 1, cols); (c + 1) % cols else (c + 1) % cols
  }

  lemma SmallMod(a: nat, m: nat)
    requires a < m
    ensures a % m == a
  {
  }

  /** The column of the table that entry `n` stands in. */
  function Slot(n: nat, cols: nat): (c: nat)
    requires cols > 0
    ensures c < cols
  {
    if n == 0 then 0 else Next(Slot(n - 1, cols), cols)
  }

  function Entry(name: Text, colWidth: nat): Text {
    name + if |name| < colWidth then Spaces(colWidth - |name|) else []
  }

  /** The first `n` entries of the table. */
  function Table(m: seq<Text>, n: nat, colWidth: nat, cols: nat): Text
    requires n <= |m| && cols > 0
  {
    if n == 0 then []
    else
      Table(m, n - 1, colWidth, cols)
      + (if Slot(n - 1, cols) == 0 then [NEWLINE] else [])
      + Entry(m[n - 1], colWidth)
  }

  ghost predicate ShorterThan(m: seq<Text>, colWidth: nat) {
    forall i | 0 <= i < |m| :: |m[i]| < colWidth
  }

  ghost predicate SingleLines(m: seq<Text>) {
    forall i | 0 <= i < |m| :: NEWLINE !in m[i]
  }

  lemma EntryIs(name: Text, colWidth: nat)
    requires |name| < colWidth && NEWLINE !in name
    ensures |Entry(name, colWidth)| == colWidth && NEWLINE !in Entry(name, colWidth)
  {
  }

  lemma NewlineIs(s: Text, width: nat)
    requires Fits(s, width)
    ensures Fits(s + [NEWLINE], width) && Column(s + [NEWLINE]) == 0 && Newlines(s + [NEWLINE]) == Newlines(s) + 1
  {
    assert (s + [NEWLINE])[..|s|] == s;
  }

  lemma NewlineCounts(s: Text)
    ensures Newlines(s + [NEWLINE]) == Newlines(s) + 1
  {
    assert (s + [NEWLINE])[..|s|] == s;
  }

  /** How many rows the first `n` entries take. */
  function Rows(n: nat, cols: nat): nat
    requires cols > 0
  {
    if n == 0 then 0 else Rows(n - 1, cols) + if Slot(n - 1, cols) == 0 then 1 else 0
  }

  /** Every row starts with a newline, and no other newline is printed unless a name holds one. */
  lemma {:induction false} RowsAreNewlines(m: seq<Text>, n: nat, colWidth: nat, cols: nat)
    requires n <= |m| && cols > 0
    ensures Rows(n, cols) <= Newlines(Table(m, n, colWidth, cols))
    ensures SingleLines(m) ==> Rows(n, cols) == Newlines(Table(m, n, colWidth, cols))
    ensures n > 0 ==> Rows(n, cols) > 0
  {
    if n > 0 {
      RowsAreNewlines(m, n - 1, colWidth, cols);
      RowsStep(m, n - 1, colWidth, cols);
    }
  }

  lemma RowsStep(m: seq<Text>, i: nat, colWidth: nat, cols: nat)
    requires i < |m| && cols > 0
    ensures var count := Newlines(Table(m, i, colWidth, cols)) + (if Slot(i, cols) == 0 then 1 else 0);
            var after := Newlines(Table(m, i + 1, colWidth, cols));
            after >= count && (NEWLINE !in m[i] ==> after == count)
  {
    EntryNewlines(Table(m, i, colWidth, cols), Slot(i, cols), m[i], colWidth);
  }

  lemma EntryNewlines(before: Text, c: nat, name: Text, colWidth: nat)
    ensures var after := before + (if c == 0 then [NEWLINE] else []) + Entry(name, colWidth);
            var count := Newlines(before) + (if c == 0 then 1 else 0);
            Newlines(after) >= count && (NEWLINE !in name ==> Newlines(after) == count)
  {
    var line := before + if c == 0 then [NEWLINE] else [];
    if c == 0 {
      NewlineCounts(before);
    } else {
      assert line == before;
    }
    if NEWLINE !in name {
      NoNewlines(Entry(name, colWidth));
    }
    NewlinesAppend(line, Entry(name, colWidth));
  }

  lemma {:induction false} TableStarts(m: seq<Text>, n: nat, colWidth: nat, cols: nat)
    requires 0 < n <= |m| && cols > 0
    ensures var s := Table(m, n, colWidth, cols); s != [] && s[0] == NEWLINE
  {
    if n > 1 {
      TableStarts(m, n - 1, colWidth, cols);
    }
  }

  /** A table whose columns fit side by side has no line longer than the terminal. */
  lemma {:induction false} TableFits(m: seq<Text>, n: nat, colWidth: nat, cols: nat, width: nat)
    requires 0 < n <= |m| && cols > 0 && cols * colWidth <= width
    requires ShorterThan(m, colWidth) && SingleLines(m)
    ensures var s := Table(m, n, colWidth, cols);
            var c := Slot(n, cols);
            && Fits(s, width) && s != [] && s[0] == NEWLINE
            && Column(s) == (if c == 0 then cols else c) * colWidth
    decreases n
  {
    var before := Table(m, n - 1, colWidth, cols);
    var c := Slot(n - 1, cols);
    EntryIs(m[n - 1], colWidth);
    if n > 1 {
      TableFits(m, n - 1, colWidth, cols, width);
    }
    EntryFits(before, Entry(m[n - 1], colWidth), c, cols, colWidth, width);
  }

  lemma EntryFits(before: Text, entry: Text, c: nat, cols: nat, colWidth: nat, width: nat)
    requires c < cols && cols * colWidth <= width
    requires |entry| == colWidth && NEWLINE !in entry
    requires Fits(before, width) && (c > 0 ==> Column(before) == c * colWidth && before != [] && before[0] == NEWLINE)
    requires before == [] || before[0] == NEWLINE
    ensures var s := before + (if c == 0 then [NEWLINE] else []) + entry;
            Fits(s, width) && s != [] && s[0] == NEWLINE && Column(s) == (c + 1) * colWidth
  {
    var line := before + if c == 0 then [NEWLINE] else [];
    if c == 0 {
      NewlineIs(before, width);
    } else {
      assert line == before;
    }
    Product(c + 1, cols, colWidth);
    assert (c + 1) * colWidth == c * colWidth + colWidth;
    FitsAppend(line, entry, width);
  }

  lemma Product(a: nat, b: nat, k: nat)
    requires a <= b
    ensures a * k <= b * k
  {
  }

  lemma {:induction false} NoNewlines(s: Text)
    requires NEWLINE !in s
    ensures Newlines(s) == 0
  {
    if s != [] {
      assert s[|s| - 1] in s;
      NoNewlines(s[..|s| - 1]);
    }
  }

  /** The number of columns of the table. */
  function Columns(width: nat, colWidth: nat): (cols: nat)
    requires colWidth > 0
    ensures cols > 0
    ensures if colWidth <= width then cols * colWidth <= width else cols == 1
  {
    var cols := width / colWidth;
    if colWidth <= width then DivisionFits(width, colWidth); cols else 1
  }

  lemma DivisionFits(width: nat, colWidth: nat)
    requires 0 < colWidth <= width
    ensures width / colWidth > 0 && width / colWidth * colWidth <= width
  {
  }

  /** After the table is printed and the cursor moved up by the number of its newlines, the edited row is
      unchanged, and the cursor is back on the row it was on exactly when a column is no wider than the
      terminal; otherwise it is further down. */
  lemma TableReturns(t: Terminal, m: seq<Text>, colWidth: nat)
    requires m != [] && colWidth > 0 && ShorterThan(m, colWidth) && SingleLines(m)
    requires t.down >= 0 && |t.row| > 0
    ensures var s := Table(m, |m|, colWidth, Columns(|t.row|, colWidth));
            var u := Up(Feed(t, s), Newlines(s));
            && Newlines(s) > 0
            && u.row == t.row && u.erasesLast == t.erasesLast && u.col <= |u.row| && u.down >= t.down
            && (u.down == t.down <==> colWidth <= |t.row|)
  {
    var cols := Columns(|t.row|, colWidth);
    var s := Table(m, |m|, colWidth, cols);
    TableFits(m, |m|, colWidth, cols, if colWidth <= |t.row| then |t.row| else colWidth);
    FeedReturns(t, s);
  }
}

/** The part of a terminal that the line editor relies on: the row being edited, the cursor column,
    and how many rows below the edited row the cursor stands. */
module Terminal {
  import opened Bytes
  import opened Lines

  /** `col == |row|` is the deferred-wrap position reached after a byte is put in the last column. Terminals
      differ in what an erasure does there: `erasesLast` says that it erases the last cell. */
  datatype Terminal = Terminal(row: Text, col: nat, down: int, erasesLast: bool)

  function Poke(row: Text, col: nat, down: int, b: byte): Text {
    if down == 0 && col < |row| then row[col := b] else row
  }

  /** One byte of plain output. A newline also returns the carriage (raw mode leaves output
      processing on); any other byte takes one cell and wraps at the right edge. */
  function Put(t: Terminal, b: byte): (u: Terminal)
    ensures |u.row| == |t.row| && u.down >= t.down && u.erasesLast == t.erasesLast
    ensures t.col <= |t.row| && |t.row| > 0 ==> u.col <= |u.row|
  {
    if b == NEWLINE then t.(col := 0, down := t.down + 1)
    else if t.col < |t.row| then t.(row := Poke(t.row, t.col, t.down, b), col := t.col + 1)
    else t.(row := Poke(t.row, 0, t.down + 1, b), col := 1, down := t.down + 1)
  }

  function Feed(t: Terminal, s: Text): Terminal
    decreases |s|
  {
    if s == [] then t else Feed(Put(t, s[0]), s[1..])
  }

  /** `\r` */
  function CarriageReturn(t: Terminal): Terminal {
    t.(col := 0)
  }

  /** `ESC [0K` */
  function EraseRight(t: Terminal): Terminal {
    if t.down != 0 || t.col > |t.row| then t
    else t.(row := Erased(t.row, if t.col == |t.row| > 0 && t.erasesLast then t.col - 1 else t.col))
  }

  function Erased(row: Text, from: nat): (r: Text)
    requires from <= |row|
    ensures |r| == |row|
  {
    row[..from] + Spaces(|row| - from)
  }

  /** `ESC [nC`: terminals read a parameter of 0 as 1. */
  function Forward(t: Terminal, n: nat): Terminal {
    var wanted := t.col + if n == 0 then 1 else n;
    t.(col := if wanted < |t.row| then wanted else if |t.row| == 0 then 0 else |t.row| - 1)
  }

  /** `ESC [999D` on a terminal of at most 999 columns. */
  function FarLeft(t: Terminal): Terminal {
    t.(col := 0)
  }

  /** `ESC [1B` */
  function Down(t: Terminal): Terminal {
    t.(down := t.down + 1)
  }

  /** `ESC [nA` with n > 0. */
  function Up(t: Terminal, n: nat): Terminal {
    t.(down := t.down - n)
  }

  /** `ESC [H ESC [2J`: a blank screen whose first row becomes the edited row. */
  function ClearScreen(t: Terminal): Terminal {
    t.(row := Spaces(|t.row|), col := 0, down := 0)
  }

  // ---------- What the edited row should look like ----------

  /** How many bytes of the line are scrolled off at the left. */
  function ScrollOffset(plen: nat, pos: nat, cols: nat): (off: nat)
    requires plen < cols
    ensures off <= pos
  {
    if plen + pos < cols then 0 else plen + pos - cols + 1
  }

  /** The bytes of the line that fit between the prompt and the right edge. */
  function VisibleEnd(plen: nat, pos: nat, cols: nat, len: nat): (end: nat)
    requires plen < cols && pos <= len
    ensures pos <= end <= len
  {
    var end := ScrollOffset(plen, pos, cols) + cols - plen;
    if end < len then end else len
  }

  function Visible(plen: nat, text: Text, pos: nat, cols: nat): (s: Text)
    requires plen < cols && pos <= |text|
    ensures plen + |s| <= cols
  {
    text[ScrollOffset(plen, pos, cols)..VisibleEnd(plen, pos, cols, |text|)]
  }

  /** Does the slice shown fill the row, on a terminal whose last cell a redraw then erases? */
  predicate LosesLast(plen: nat, text: Text, pos: nat, cols: nat, erasesLast: bool)
    requires plen < cols && pos <= |text|
  {
    erasesLast && plen + |Visible(plen, text, pos, cols)| == cols
  }

  /** The full redraw of a line: prompt, visible slice, blanks, and the cursor on its byte. */
  function Redraw(prompt: Text, text: Text, pos: nat, cols: nat, erasesLast: bool): (t: Terminal)
    requires |prompt| < cols && pos <= |text|
    ensures |t.row| == cols
  {
    var shown := prompt + Visible(|prompt|, text, pos, cols);
    var row := if LosesLast(|prompt|, text, pos, cols, erasesLast) then Erased(shown, cols - 1)
               else shown + Spaces(cols - |shown|);
    Terminal(row, |prompt| + pos - ScrollOffset(|prompt|, pos, cols), 0, erasesLast)
  }

  /** What the escape sequence written by a redraw does to a terminal. */
  function RedrawEffect(t: Terminal, prompt: Text, shown: Text, right: nat): Terminal {
    Forward(CarriageReturn(EraseRight(Feed(Feed(CarriageReturn(t), prompt), shown))), right)
  }

  // ---------- Lemmas ----------

  /** Printable output that stays inside the edited row overwrites exactly its own cells. */
  lemma {:induction false} FeedInRow(t: Terminal, s: Text)
    requires t.down == 0 && t.col + |s| <= |t.row| && Printable(s)
    decreases |s|
    ensures Feed(t, s) == t.(row := t.row[..t.col] + s + t.row[t.col + |s|..], col := t.col + |s|)
  {
    if s == [] {
      assert t.row[..t.col] + s + t.row[t.col..] == t.row;
    } else {
      var u := Put(t, s[0]);
      FeedInRow(u, s[1..]);
      assert u.row[..u.col] == t.row[..t.col] + [s[0]];
      assert [s[0]] + s[1..] == s;
      assert t.row[..t.col] + [s[0]] + s[1..] == t.row[..t.col] + s;
      assert u.row[u.col + |s[1..]|..] == t.row[t.col + |s|..];
    }
  }

  /** The escape sequence of a redraw, whatever was on the row before, produces the redrawn row and
      cursor column, except that with an empty prompt and the cursor at the start of the line the
      parameter 0 of `ESC [0C` still moves the cursor one column right of where it belongs. */
  lemma RedrawIsExact(t: Terminal, prompt: Text, text: Text, pos: nat, cols: nat)
    requires t.down == 0 && |t.row| == cols
    requires |prompt| < cols && pos <= |text|
    requires Printable(prompt) && Printable(text)
    ensures var off := ScrollOffset(|prompt|, pos, cols);
            var after := RedrawEffect(t, prompt, Visible(|prompt|, text, pos, cols), |prompt| + pos - off);
            var wanted := Redraw(prompt, text, pos, cols, t.erasesLast);
            && after.row == wanted.row
            && after.down == 0
            && (after == wanted <==> |prompt| > 0 || pos > 0 || cols == 1)
            && (after != wanted ==> wanted.col == 0 && after.col == 1)
  {
    RedrawRow(t, prompt, text, pos, cols);
  }

  /** The row before the cursor is put in its place. */
  lemma RedrawRow(t: Terminal, prompt: Text, text: Text, pos: nat, cols: nat)
    requires t.down == 0 && |t.row| == cols
    requires |prompt| < cols && pos <= |text|
    requires Printable(prompt) && Printable(text)
    ensures var u := EraseRight(Feed(Feed(CarriageReturn(t), prompt), Visible(|prompt|, text, pos, cols)));
            && u.row == Redraw(prompt, text, pos, cols, t.erasesLast).row
            && u.down == 0 && u.erasesLast == t.erasesLast
  {
    VisibleIsPrintable(|prompt|, text, pos, cols);
    WrittenRow(t, prompt, Visible(|prompt|, text, pos, cols));
    RedrawnRow(prompt, text, pos, cols, t.erasesLast);
  }

  lemma VisibleIsPrintable(plen: nat, text: Text, pos: nat, cols: nat)
    requires plen < cols && pos <= |text| && Printable(text)
    ensures Printable(Visible(plen, text, pos, cols))
  {
  }

  lemma RedrawnRow(prompt: Text, text: Text, pos: nat, cols: nat, erasesLast: bool)
    requires |prompt| < cols && pos <= |text|
    ensures var written := prompt + Visible(|prompt|, text, pos, cols);
            Redraw(prompt, text, pos, cols, erasesLast).row
            == if |written| == cols && erasesLast then Erased(written, cols - 1)
               else written + Spaces(cols - |written|)
  {
  }

  lemma WrittenRow(t: Terminal, prompt: Text, shown: Text)
    requires t.down == 0 && |t.row| > 0 && |prompt| + |shown| <= |t.row|
    requires Printable(prompt) && Printable(shown)
    ensures var u := EraseRight(Feed(Feed(CarriageReturn(t), prompt), shown));
            var written := prompt + shown;
            && u.down == 0 && u.erasesLast == t.erasesLast
            && u.row == if |written| == |t.row| && t.erasesLast then Erased(written, |t.row| - 1)
                        else written + Spaces(|t.row| - |written|)
  {
    var written := prompt + shown;
    var rest := t.row[|written|..];
    PromptAndSlice(t, prompt, shown);
    ErasedBehind(written, rest, t.erasesLast);
  }

  /** An erasure behind what was written clears the rest of the row. */
  lemma ErasedBehind(written: Text, rest: Text, erasesLast: bool)
    requires written != [] || rest != []
    ensures var t := Terminal(written + rest, |written|, 0, erasesLast);
            EraseRight(t).row == if rest == [] && erasesLast then Erased(written, |written| - 1)
                                 else written + Spaces(|rest|)
  {
    assert rest == [] ==> written + rest == written;
    assert (written + rest)[..|written|] == written;
  }

  /** A redraw keeps the cursor on its row or below it, and the row's width. */
  lemma RedrawStays(t: Terminal, prompt: Text, shown: Text, right: nat)
    requires t.col <= |t.row| && |t.row| > 0
    ensures var u := RedrawEffect(t, prompt, shown, right);
            u.down >= t.down && |u.row| == |t.row| && u.col <= |u.row| && u.erasesLast == t.erasesLast
  {
    FeedNeverRises(CarriageReturn(t), prompt);
    FeedNeverRises(Feed(CarriageReturn(t), prompt), shown);
  }

  lemma PromptAndSlice(t: Terminal, prompt: Text, shown: Text)
    requires t.down == 0 && |prompt| + |shown| <= |t.row|
    requires Printable(prompt) && Printable(shown)
    ensures var n := |prompt| + |shown|;
            Feed(Feed(CarriageReturn(t), prompt), shown) == t.(row := prompt + shown + t.row[n..], col := n)
  {
    var t0 := CarriageReturn(t);
    FeedInRow(t0, prompt);
    var t1 := Feed(t0, prompt);
    assert t1.row[..t1.col] == prompt;
    FeedInRow(t1, shown);
    assert t1.row[|prompt| + |shown|..] == t.row[|prompt| + |shown|..];
  }

  /** The visible slice always contains the cursor: the cursor column lies on the row, and every cell behind
      the prompt shows the byte of the line that is as far from the cursor as the cell is, or a blank
      behind the end of the line, save the last cell where the terminal erases it. */
  lemma CursorIsVisible(prompt: Text, text: Text, pos: nat, cols: nat, erasesLast: bool)
    requires |prompt| < cols && pos <= |text|
    ensures var t := Redraw(prompt, text, pos, cols, erasesLast);
            var lost := LosesLast(|prompt|, text, pos, cols, erasesLast);
            && |prompt| <= t.col < cols
            && t.row[..|prompt|] == prompt
            && (forall k | |prompt| <= k < cols ::
                  var i := pos - t.col + k;
                  0 <= i && t.row[k] == (if i < |text| && !(lost && k == cols - 1) then text[i] else SPACE))
  {
  }

  /** Appending one byte at the end of a line that does not scroll is the redraw of the longer line. */
  lemma AppendIsRedraw(prompt: Text, text: Text, b: byte, cols: nat, erasesLast: bool)
    requires |prompt| + |text| + 1 < cols && IsPrintable(b)
    ensures Put(Redraw(prompt, text, |text|, cols, erasesLast), b)
         == Redraw(prompt, text + [b], |text| + 1, cols, erasesLast)
  {
    var t := Redraw(prompt, text, |text|, cols, erasesLast);
    var u := Redraw(prompt, text + [b], |text| + 1, cols, erasesLast);
    assert Visible(|prompt|, text, |text|, cols) == text;
    assert Visible(|prompt|, text + [b], |text| + 1, cols) == text + [b];
    assert t.row[t.col := b] == u.row;
  }

  lemma {:induction false} FeedSnoc(t: Terminal, s: Text, b: byte)
    ensures Feed(t, s + [b]) == Put(Feed(t, s), b)
    decreases |s|
  {
    if s == [] {
      assert Feed(t, [b]) == Feed(Put(t, b), []);
      assert [] + [b] == [b];
    } else {
      FeedSnoc(Put(t, s[0]), s[1..], b);
      assert (s + [b])[1..] == s[1..] + [b];
    }
  }

  lemma {:induction false} FeedAppend(t: Terminal, a: Text, b: Text)
    ensures Feed(t, a + b) == Feed(Feed(t, a), b)
    decreases |a|
  {
    if a == [] {
      assert a + b == b;
    } else {
      FeedAppend(Put(t, a[0]), a[1..], b);
      assert (a + b)[1..] == a[1..] + b;
    }
  }

  /** Output never moves the cursor up. */
  lemma {:induction false} FeedNeverRises(t: Terminal, s: Text)
    ensures var u := Feed(t, s);
            && u.down >= t.down && |u.row| == |t.row| && u.erasesLast == t.erasesLast
            && (t.col <= |t.row| && |t.row| > 0 ==> u.col <= |u.row|)
    decreases |s|
  {
    if s != [] {
      FeedNeverRises(Put(t, s[0]), s[1..]);
    }
  }

  /** Text that starts with a newline leaves the edited row alone, and moves the cursor down by at least the
      number of its newlines: by exactly that many when all its lines fit on the terminal, and by more
      otherwise. */
  lemma {:induction false} FeedReturns(t: Terminal, s: Text)
    requires t.down >= 0 && |t.row| > 0 && s != [] && s[0] == NEWLINE
    ensures var u := Feed(t, s);
            && u.row == t.row && u.erasesLast == t.erasesLast && u.col <= |u.row|
            && u.down >= t.down + Newlines(s) && Newlines(s) > 0
            && (u.down == t.down + Newlines(s) <==> Fits(s, |t.row|))
            && (Fits(s, |t.row|) ==> u.col == Column(s))
    decreases |s|
  {
    var n := |s| - 1;
    FeedSnoc(t, s[..n], s[n]);
    assert s == s[..n] + [s[n]];
    if n > 0 {
      FeedReturns(t, s[..n]);
    }
  }
}

/** The fixed-size edit buffer of the line editor and the keys that change it. */
module EditLine {
  import opened Bytes
  import opened Terminal

  const LINE_MAX := 1024

  // ---------- The line as a zipper ----------

  /** The text left of the cursor and the text from the cursor on. */
  datatype Zipper = Zipper(left: Text, right: Text) {
    function Content(): Text {
      left + right
    }

    ghost predicate Valid() {
      |left| + |right| < LINE_MAX && NulFree(left) && NulFree(right)
    }

    /** No control byte stands in the line, so that every byte takes one cell. */
    ghost predicate Plain() {
      Printable(left) && Printable(right)
    }

    function Insert(c: byte): Zipper {
      if |left| + |right| < LINE_MAX - 1 then Zipper(left + [c], right) else this
    }

    function Backspace(): Zipper {
      if left == [] then this else Zipper(left[..|left| - 1], right)
    }

    function Delete(): Zipper {
      if right == [] then this else Zipper(left, right[1..])
    }

    /** The cursor moved to offset `p` of the same text. */
    function Goto(p: nat): Zipper
      requires p <= |left| + |right|
    {
      Zipper(Content()[..p], Content()[p..])
    }

    function Left(): Zipper {
      if left == [] then this else Goto(|left| - 1)
    }

    function Right(): Zipper {
      if right == [] then this else Goto(|left| + 1)
    }

    function Home(): Zipper {
      Goto(0)
    }

    function End(): Zipper {
      Goto(|left| + |right|)
    }

    function KillRight(): Zipper {
      Zipper(left, [])
    }

    function KillLeft(): Zipper {
      Zipper([], right)
    }

    function WordLeft(): Zipper {
      Goto(WordStart(left))
    }

    function WordRight(): Zipper {
      Goto(SkipAhead(SkipAhead(|left|, Content(), false), Content(), true))
    }

    function BackspaceWord(): Zipper {
      Zipper(left[..WordStart(left)], right)
    }

    function DeleteWord(): Zipper {
      Zipper(left, Content()[SkipAhead(SkipAhead(|left|, Content(), true), Content(), false)..])
    }

    /** The symbol characters just left of the cursor. */
    function Prefix(): Text {
      LastSymbol(left)
    }

    /** The cursor moved right past the symbol it stands in. */
    function PastSymbol(): Zipper {
      Goto(SymbolEnd(|left|, Content()))
    }
  }

  /** The least `k <= n` such that `text[k..n]` holds only spaces (or, with `spaces` false, no space). */
  function SkipBack(text: Text, n: nat, spaces: bool): (k: nat)
    requires n <= |text|
    ensures k <= n
  {
    if n > 0 && IsSpace(text[n - 1]) == spaces then SkipBack(text, n - 1, spaces) else n
  }

  /** The end of the longest run from `i` on of spaces (or, with `spaces` false, of non-spaces). */
  function SkipAhead(i: nat, text: Text, spaces: bool): (k: nat)
    requires i <= |text|
    ensures i <= k <= |text|
    decreases |text| - i
  {
    if i < |text| && IsSpace(text[i]) == spaces then SkipAhead(i + 1, text, spaces) else i
  }

  /** Where the word that ends at the end of `left` starts, trailing spaces skipped first. */
  function WordStart(left: Text): (k: nat)
    ensures k <= |left|
  {
    SkipBack(left, SkipBack(left, |left|, true), false)
  }

  /** Where the run of symbol characters that starts at `i` ends. */
  function SymbolEnd(i: nat, text: Text): (k: nat)
    requires i <= |text|
    ensures i <= k <= |text|
    decreases |text| - i
  {
    if i < |text| && IsSymbolChar(text[i]) then SymbolEnd(i + 1, text) else i
  }

  /** Where the run of symbol characters that ends at `n` starts. */
  function SymbolStart(text: Text, n: nat): (k: nat)
    requires n <= |text|
    ensures k <= n
  {
    if n > 0 && IsSymbolChar(text[n - 1]) then SymbolStart(text, n - 1) else n
  }

  /** The symbol characters at the end of a text, and what stands in front of them. */
  function LastSymbol(text: Text): Text {
    text[SymbolStart(text, |text|)..]
  }

  function BeforeSymbol(text: Text): Text {
    text[..SymbolStart(text, |text|)]
  }

  // ---------- What the word boundaries are ----------

  /** `text[lo..hi]` is spaces, or `spaces` is false and it holds none. */
  predicate Uniform(text: Text, lo: nat, hi: nat, spaces: bool)
    requires lo <= hi <= |text|
  {
    forall i | lo <= i < hi :: IsSpace(text[i]) == spaces
  }

  lemma {:induction false} SkipBackIsMaximal(text: Text, n: nat, spaces: bool, k: nat)
    requires k <= n <= |text|
    ensures k == SkipBack(text, n, spaces) <==>
            Uniform(text, k, n, spaces) && (k == 0 || IsSpace(text[k - 1]) != spaces)
  {
    if n > 0 && IsSpace(text[n - 1]) == spaces && k < n {
      SkipBackIsMaximal(text, n - 1, spaces, k);
    }
  }

  lemma {:induction false} SkipAheadIsMaximal(i: nat, text: Text, spaces: bool, k: nat)
    requires i <= k <= |text|
    ensures k == SkipAhead(i, text, spaces) <==>
            Uniform(text, i, k, spaces) && (k == |text| || IsSpace(text[k]) != spaces)
    decreases |text| - i
  {
    if i < |text| && IsSpace(text[i]) == spaces && i < k {
      SkipAheadIsMaximal(i + 1, text, spaces, k);
    }
  }

  /** Deleting a word backwards removes exactly the bytes that the word motion moves over, and those
      bytes are a maximal run of non-spaces followed by a maximal run of spaces; nothing else splits
      that way. */
  lemma BackspaceWordRemovesTheMotion(z: Zipper, k: nat, m: nat)
    requires k <= m <= |z.left|
    ensures var stop := |z.WordLeft().left|;
            && stop <= |z.left|
            && z.BackspaceWord().Content() == z.Content()[..stop] + z.Content()[|z.left|..]
            && z.BackspaceWord().left == z.WordLeft().left
            && (k == stop && m == SkipBack(z.left, |z.left|, true) <==>
                && Uniform(z.left, m, |z.left|, true) && (m == 0 || !IsSpace(z.left[m - 1]))
                && Uniform(z.left, k, m, false) && (k == 0 || IsSpace(z.left[k - 1])))
  {
    SkipBackIsMaximal(z.left, |z.left|, true, m);
    SkipBackIsMaximal(z.left, m, false, k);
  }

  /** Deleting a word forwards removes exactly a maximal run of spaces and the maximal run of
      non-spaces after it; nothing else splits that way. */
  lemma DeleteWordRemovesSpacesThenWord(z: Zipper, m: nat, k: nat)
    requires |z.left| <= m <= k <= |z.Content()|
    ensures z.DeleteWord().left == z.left
    ensures var text := z.Content();
            (z.DeleteWord().right == text[k..] && m == SkipAhead(|z.left|, text, true) <==>
             && Uniform(text, |z.left|, m, true) && (m == |text| || !IsSpace(text[m]))
             && Uniform(text, m, k, false) && (k == |text| || IsSpace(text[k])))
  {
    var text := z.Content();
    SkipAheadIsMaximal(|z.left|, text, true, m);
    SkipAheadIsMaximal(m, text, false, k);
    assert |z.DeleteWord().right| == |text| - SkipAhead(SkipAhead(|z.left|, text, true), text, false);
  }

  /** The forward word motion crosses a maximal run of non-spaces, then the maximal run of spaces
      after it: the other way round from the forward word deletion. */
  lemma WordRightCrossesWordThenSpaces(z: Zipper, m: nat, k: nat)
    requires |z.left| <= m <= k <= |z.Content()|
    ensures var text := z.Content();
            (z.WordRight() == Zipper(text[..k], text[k..]) && m == SkipAhead(|z.left|, text, false) <==>
             && Uniform(text, |z.left|, m, false) && (m == |text| || IsSpace(text[m]))
             && Uniform(text, m, k, true) && (k == |text| || !IsSpace(text[k])))
  {
    var text := z.Content();
    SkipAheadIsMaximal(|z.left|, text, false, m);
    SkipAheadIsMaximal(m, text, true, k);
    assert |z.WordRight().right| == |text| - SkipAhead(SkipAhead(|z.left|, text, false), text, true);
  }

  lemma InsertIsValid(z: Zipper, c: byte)
    requires z.Valid() && c != 0
    ensures z.Insert(c).Valid()
  {
  }

  lemma ErasureIsValid(z: Zipper)
    requires z.Valid()
    ensures z.Backspace().Valid() && z.Delete().Valid() && z.KillLeft().Valid() && z.KillRight().Valid()
  {
  }

  lemma DropOne(text: Text, i: nat)
    ensures i < |text| ==> text[i..][0] == text[i] && text[i..][1..] == text[i + 1..]
  {
  }

  lemma {:induction false} SymbolEndIsMaximal(i: nat, text: Text)
    requires i <= |text|
    ensures var k := SymbolEnd(i, text);
            && Symbolic(text[i..k])
            && (k == |text| || !IsSymbolChar(text[k]))
    decreases |text| - i
  {
    if i < |text| && IsSymbolChar(text[i]) {
      SymbolEndIsMaximal(i + 1, text);
      assert text[i..SymbolEnd(i, text)] == [text[i]] + text[i + 1..SymbolEnd(i, text)];
    }
  }

  lemma {:induction false} SymbolStartIsMaximal(text: Text, n: nat)
    requires n <= |text|
    ensures var k := SymbolStart(text, n);
            && Symbolic(text[k..n])
            && (k == 0 || !IsSymbolChar(text[k - 1]))
  {
    if n > 0 && IsSymbolChar(text[n - 1]) {
      SymbolStartIsMaximal(text, n - 1);
      assert text[SymbolStart(text, n)..n] == text[SymbolStart(text, n)..n - 1] + [text[n - 1]];
    }
  }

  // ---------- The buffer ----------

  /** Shifts `a[at..len]` right by one, puts `c` in the gap, and terminates the longer string. */
  method OpenGap(a: array<byte>, at: nat, len: nat, c: byte)
    requires at <= len && len + 1 < a.Length
    modifies a
    ensures forall i | 0 <= i < at || len + 1 < i < a.Length :: a[i] == old(a[i])
    ensures a[at] == c
    ensures forall i {:trigger a[i]} | at < i <= len :: a[i] == old(a[i - 1])
    ensures a[len + 1] == 0
  {
    Memmove(a, at + 1, at, len - at);
    a[at] := c;
    a[len + 1] := 0;
  }

  /** Shifts the `n` bytes behind `a[at]` left by one, with or without the NUL at `a[len]`, and terminates
      the shorter string. */
  method CloseGap(a: array<byte>, at: nat, len: nat, n: nat)
    requires at < len < a.Length && len - at - 1 <= n <= len - at
    modifies a
    ensures forall i | 0 <= i < at || len <= i < a.Length :: a[i] == old(a[i])
    ensures forall i {:trigger a[i]} | at <= i < len - 1 :: a[i] == old(a[i + 1])
    ensures a[len - 1] == 0
  {
    Memmove(a, at, at + 1, n);
    a[len - 1] := 0;
  }

  /** The two loops of a redraw that find the slice of the line to show. With a prompt narrower than the
      terminal it is the visible slice; its length comes out negative exactly when the prompt is wider than
      the terminal, or as wide with the cursor at the end of the line. */
  method FitSlice(plen: nat, pos: nat, len: nat, cols: nat) returns (start: nat, shownLen: int, shownPos: int)
    requires pos <= len
    ensures plen < cols ==>
              && start == ScrollOffset(plen, pos, cols)
              && start + shownLen == VisibleEnd(plen, pos, cols, len)
              && shownPos == pos - start
    ensures shownLen < 0 <==> plen > cols || (plen == cols && pos == len)
  {
    start, shownLen, shownPos := 0, len, pos;
    ghost var off := if plen + pos < cols then 0 else plen + pos - cols + 1;
    while plen + shownPos >= cols
      invariant shownLen == len - start && shownPos == pos - start && start <= off
      decreases plen + shownPos
    {
      start := start + 1;
      shownLen := shownLen - 1;
      shownPos := shownPos - 1;
    }
    while plen + shownLen > cols
      invariant if len - off <= cols - plen then shownLen == len - off else cols - plen <= shownLen <= len - off
    {
      shownLen := shownLen - 1;
    }
  }

  class Buffer {
    const buf: array<byte>
    var len: nat
    var pos: nat
    var prompt: Text
    var cols: nat
    var term: Terminal

    /** A prompt as wide as the terminal makes the scrolling of a redraw run off the buffer (see `FitSlice`),
        so callers must keep it narrower. */
    ghost predicate Valid()
      reads this, buf
    {
      && buf.Length == LINE_MAX
      && pos <= len < LINE_MAX
      && buf[len] == 0
      && buf[LINE_MAX - 1] == 0
      && NulFree(buf[..len])
      && NulFree(prompt)
      && |prompt| < cols == |term.row|
      && term.col <= |term.row| && term.down >= 0
    }

    ghost function Zip(): (z: Zipper)
      requires Valid()
      reads this, buf
    {
      Zipper(buf[..pos], buf[pos..len])
    }

    ghost function Content(): Text
      requires Valid()
      reads this, buf
    {
      buf[..len]
    }

    /** Prompt and line take one cell a byte. With an empty prompt a redraw may misplace the cursor (see
        `RedrawIsExact`). */
    ghost predicate Plain()
      requires Valid()
      reads this, buf
    {
      prompt != [] && Printable(prompt) && Printable(Content())
    }

    /** The terminal shows the full redraw of the line, and the cursor stands on the edited row. */
    ghost predicate Shown()
      requires Valid()
      reads this, buf
    {
      term == Redraw(prompt, Content(), pos, cols, term.erasesLast)
    }

    constructor (cols: nat, erasesLast: bool)
      requires cols > 0
      ensures Valid() && Zip() == Zipper([], []) && fresh(buf)
      ensures this.cols == cols && term == Terminal(Spaces(cols), 0, 0, erasesLast)
    {
      buf := new byte[LINE_MAX](i => 0);
      len, pos := 0, 0;
      prompt := [];
      this.cols := cols;
      term := Terminal(Spaces(cols), 0, 0, erasesLast);
    }

    /** The start of a session: an empty line, and the prompt written at the start of a row. That shows the
        redraw of the line exactly when the row is blank behind the prompt. */
    method Begin(prompt: Text)
      requires Valid()
      requires NulFree(prompt) && |prompt| < |term.row| && term.col == 0 && term.down == 0
      modifies this, buf
      ensures Valid() && this.prompt == prompt && cols == old(|term.row|)
      ensures Zip() == Zipper([], [])
      ensures Printable(prompt) ==>
                (Shown() <==> old(term.row)[|prompt|..] == Spaces(cols - |prompt|))
    {
      cols := |term.row|;
      this.prompt := prompt;
      len, pos := 0, 0;
      buf[0] := 0;
      FeedNeverRises(term, prompt);
      if Printable(prompt) {
        FeedInRow(term, prompt);
        assert Visible(|prompt|, [], 0, cols) == [];
        PromptRow(prompt, term.row);
      }
      term := Feed(term, prompt);
    }

    lemma PromptRow(prompt: Text, row: Text)
      requires |prompt| < |row|
      ensures row[..0] + prompt + row[|prompt|..] == prompt + [] + Spaces(|row| - |prompt|)
              <==> row[|prompt|..] == Spaces(|row| - |prompt|)
    {
      var n := |prompt|;
      var r := row[..0] + prompt + row[n..];
      var blank := prompt + [] + Spaces(|row| - n);
      assert r[n..] == row[n..] && blank[n..] == Spaces(|row| - n);
      assert r == prompt + r[n..] && blank == prompt + blank[n..];
    }

    /** Redraws the row, or the row below it that the cursor has strayed to. */
    method Refresh()
      requires Valid()
      modifies this`term
      ensures Valid() && term.down >= old(term.down)
      ensures old(term.down) == 0 && Printable(prompt) && Printable(Content()) ==>
                (Shown() <==> prompt != [] || pos > 0 || cols == 1)
    {
      var start, shownLen, shownPos := FitSlice(|prompt|, pos, len, cols);
      var shown := buf[start..start + shownLen];
      assert shown == Visible(|prompt|, Content(), pos, cols);
      RedrawShows(shown, (shownPos + |prompt|) as nat);
      term := RedrawEffect(term, prompt, shown, (shownPos + |prompt|) as nat);
    }

    lemma RedrawShows(shown: Text, right: nat)
      requires Valid()
      requires shown == Visible(|prompt|, Content(), pos, cols)
      requires right == |prompt| + pos - ScrollOffset(|prompt|, pos, cols)
      ensures var u := RedrawEffect(term, prompt, shown, right);
              && u.down >= term.down && |u.row| == cols && u.col <= cols && u.erasesLast == term.erasesLast
              && (term.down == 0 && Printable(prompt) && Printable(Content()) ==>
                    (u == Redraw(prompt, Content(), pos, cols, u.erasesLast) <==> prompt != [] || pos > 0 || cols == 1))
    {
      RedrawStays(term, prompt, shown, right);
      if term.down == 0 && Printable(prompt) && Printable(Content()) {
        RedrawIsExact(term, prompt, Content(), pos, cols);
      }
    }

    /** `draw` asks for the row to be brought up to date: by one written byte when the cursor is at
        the end of a line that does not scroll, by a redraw otherwise. */
    method Insert(c: byte, draw: bool)
      requires Valid() && c != 0
      modifies this`len, this`pos, this`term, buf
      ensures Valid() && Zip() == old(Zip()).Insert(c)
      ensures term.down >= old(term.down)
      ensures draw && Plain() && old(Shown()) ==> Shown()
      ensures !draw ==> term == old(term)
    {
      if len < LINE_MAX - 1 {
        if len == pos {
          Append(c, draw);
        } else {
          InsertWithin(c);
          if draw {
            Refresh();
          }
        }
      }
    }

    method Append(c: byte, draw: bool)
      requires Valid() && c != 0 && pos == len < LINE_MAX - 1
      modifies this`len, this`pos, this`term, buf
      ensures Valid() && Zip() == Zipper(old(Zip()).left + [c], [])
      ensures term.down >= old(term.down)
      ensures draw && Plain() && old(Shown()) ==> Shown()
      ensures !draw ==> term == old(term)
    {
      ghost var before := Content();
      buf[pos] := c;
      pos := pos + 1;
      len := len + 1;
      buf[len] := 0;
      assert Content() == before + [c];
      if draw {
        if |prompt| + len < cols {
          if Plain() {
            assert IsPrintable(Content()[len - 1]);
            AppendIsRedraw(prompt, before, c, cols, term.erasesLast);
          }
          term := Put(term, c);
        } else {
          Refresh();
        }
      }
    }

    method InsertWithin(c: byte)
      requires Valid() && c != 0 && pos < len < LINE_MAX - 1
      modifies this`len, this`pos, buf
      ensures Valid() && Zip() == old(Zip()).Insert(c)
    {
      ghost var z := Zip();
      ZipIsValid();
      OpenGap(buf, pos, len, c);
      pos := pos + 1;
      len := len + 1;
      InsertIsValid(z, c);
      Spells(z.Insert(c));
    }

    method Backspace(draw: bool)
      requires Valid()
      modifies this`len, this`pos, this`term, buf
      ensures Valid() && Zip() == old(Zip()).Backspace()
      ensures term.down >= old(term.down)
      ensures draw && Plain() && old(Shown()) ==> Shown()
      ensures !draw ==> term == old(term)
    {
      if pos > 0 {
        ghost var z := Zip();
        ZipIsValid();
        CloseGap(buf, pos - 1, len, len - pos);
        pos := pos - 1;
        len := len - 1;
        ErasureIsValid(z);
        Spells(z.Backspace());
        if draw {
          Refresh();
        }
      }
    }

    method Delete(draw: bool)
      requires Valid()
      modifies this`len, this`term, buf
      ensures Valid() && Zip() == old(Zip()).Delete()
      ensures term.down >= old(term.down)
      ensures draw && Plain() && old(Shown()) ==> Shown()
      ensures !draw ==> term == old(term)
    {
      if pos != len {
        DeleteHere();
        if draw {
          Refresh();
        }
      }
    }

    method DeleteHere()
      requires Valid() && pos < len
      modifies this`len, buf
      ensures Valid() && Zip() == old(Zip()).Delete()
    {
      ghost var z := Zip();
      ZipIsValid();
      CloseGap(buf, pos, len, len - pos);
      len := len - 1;
      ErasureIsValid(z);
      Spells(z.Delete());
    }

    /** Byte by byte, the buffer spells `z`, with the cursor where `z` has it. */
    lemma Spells(z: Zipper)
      requires buf.Length == LINE_MAX && |prompt| < cols == |term.row| && NulFree(prompt)
      requires term.col <= |term.row| && term.down >= 0
      requires z.Valid() && pos == |z.left| && len == |z.left| + |z.right|
      requires buf[len] == 0 && buf[LINE_MAX - 1] == 0
      requires forall i | 0 <= i < |z.left| :: buf[i] == z.left[i]
      requires forall i {:trigger buf[i]} | pos <= i < len :: buf[i] == z.right[i - pos]
      ensures Valid() && Zip() == z
    {
      assert buf[..pos] == z.left;
      assert buf[pos..len] == z.right;
      assert buf[..len] == z.left + z.right;
    }

    lemma ZipIsValid()
      requires Valid()
      ensures Zip().Valid()
    {
    }

    lemma Gone(z: Zipper, p: nat)
      requires Valid() && Content() == z.Content() && pos == p
      ensures Zip() == z.Goto(p)
    {
      assert buf[pos..len] == z.Content()[p..];
    }

    lemma ContentIsZip()
      requires Valid()
      ensures Content() == Zip().Content()
    {
    }

    method Home()
      requires Valid()
      modifies this`pos, this`term
      ensures Valid() && Zip() == old(Zip()).Home()
      ensures term.down >= old(term.down)
      ensures Plain() && old(Shown()) ==> Shown()
    {
      ContentIsZip();
      pos := 0;
      Gone(old(Zip()), 0);
      Refresh();
    }

    method End()
      requires Valid()
      modifies this`pos, this`term
      ensures Valid() && Zip() == old(Zip()).End()
      ensures term.down >= old(term.down)
      ensures Plain() && old(Shown()) ==> Shown()
    {
      ContentIsZip();
      pos := len;
      Gone(old(Zip()), pos);
      Refresh();
    }

    method Left()
      requires Valid()
      modifies this`pos, this`term
      ensures Valid() && Zip() == old(Zip()).Left()
      ensures term.down >= old(term.down)
      ensures Plain() && old(Shown()) ==> Shown()
    {
      ContentIsZip();
      if pos > 0 {
        pos := pos - 1;
        Gone(old(Zip()), pos);
        Refresh();
      }
    }

    method Right()
      requires Valid()
      modifies this`pos, this`term
      ensures Valid() && Zip() == old(Zip()).Right()
      ensures term.down >= old(term.down)
      ensures Plain() && old(Shown()) ==> Shown()
    {
      ContentIsZip();
      if pos != len {
        pos := pos + 1;
        Gone(old(Zip()), pos);
        Refresh();
      }
    }

    method WordLeft()
      requires Valid()
      modifies this`pos, this`term
      ensures Valid() && Zip() == old(Zip()).WordLeft()
      ensures term.down >= old(term.down)
      ensures Plain() && old(Shown()) ==> Shown()
    {
      ContentIsZip();
      LeftWhile(true, Zip().left);
      LeftWhile(false, old(Zip()).left);
      Gone(old(Zip()), pos);
      Refresh();
    }

    /** Moves left while the byte left of the cursor is a space (or is none). */
    method LeftWhile(spaces: bool, ghost left: Text)
      requires Valid() && pos <= |left| && left[..pos] == buf[..pos]
      modifies this`pos
      ensures Valid() && pos == SkipBack(left, old(pos), spaces) && left[..pos] == buf[..pos]
    {
      while pos > 0 && IsSpace(buf[pos - 1]) == spaces
        invariant Valid() && pos <= |left| && left[..pos] == buf[..pos]
        invariant SkipBack(left, pos, spaces) == SkipBack(left, old(pos), spaces)
        decreases pos
      {
        assert buf[pos - 1] == buf[..pos][pos - 1] == left[pos - 1];
        pos := pos - 1;
        assert left[..pos] == left[..pos + 1][..pos];
      }
      assert pos > 0 ==> buf[pos - 1] == buf[..pos][pos - 1] == left[pos - 1];
    }

    method WordRight()
      requires Valid()
      modifies this`pos, this`term
      ensures Valid() && Zip() == old(Zip()).WordRight()
      ensures term.down >= old(term.down)
      ensures Plain() && old(Shown()) ==> Shown()
    {
      ContentIsZip();
      RightWhile(false);
      RightWhile(true);
      Gone(old(Zip()), pos);
      Refresh();
    }

    /** Moves right while the byte under the cursor is a space (or is none). */
    method RightWhile(spaces: bool)
      requires Valid()
      modifies this`pos
      ensures Valid() && pos == SkipAhead(old(pos), Content(), spaces)
    {
      ghost var text := Content();
      while pos != len && IsSpace(buf[pos]) == spaces
        invariant pos <= len
        invariant SkipAhead(pos, text, spaces) == SkipAhead(old(pos), text, spaces)
        decreases len - pos
      {
        pos := pos + 1;
      }
    }

    method BackspaceWord()
      requires Valid()
      modifies this`len, this`pos, this`term, buf
      ensures Valid() && Zip() == old(Zip()).BackspaceWord()
      ensures term.down >= old(term.down)
      ensures Plain() && old(Shown()) ==> Shown()
    {
      ghost var z := Zip();
      BackspaceWhile(true, z);
      BackspaceWhile(false, z);
      Refresh();
    }

    /** Erases backwards while the byte left of the cursor is a space (or is none). */
    method BackspaceWhile(spaces: bool, ghost z: Zipper)
      requires Valid() && pos <= |z.left| && Zip() == Zipper(z.left[..pos], z.right)
      modifies this`len, this`pos, this`term, buf
      ensures Valid() && pos == SkipBack(z.left, old(pos), spaces) && Zip() == Zipper(z.left[..pos], z.right)
      ensures term == old(term)
    {
      while pos > 0 && IsSpace(buf[pos - 1]) == spaces
        invariant Valid() && pos <= |z.left| && Zip() == Zipper(z.left[..pos], z.right)
        invariant SkipBack(z.left, pos, spaces) == SkipBack(z.left, old(pos), spaces)
        invariant term == old(term)
        decreases pos
      {
        assert buf[pos - 1] == Zip().left[pos - 1] == z.left[pos - 1];
        Backspace(false);
      }
      assert pos > 0 ==> buf[pos - 1] == Zip().left[pos - 1] == z.left[pos - 1];
    }

    method DeleteWord()
      requires Valid()
      modifies this`len, this`term, buf
      ensures Valid() && Zip() == old(Zip()).DeleteWord()
      ensures term.down >= old(term.down)
      ensures Plain() && old(Shown()) ==> Shown()
    {
      ContentIsZip();
      ghost var z, text := Zip(), Content();
      ghost var i := DeleteWhile(true, text, pos);
      i := DeleteWhile(false, text, i);
      Refresh();
    }

    /** Erases forwards while the byte under the cursor is a space (or is none). */
    method DeleteWhile(spaces: bool, ghost text: Text, ghost i: nat) returns (ghost k: nat)
      requires Valid() && i <= |text| && Zip().right == text[i..]
      modifies this`len, this`term, buf
      ensures Valid() && k == SkipAhead(i, text, spaces) && Zip() == Zipper(old(Zip()).left, text[k..])
      ensures term == old(term)
    {
      ghost var left := Zip().left;
      k := i;
      while pos < len && IsSpace(buf[pos]) == spaces
        invariant Valid() && k <= |text| && Zip() == Zipper(left, text[k..])
        invariant SkipAhead(k, text, spaces) == SkipAhead(i, text, spaces)
        invariant term == old(term)
        decreases len
      {
        UnderCursor(text, k);
        DeleteOne(left, text, k);
        k := k + 1;
      }
      UnderCursor(text, k);
    }

    method DeleteOne(ghost left: Text, ghost text: Text, ghost k: nat)
      requires Valid() && k < |text| && Zip() == Zipper(left, text[k..])
      modifies this`len, this`term, buf
      ensures Valid() && Zip() == Zipper(left, text[k + 1..])
      ensures term == old(term) && len == old(len) - 1
    {
      DropOne(text, k);
      LengthIsZip();
      Delete(false);
      LengthIsZip();
    }

    lemma LengthIsZip()
      requires Valid()
      ensures len == |Zip().left| + |Zip().right|
    {
    }

    lemma UnderCursor(text: Text, k: nat)
      requires Valid() && k <= |text| && Zip().right == text[k..]
      ensures pos < len <==> k < |text|
      ensures pos < len ==> buf[pos] == text[k]
    {
      assert pos < len ==> Zip().right[0] == buf[pos];
    }

    method KillRight()
      requires Valid()
      modifies this`len, this`term, buf
      ensures Valid() && Zip() == old(Zip()).KillRight()
      ensures term.down >= old(term.down)
      ensures Plain() && old(Shown()) ==> Shown()
    {
      ghost var z := Zip();
      ZipIsValid();
      buf[pos] := 0;
      len := pos;
      ErasureIsValid(z);
      Spells(z.KillRight());
      Refresh();
    }

    method KillLeft()
      requires Valid()
      modifies this`len, this`pos, this`term, buf
      ensures Valid() && Zip() == old(Zip()).KillLeft()
      ensures term.down >= old(term.down)
      ensures Plain() && old(Shown()) ==> Shown()
    {
      ghost var z := Zip();
      ZipIsValid();
      Memmove(buf, 0, pos, len - pos);
      len := len - pos;
      buf[len] := 0;
      pos := 0;
      ErasureIsValid(z);
      Spells(z.KillLeft());
      Refresh();
    }

    /** The newline after a session: the next row, whatever stands on it, becomes the edited one. */
    method NextRow(row: Text)
      requires Valid() && |row| == cols
      modifies this`term
      ensures Valid() && term == Terminal(row, 0, 0, old(term.erasesLast))
    {
      term := Terminal(row, 0, 0, term.erasesLast);
    }

    method Clear()
      requires Valid()
      modifies this`term
      ensures Valid() && (Plain() ==> Shown())
    {
      term := ClearScreen(term);
      Refresh();
    }

    /** Moves past the symbol under the cursor. The terminating NUL stops the loop. */
    method SkipSymbol()
      requires Valid()
      modifies this`pos
      ensures Valid() && Zip() == old(Zip()).PastSymbol()
    {
      ContentIsZip();
      ghost var text := Content();
      while IsSymbolChar(buf[pos])
        invariant pos <= len
        invariant SymbolEnd(pos, text) == SymbolEnd(old(pos), text)
        decreases len - pos
      {
        pos := pos + 1;
      }
      Gone(old(Zip()), pos);
    }

    /** The symbol characters that end at the cursor. */
    method SymbolPrefix() returns (prefix: Text)
      requires Valid()
      ensures prefix == Zip().Prefix()
    {
      ghost var left := Zip().left;
      var i: nat := pos;
      while i > 0 && IsSymbolChar(buf[i - 1])
        invariant i <= pos
        invariant SymbolStart(left, i) == SymbolStart(left, pos)
      {
        i := i - 1;
      }
      prefix := buf[i..pos];
    }

    /** `strncpy` of at most `LINE_MAX - 1` bytes of a C string, padded with NULs, then `strlen`.
        The last byte of the buffer is never written, so the length is always found. */
    method Load(s: Text)
      requires Valid() && NulFree(s)
      modifies this`len, this`pos, buf
      ensures Valid()
      ensures Zip() == Zipper(if |s| < LINE_MAX then s else s[..LINE_MAX - 1], [])
    {
      var i := 0;
      while i < LINE_MAX - 1
        invariant i <= LINE_MAX - 1
        invariant forall j | 0 <= j < i :: buf[j] == if j < |s| then s[j] else 0
        invariant buf[LINE_MAX - 1] == 0
      {
        buf[i] := if i < |s| then s[i] else 0;
        i := i + 1;
      }
      ghost var n := if |s| < LINE_MAX then |s| else LINE_MAX - 1;
      assert forall j | 0 <= j < n :: s[j] != 0 && buf[j] == s[j];
      i := 0;
      while buf[i] != 0
        decreases n - i
        invariant i <= n
        invariant buf[LINE_MAX - 1] == 0
        invariant forall j | 0 <= j < LINE_MAX - 1 :: buf[j] == if j < |s| then s[j] else 0
        invariant forall j | 0 <= j < n :: buf[j] != 0
      {
        i := i + 1;
      }
      len, pos := i, i;
      buf[len] := 0;
      assert buf[..len] == s[..n];
    }
  }
}

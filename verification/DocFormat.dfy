/** The word wrapper that prints documentation strings. */
module DocFormat {
  import opened Bytes
  import opened Lines

  const TAB: byte := 9
  const WORD_MAX := 256
  const INDENT: Text := [SPACE, SPACE, SPACE, SPACE]
  const BREAK: Text := [NEWLINE, SPACE, SPACE, SPACE, SPACE]

  predicate IsBlank(b: byte) {
    b == SPACE || b == TAB || b == NEWLINE
  }

  // ---------- Observations on a text ----------

  function Strip(s: Text): Text {
    if s == [] then []
    else
      var before := Strip(s[..|s| - 1]);
      if IsBlank(s[|s| - 1]) then before else before + [s[|s| - 1]]
  }

  /** The words of a text that are complete, and the one it ends in. */
  datatype Words = Words(complete: seq<Text>, last: Text)

  function Step(w: Words, b: byte): Words {
    if !IsBlank(b) then Words(w.complete, w.last + [b])
    else if w.last == [] then w
    else Words(w.complete + [w.last], [])
  }

  function Scan(w: Words, s: Text): Words {
    if s == [] then w else Step(Scan(w, s[..|s| - 1]), s[|s| - 1])
  }

  /** The words of a text: its maximal runs of non-blanks, in order. */
  function WordsOf(s: Text): seq<Text> {
    var w := Scan(Words([], []), s);
    if w.last == [] then w.complete else w.complete + [w.last]
  }

  /** The cells that the unbreakable run at the end of a text takes: tabs count twice. */
  function Run(s: Text): nat {
    if s == [] || Separates(s[|s| - 1]) then 0 else Run(s[..|s| - 1]) + |Cells(s[|s| - 1])|
  }

  /** No unbreakable run takes `limit` cells or more. */
  predicate ShortRuns(s: Text, limit: int) {
    forall i | 0 <= i <= |s| :: Run(s[..i]) < limit
  }

  /** The cells that the paragraph at the end of a text takes: tabs count twice. */
  function Para(s: Text): nat {
    if s == [] || s[|s| - 1] == NEWLINE then 0 else Para(s[..|s| - 1]) + |Cells(s[|s| - 1])|
  }

  /** Every paragraph fits on a line of `limit` cells, one cell spared. */
  predicate NarrowParas(s: Text, limit: int) {
    forall i | 0 <= i <= |s| :: Para(s[..i]) + 1 < limit
  }

  /** A space or a newline ends an unbreakable run; a tab, which is blank as well, does not. */
  predicate Separates(b: byte) {
    b == SPACE || b == NEWLINE
  }

  /** The bytes that a byte of the documentation adds to the pending word: a tab adds two spaces. */
  function Cells(b: byte): (extra: Text)
    ensures |extra| == if b == TAB then 2 else 1
  {
    if b == TAB then [SPACE, SPACE] else [b]
  }

  // ---------- Where lines break and words are cut ----------

  /** How full the line is that a text ends in: the cells used by its finished words, each with a space, and
      the cells of the word at its end, which may still move to the next line. */
  datatype Fill = Fill(used: nat, word: nat) {
    /** The line with the word at its end finished. */
    function Flushed(maxcol: int): nat {
      if word == 0 then used else if maxcol > used + word + 1 then used + 1 + word else word
    }

    /** A word that does not fit behind others breaks the line when it is finished. */
    predicate BreaksAtEnd(maxcol: int) {
      word > 0 && used > 0 && maxcol <= used + word + 1
    }

    /** A byte that does not fit breaks the line. */
    predicate BreaksAt(b: byte, maxcol: int) {
      !Separates(b) && maxcol <= used + word + |Cells(b)|
    }
  }

  function FillOf(s: Text, maxcol: int): Fill {
    if s == [] then Fill(0, 0)
    else
      var f, b := FillOf(s[..|s| - 1], maxcol), s[|s| - 1];
      if b == NEWLINE then Fill(0, 0)
      else if b == SPACE then Fill(f.Flushed(maxcol), 0)
      else if f.BreaksAt(b, maxcol) then Fill(0, (if f.used == 0 then 0 else f.word) + |Cells(b)|)
      else Fill(f.used, f.word + |Cells(b)|)
  }

  /** The line breaks that a text needs besides its own newlines, before its last word is finished. */
  function Breaks(s: Text, maxcol: int): nat {
    if s == [] then 0
    else
      var f, b := FillOf(s[..|s| - 1], maxcol), s[|s| - 1];
      Breaks(s[..|s| - 1], maxcol)
      + if (if Separates(b) then f.BreaksAtEnd(maxcol) else f.BreaksAt(b, maxcol)) then 1 else 0
  }

  /** A line break inside a word: a non-blank follows one, and the word fills a line of its own. */
  predicate CutsAt(s: Text, b: byte, maxcol: int) {
    && !IsBlank(b) && s != [] && !IsBlank(s[|s| - 1])
    && FillOf(s, maxcol).used == 0 && FillOf(s, maxcol).BreaksAt(b, maxcol)
  }

  function Cuts(s: Text, maxcol: int): nat {
    if s == [] then 0
    else Cuts(s[..|s| - 1], maxcol) + if CutsAt(s[..|s| - 1], s[|s| - 1], maxcol) then 1 else 0
  }

  lemma FillSnoc(s: Text, b: byte, maxcol: int)
    ensures var f := FillOf(s, maxcol);
            && FillOf(s + [b], maxcol)
               == (if b == NEWLINE then Fill(0, 0)
                   else if b == SPACE then Fill(f.Flushed(maxcol), 0)
                   else if f.BreaksAt(b, maxcol) then Fill(0, (if f.used == 0 then 0 else f.word) + |Cells(b)|)
                   else Fill(f.used, f.word + |Cells(b)|))
            && Breaks(s + [b], maxcol) == Breaks(s, maxcol)
               + (if (if Separates(b) then f.BreaksAtEnd(maxcol) else f.BreaksAt(b, maxcol)) then 1 else 0)
            && Cuts(s + [b], maxcol) == Cuts(s, maxcol) + (if CutsAt(s, b, maxcol) then 1 else 0)
            && Newlines(s + [b]) == Newlines(s) + (if b == NEWLINE then 1 else 0)
  {
    assert (s + [b])[..|s|] == s;
  }

  /** Only a run that is too long for a line is cut. */
  lemma {:induction false} ShortRunsAreNotCut(s: Text, maxcol: int)
    requires ShortRuns(s, maxcol)
    ensures Cuts(s, maxcol) == 0 && FillOf(s, maxcol).word <= Run(s)
  {
    assert s[..|s|] == s;
    if s != [] {
      var n := |s| - 1;
      forall i | 0 <= i <= n ensures Run(s[..n][..i]) < maxcol {
        assert s[..n][..i] == s[..i];
      }
      ShortRunsAreNotCut(s[..n], maxcol);
      assert s == s[..n] + [s[n]];
    }
  }

  /** As long as every paragraph fits on a line, no line break is added. */
  lemma {:induction false} NarrowParasDoNotBreak(s: Text, maxcol: int)
    requires NarrowParas(s, maxcol)
    ensures Breaks(s, maxcol) == 0 && Breaks(s + [SPACE], maxcol) == 0
    ensures FillOf(s, maxcol).used + FillOf(s, maxcol).word <= Para(s)
  {
    assert s[..|s|] == s;
    if s != [] {
      var n := |s| - 1;
      forall i | 0 <= i <= n ensures Para(s[..n][..i]) + 1 < maxcol {
        assert s[..n][..i] == s[..i];
      }
      NarrowParasDoNotBreak(s[..n], maxcol);
    }
    FillSnoc(s, SPACE, maxcol);
  }

  // ---------- Lemmas ----------

  lemma {:induction false} StripAppend(a: Text, b: Text)
    ensures Strip(a + b) == Strip(a) + Strip(b)
  {
    if b == [] {
      assert a + b == a;
    } else {
      var n := |b| - 1;
      StripAppend(a, b[..n]);
      assert (a + b)[..|a + b| - 1] == a + b[..n];
    }
  }

  lemma BreakIs(a: Text, width: int)
    requires Fits(a, width) && width >= 4
    ensures Fits(a + BREAK, width) && Column(a + BREAK) == 4
    ensures Strip(a + BREAK) == Strip(a) && Newlines(a + BREAK) == Newlines(a) + 1
  {
    var b := a + [NEWLINE];
    assert b[..|a|] == a;
    FitsAppend(b, INDENT, width);
    StripIndent();
    StripAppend(b, INDENT);
    NewlinesAppend(b, INDENT);
    assert b + INDENT == a + BREAK;
  }

  lemma StripIndent()
    ensures Strip(INDENT) == [] && NEWLINE !in INDENT
  {
    BlanksStripToNothing(INDENT);
  }

  lemma {:induction false} BlanksStripToNothing(s: Text)
    requires forall i | 0 <= i < |s| :: IsBlank(s[i])
    ensures Strip(s) == []
  {
    if s != [] {
      BlanksStripToNothing(s[..|s| - 1]);
    }
  }

  lemma {:induction false} ScanAppend(w: Words, a: Text, b: Text)
    ensures Scan(w, a + b) == Scan(Scan(w, a), b)
  {
    if b == [] {
      assert a + b == a;
    } else {
      var n := |b| - 1;
      ScanAppend(w, a, b[..n]);
      assert (a + b)[..|a + b| - 1] == a + b[..n];
    }
  }

  /** A non-empty run of blanks ends the word, whatever the blanks are. */
  lemma {:induction false} ScanBlanks(w: Words, s: Text)
    requires forall i | 0 <= i < |s| :: IsBlank(s[i])
    ensures Scan(w, s) == if s == [] then w else Step(w, SPACE)
  {
    if s != [] {
      ScanBlanks(w, s[..|s| - 1]);
    }
  }

  lemma StripSnoc(s: Text, b: byte)
    ensures Strip(s + [b]) == if IsBlank(b) then Strip(s) else Strip(s) + [b]
  {
    assert (s + [b])[..|s|] == s;
  }

  ghost const START := Words([], [])

  // ---------- The printer ----------

  /** The cells that a line of documentation may take after its indentation. */
  function Limit(maxcol: int): int {
    if maxcol > 2 then maxcol else 2
  }

  function MaxCol(width: int): int {
    if width - 8 > 200 then 200 else width - 8
  }

  /** What every step keeps about the layout: `word` is the pending word, `current` an upper bound of the
      cells used on the line behind the indentation, and `lines` the newlines counted for the later
      return to the edited row. */
  ghost predicate Layout(out: Text, word: Text, current: nat, lines: nat, maxcol: int) {
    && current <= Limit(maxcol)
    && |word| <= Limit(maxcol)
    && (current > 0 && word != [] ==> current + |word| < maxcol)
    && NEWLINE !in word
    && Fits(out, 4 + Limit(maxcol))
    && (if current == 0 then Column(out) == 4 else Column(out) <= 4 + current)
    && lines == Newlines(out)
  }

  /** The text whose words are those of the documentation handled so far: the output, the separator that
      will precede the pending word, and that word. */
  ghost function Pending(out: Text, word: Text, current: nat): Text {
    (if current > 0 then out + [SPACE] else out) + word
  }

  /** The words of a text with `cuts` words cut in two, compared with those of the text. */
  ghost predicate Alike(w: Words, original: Words, cuts: nat) {
    && |w.complete| == |original.complete| + cuts
    && (w.last == [] <==> original.last == [])
    && (cuts == 0 ==> w == original)
  }

  /** What every step keeps about the content. */
  ghost predicate Faithful(out: Text, word: Text, current: nat, done: Text, maxcol: int) {
    && Strip(out) + Strip(word) == Strip(done)
    && (current == 0 ==> Scan(START, out).last == [])
    && Alike(Scan(START, Pending(out, word, current)), Scan(START, done), Cuts(done, maxcol))
  }

  lemma AlikeStep(w: Words, original: Words, cuts: nat, b: byte)
    requires Alike(w, original, cuts)
    ensures Alike(Step(w, b), Step(original, b), cuts)
  {
  }

  /** A line break in front of a byte cuts the word that the byte continues, if there is one. */
  lemma AlikeCut(w: Words, original: Words, cuts: nat, b: byte)
    requires Alike(w, original, cuts)
    ensures Alike(Step(Step(w, SPACE), b), Step(original, b),
                  cuts + if !IsBlank(b) && original.last != [] then 1 else 0)
  {
  }

  /** A text ends in a word when it ends in a non-blank. */
  lemma LastWord(s: Text)
    ensures Scan(START, s).last != [] <==> s != [] && !IsBlank(s[|s| - 1])
  {
  }

  lemma WordsOfIs(s: Text)
    ensures WordsOf(s) == Step(Scan(START, s), SPACE).complete
  {
  }

  lemma ScanSnoc(w: Words, s: Text, b: byte)
    ensures Scan(w, s + [b]) == Step(Scan(w, s), b)
  {
    assert (s + [b])[..|s|] == s;
  }

  predicate Blanks(s: Text) {
    s != [] && forall i | 0 <= i < |s| :: IsBlank(s[i])
  }

  lemma ScanBreak(s: Text, blanks: Text)
    requires Blanks(blanks)
    ensures Scan(START, s + blanks) == Step(Scan(START, s), SPACE)
  {
    ScanAppend(START, s, blanks);
    ScanBlanks(Scan(START, s), blanks);
  }

  lemma CellsStrip(word: Text, b: byte)
    requires !Separates(b)
    ensures Strip(word + Cells(b)) == if IsBlank(b) then Strip(word) else Strip(word) + [b]
  {
    StripSnoc(word, b);
    if b == TAB {
      StripAppend(word, Cells(b));
      BlanksStripToNothing(Cells(b));
    }
  }

  lemma CellsScan(w: Words, b: byte)
    requires !Separates(b)
    ensures Scan(w, Cells(b)) == Step(w, b)
  {
    if b == TAB {
      ScanBlanks(w, Cells(b));
    } else {
      ScanSnoc(w, [], b);
      assert [] + [b] == [b];
    }
  }

  lemma Appended(x: Text, y: Text, b: byte)
    ensures x + (y + [b]) == x + y + [b]
  {
  }

  lemma ContentGrows(out: Text, word: Text, done: Text, b: byte)
    requires Strip(out) + Strip(word) == Strip(done) && !Separates(b)
    ensures Strip(out) + Strip(word + Cells(b)) == Strip(done + [b])
  {
    CellsStrip(word, b);
    StripSnoc(done, b);
    Appended(Strip(out), Strip(word), b);
  }

  lemma ScanGrows(before: Text, b: byte)
    requires !Separates(b)
    ensures Scan(START, before + Cells(b)) == Step(Scan(START, before), b)
  {
    CellsScan(Scan(START, before), b);
    ScanAppend(START, before, Cells(b));
  }

  /** A byte is added to the pending word, which stays on its line. */
  lemma WordGrows(out: Text, word: Text, current: nat, done: Text, maxcol: int, b: byte)
    requires Faithful(out, word, current, done, maxcol) && !Separates(b)
    requires FillOf(done, maxcol) == Fill(current, |word|) && !Fill(current, |word|).BreaksAt(b, maxcol)
    ensures Faithful(out, word + Cells(b), current, done + [b], maxcol)
  {
    ContentGrows(out, word, done, b);
    FillSnoc(done, b, maxcol);
    PendingGrows(out, word, current, Cells(b));
    AlikeGrows(Pending(out, word, current), done, Cuts(done, maxcol), b);
  }

  lemma PendingGrows(out: Text, word: Text, current: nat, cells: Text)
    ensures Pending(out, word + cells, current) == Pending(out, word, current) + cells
  {
  }

  lemma AlikeGrows(before: Text, done: Text, cuts: nat, b: byte)
    requires Alike(Scan(START, before), Scan(START, done), cuts) && !Separates(b)
    ensures Alike(Scan(START, before + Cells(b)), Scan(START, done + [b]), cuts)
  {
    ScanGrows(before, b);
    ScanSnoc(START, done, b);
    AlikeStep(Scan(START, before), Scan(START, done), cuts, b);
  }

  /** A byte does not fit behind a pending word that has a line to itself: the word is written, and cut if
      the byte continues it. */
  lemma WordIsCut(out: Text, word: Text, blanks: Text, done: Text, maxcol: int, b: byte)
    requires Faithful(out, word, 0, done, maxcol) && Blanks(blanks) && !Separates(b)
    requires FillOf(done, maxcol) == Fill(0, |word|) && Fill(0, |word|).BreaksAt(b, maxcol)
    ensures Faithful(out + word + blanks, Cells(b), 0, done + [b], maxcol)
  {
    CutContent(out, word, blanks, done, b);
    FillSnoc(done, b, maxcol);
    ScanSnoc(START, done, b);
    LastWord(done);
    ScanBreak(out + word, blanks);
    ScanGrows(out + word + blanks, b);
    AlikeCut(Scan(START, out + word), Scan(START, done), Cuts(done, maxcol), b);
  }

  lemma CutContent(out: Text, word: Text, blanks: Text, done: Text, b: byte)
    requires Strip(out) + Strip(word) == Strip(done) && Blanks(blanks) && !Separates(b)
    ensures Strip(out + word + blanks) + Strip(Cells(b)) == Strip(done + [b])
  {
    StripAppend(out, word);
    StripBlanks(out + word, blanks);
    ContentGrows(out + word + blanks, [], done, b);
    assert [] + Cells(b) == Cells(b);
  }

  /** A byte does not fit and text stands before the pending word: the word moves to a new line. */
  lemma WordMovesDown(out: Text, word: Text, blanks: Text, current: nat, done: Text, maxcol: int, b: byte)
    requires Faithful(out, word, current, done, maxcol) && Blanks(blanks) && !Separates(b)
    requires current > 0 && FillOf(done, maxcol) == Fill(current, |word|)
    ensures Faithful(out + blanks, word + Cells(b), 0, done + [b], maxcol)
  {
    MovedContent(out, word, blanks, done, b);
    FillSnoc(done, b, maxcol);
    AlikeMoves(out, word, blanks, done, Cuts(done, maxcol), b);
    MovedPending(out, word, blanks, Cells(b));
    ScanBreak(out, blanks);
  }

  lemma MovedContent(out: Text, word: Text, blanks: Text, done: Text, b: byte)
    requires Strip(out) + Strip(word) == Strip(done) && Blanks(blanks) && !Separates(b)
    ensures Strip(out + blanks) + Strip(word + Cells(b)) == Strip(done + [b])
  {
    StripBlanks(out, blanks);
    ContentGrows(out + blanks, word, done, b);
  }

  lemma MovedPending(out: Text, word: Text, blanks: Text, cells: Text)
    ensures Pending(out + blanks, word + cells, 0) == out + blanks + word + cells
  {
  }

  lemma AlikeMoves(out: Text, word: Text, blanks: Text, done: Text, cuts: nat, b: byte)
    requires Alike(Scan(START, out + [SPACE] + word), Scan(START, done), cuts)
    requires !Separates(b) && Blanks(blanks)
    ensures Alike(Scan(START, out + blanks + word + Cells(b)), Scan(START, done + [b]), cuts)
  {
    MovedScan(out, word, blanks, b);
    ScanSnoc(START, done, b);
    AlikeStep(Scan(START, out + [SPACE] + word), Scan(START, done), cuts, b);
  }

  lemma StripBlanks(out: Text, blanks: Text)
    requires Blanks(blanks)
    ensures Strip(out + blanks) == Strip(out)
  {
    StripAppend(out, blanks);
    BlanksStripToNothing(blanks);
  }

  lemma MovedScan(out: Text, word: Text, blanks: Text, b: byte)
    requires !Separates(b) && Blanks(blanks)
    ensures Scan(START, out + blanks + word + Cells(b)) == Step(Scan(START, out + [SPACE] + word), b)
  {
    ScanAppend(START, out + [SPACE], word);
    ScanSnoc(START, out, SPACE);
    ScanBreak(out, blanks);
    ScanAppend(START, out + blanks, word);
    ScanGrows(out + blanks + word, b);
  }

  /** What is written before a pending word. */
  function Separator(current: nat, spacer: bool): Text {
    if current == 0 then [] else if spacer then [SPACE] else BREAK
  }

  lemma SeparatorIs(out: Text, current: nat, spacer: bool, lines: nat, maxcol: int)
    requires Fits(out, 4 + Limit(maxcol)) && lines == Newlines(out)
    requires if current == 0 then Column(out) == 4 else Column(out) <= 4 + current
    requires spacer ==> current < maxcol
    ensures var next := out + Separator(current, spacer);
            && Fits(next, 4 + Limit(maxcol))
            && Strip(next) == Strip(out)
            && Newlines(next) == lines + (if current > 0 && !spacer then 1 else 0)
            && Column(next) <= (if spacer then 4 + current + 1 else 4)
            && (current == 0 ==> Column(next) == 4)
  {
    if current > 0 && spacer {
      SpaceIs(out, 4 + Limit(maxcol));
    } else if current > 0 {
      BreakIs(out, 4 + Limit(maxcol));
    } else {
      assert out + [] == out;
    }
  }

  lemma SpaceIs(a: Text, width: int)
    requires Fits(a, width) && Column(a) < width
    ensures Fits(a + [SPACE], width) && Column(a + [SPACE]) == Column(a) + 1
    ensures Strip(a + [SPACE]) == Strip(a) && Newlines(a + [SPACE]) == Newlines(a)
  {
    assert (a + [SPACE])[..|a|] == a;
  }

  lemma SeparatorScan(out: Text, current: nat, spacer: bool)
    ensures var next := out + Separator(current, spacer);
            if current > 0 then Scan(START, next) == Step(Scan(START, out), SPACE) else next == out
  {
    if current == 0 {
      assert out + [] == out;
    } else if spacer {
      ScanSnoc(START, out, SPACE);
    } else {
      ScanBreak(out, BREAK);
    }
  }

  /** The pending word is written, behind a space where it fits and on a line of its own elsewhere. */
  lemma WordFlushed(out: Text, word: Text, current: nat, lines: nat, maxcol: int)
    requires Layout(out, word, current, lines, maxcol) && word != []
    ensures var spacer := maxcol > current + |word| + 1;
            var next := out + Separator(current, spacer) + word;
            && Layout(next, [], Fill(current, |word|).Flushed(maxcol),
                      lines + (if Fill(current, |word|).BreaksAtEnd(maxcol) then 1 else 0), maxcol)
            && Strip(next) == Strip(out) + Strip(word)
            && Scan(START, next) == Scan(START, Pending(out, word, current))
  {
    var spacer := maxcol > current + |word| + 1;
    var front := out + Separator(current, spacer);
    SeparatorIs(out, current, spacer, lines, maxcol);
    WordBehind(front, word, 4 + Limit(maxcol));
    SeparatorScan(out, current, spacer);
    FlushedScan(out, word, current, front);
  }

  lemma WordBehind(front: Text, word: Text, width: int)
    requires NEWLINE !in word && Fits(front, width) && width >= 0 && Column(front) + |word| <= width
    ensures Fits(front + word, width) && Column(front + word) == Column(front) + |word|
    ensures Strip(front + word) == Strip(front) + Strip(word)
    ensures Newlines(front + word) == Newlines(front)
  {
    FitsAppend(front, word, width);
    StripAppend(front, word);
    NewlinesAppend(front, word);
  }

  lemma FlushedScan(out: Text, word: Text, current: nat, front: Text)
    requires if current > 0 then Scan(START, front) == Step(Scan(START, out), SPACE) else front == out
    ensures Scan(START, front + word) == Scan(START, Pending(out, word, current))
  {
    ScanAppend(START, front, word);
    if current > 0 {
      ScanAppend(START, out + [SPACE], word);
      ScanSnoc(START, out, SPACE);
    }
  }

  /** What a written text must be for a blank to follow. */
  ghost predicate Written(out: Text, current: nat, done: Text, maxcol: int) {
    && Strip(out) == Strip(done)
    && (current == 0 ==> Scan(START, out).last == [])
    && Alike(Step(Scan(START, out), SPACE), Step(Scan(START, done), SPACE), Cuts(done, maxcol))
  }

  lemma WordIsWritten(out: Text, next: Text, word: Text, current: nat, done: Text, maxcol: int)
    requires Faithful(out, word, current, done, maxcol)
    requires Strip(next) == Strip(out) + Strip(word)
    requires Scan(START, next) == Scan(START, Pending(out, word, current))
    ensures forall c: nat | c > 0 :: Written(next, c, done, maxcol)
  {
    AlikeStep(Scan(START, next), Scan(START, done), Cuts(done, maxcol), SPACE);
  }

  lemma NoWordIsWritten(out: Text, current: nat, done: Text, maxcol: int)
    requires Faithful(out, [], current, done, maxcol)
    ensures Written(out, current, done, maxcol)
  {
    NoWordPending(out, current);
    AlikeStep(Scan(START, Pending(out, [], current)), Scan(START, done), Cuts(done, maxcol), SPACE);
  }

  /** A space or a newline behind a written word, or where no word is pending. */
  lemma BlankHandled(out: Text, blanks: Text, current: nat, done: Text, maxcol: int, b: byte)
    requires Separates(b) && Blanks(blanks) && Written(out, current, done, maxcol)
    ensures Faithful(out, [], current, done + [b], maxcol)
    ensures Faithful(out + blanks, [], 0, done + [b], maxcol)
  {
    StripSnoc(done, b);
    FillSnoc(done, b, maxcol);
    ScanSnoc(START, done, b);
    NoWordPending(out, current);
    NoWordPending(out + blanks, 0);
    ScanBreak(out, blanks);
    StripBlanks(out, blanks);
  }

  lemma NoWordPending(out: Text, current: nat)
    ensures Pending(out, [], current) == if current > 0 then out + [SPACE] else out
    ensures current > 0 ==> Scan(START, Pending(out, [], current)) == Step(Scan(START, out), SPACE)
    ensures Strip(out) + Strip([]) == Strip(out)
  {
    ScanSnoc(START, out, SPACE);
  }

  /** The state of the printer between two bytes: what was written, the length of the pending word in
      the word buffer, the cells counted on the line, and the newlines counted. */
  datatype Progress = Progress(out: Text, wordp: nat, current: nat, lines: nat)

  ghost predicate Invariant(p: Progress, word: Text, done: Text, maxcol: int) {
    && |word| == p.wordp
    && maxcol <= 200
    && FillOf(done, maxcol) == Fill(p.current, p.wordp)
    && p.lines == Newlines(done) + Breaks(done, maxcol)
    && Layout(p.out, word, p.current, p.lines, maxcol)
    && Faithful(p.out, word, p.current, done, maxcol)
  }

  /** Prints a documentation string in lines of at most `width` columns (a little more on a terminal too
      narrow for its indentation), and counts the newlines printed. Nothing but blanks is added or lost.
      There is one word more for every word that is cut, and the words are those of the text exactly when
      none is; every newline of the text breaks the line, and so does every break that it needs. */
  method DocFormat(doc: Text, width: int) returns (out: Text, lines: nat)
    ensures Strip(out) == Strip(doc)
    ensures Fits(out, 4 + Limit(MaxCol(width)))
    ensures |WordsOf(out)| == |WordsOf(doc)| + Cuts(doc, MaxCol(width))
    ensures WordsOf(out) == WordsOf(doc) <==> Cuts(doc, MaxCol(width)) == 0
    ensures ShortRuns(doc, MaxCol(width)) ==> WordsOf(out) == WordsOf(doc)
    ensures lines == Newlines(out) == Newlines(doc) + Breaks(doc + [SPACE], MaxCol(width))
    ensures NarrowParas(doc, MaxCol(width)) ==> lines == Newlines(doc)
  {
    var maxcol := MaxCol(width);
    var wordbuf := new byte[WORD_MAX](i => 0);
    var p := Progress(INDENT, 0, 0, 0);
    Indented(maxcol);
    assert doc[..0] == [] && wordbuf[..0] == [];
    for i := 0 to |doc|
      invariant p.wordp <= 200 && Invariant(p, wordbuf[..p.wordp], doc[..i], maxcol)
    {
      assert doc[..i + 1] == doc[..i] + [doc[i]];
      if doc[i] != NEWLINE && doc[i] != SPACE {
        p := AddByte(p, wordbuf, doc[i], maxcol, doc[..i]);
      } else {
        p := EndWord(p, wordbuf[..p.wordp], doc[i], maxcol, doc[..i]);
        assert wordbuf[..0] == [];
      }
    }
    assert doc[..|doc|] == doc;
    out, lines := Finish(p, wordbuf[..p.wordp], maxcol, doc);
    SimplyFormatted(doc, maxcol);
  }

  lemma SimplyFormatted(doc: Text, maxcol: int)
    ensures ShortRuns(doc, maxcol) ==> Cuts(doc, maxcol) == 0
    ensures NarrowParas(doc, maxcol) ==> Breaks(doc + [SPACE], maxcol) == 0
  {
    if ShortRuns(doc, maxcol) {
      ShortRunsAreNotCut(doc, maxcol);
    }
    if NarrowParas(doc, maxcol) {
      NarrowParasDoNotBreak(doc, maxcol);
    }
  }

  /** The pending word is written when the text ends. */
  method Finish(p: Progress, word: Text, maxcol: int, ghost doc: Text) returns (out: Text, lines: nat)
    requires Invariant(p, word, doc, maxcol)
    ensures Strip(out) == Strip(doc) && Fits(out, 4 + Limit(maxcol))
    ensures |WordsOf(out)| == |WordsOf(doc)| + Cuts(doc, maxcol)
    ensures Cuts(doc, maxcol) == 0 ==> WordsOf(out) == WordsOf(doc)
    ensures lines == Newlines(out) == Newlines(doc) + Breaks(doc + [SPACE], maxcol)
  {
    FillSnoc(doc, SPACE, maxcol);
    ghost var current;
    out, current, lines := WriteWord(p, word, maxcol, doc);
    WordsOfIs(out);
    WordsOfIs(doc);
  }

  /** Writes the pending word, if there is one. */
  method WriteWord(p: Progress, word: Text, maxcol: int, ghost done: Text) returns (out: Text, current: nat, lines: nat)
    requires Invariant(p, word, done, maxcol)
    ensures current == Fill(p.current, p.wordp).Flushed(maxcol)
    ensures lines == p.lines + (if Fill(p.current, p.wordp).BreaksAtEnd(maxcol) then 1 else 0)
    ensures Layout(out, [], current, lines, maxcol)
    ensures Written(out, current, done, maxcol)
  {
    if p.wordp > 0 {
      WordFlushed(p.out, word, p.current, p.lines, maxcol);
      out, current, lines := Flush(p.out, word, p.current, p.lines, maxcol);
      WordIsWritten(p.out, out, word, p.current, done, maxcol);
    } else {
      assert word == [];
      NoWordIsWritten(p.out, p.current, done, maxcol);
      out, current, lines := p.out, p.current, p.lines;
    }
  }

  /** A byte other than a space or a newline. */
  method AddByte(p: Progress, wordbuf: array<byte>, b: byte, maxcol: int, ghost done: Text) returns (q: Progress)
    requires wordbuf.Length == WORD_MAX && p.wordp <= 200
    requires Invariant(p, wordbuf[..p.wordp], done, maxcol) && b != SPACE && b != NEWLINE
    modifies wordbuf
    ensures q.wordp <= 200 && Invariant(q, wordbuf[..q.wordp], done + [b], maxcol)
  {
    var room := MakeRoom(p, wordbuf[..p.wordp], b, maxcol, done);
    assert wordbuf[..room.wordp] == wordbuf[..p.wordp][..room.wordp];
    ghost var grown := wordbuf[..room.wordp] + Cells(b);
    var wordp := PutCells(wordbuf, room.wordp, b);
    assert wordbuf[..wordp] == grown;
    q := room.(wordp := wordp);
  }

  method PutCells(wordbuf: array<byte>, wordp: nat, b: byte) returns (n: nat)
    requires wordp + |Cells(b)| <= wordbuf.Length
    modifies wordbuf
    ensures n == wordp + |Cells(b)|
    ensures wordbuf[..n] == old(wordbuf[..wordp]) + Cells(b)
  {
    if b == TAB {
      wordbuf[wordp] := SPACE;
      wordbuf[wordp + 1] := SPACE;
      n := wordp + 2;
    } else {
      wordbuf[wordp] := b;
      n := wordp + 1;
    }
  }

  /** Breaks the line, where the byte does not fit on it. */
  method MakeRoom(p: Progress, word: Text, b: byte, maxcol: int, ghost done: Text) returns (q: Progress)
    requires Invariant(p, word, done, maxcol) && b != SPACE && b != NEWLINE
    ensures q.wordp <= p.wordp && q.wordp + |Cells(b)| <= Limit(maxcol)
    ensures Invariant(q.(wordp := q.wordp + |Cells(b)|), word[..q.wordp] + Cells(b), done + [b], maxcol)
  {
    assert word[..p.wordp] == word;
    var cells := if b == TAB then 2 else 1;
    q := p;
    if maxcol <= p.current + p.wordp + cells {
      if p.current == 0 {
        CutInvariant(p, word, b, maxcol, done);
        q := Progress(p.out + word + BREAK, 0, 0, p.lines + 1);
        assert word[..0] + Cells(b) == Cells(b);
      } else {
        MoveInvariant(p, word, b, maxcol, done);
        q := Progress(p.out + BREAK, p.wordp, 0, p.lines + 1);
      }
    } else {
      GrowInvariant(p, word, b, maxcol, done);
    }
  }

  lemma CutInvariant(p: Progress, word: Text, b: byte, maxcol: int, done: Text)
    requires Invariant(p, word, done, maxcol) && b != SPACE && b != NEWLINE
    requires p.current == 0 && maxcol <= p.wordp + |Cells(b)|
    ensures Invariant(Progress(p.out + word + BREAK, |Cells(b)|, 0, p.lines + 1), Cells(b), done + [b], maxcol)
  {
    FillSnoc(done, b, maxcol);
    BrokenLayout(p.out, word, p.lines, maxcol, Cells(b));
    WordIsCut(p.out, word, BREAK, done, maxcol, b);
  }

  lemma MoveInvariant(p: Progress, word: Text, b: byte, maxcol: int, done: Text)
    requires Invariant(p, word, done, maxcol) && b != SPACE && b != NEWLINE
    requires p.current > 0 && maxcol <= p.current + p.wordp + |Cells(b)|
    ensures Invariant(Progress(p.out + BREAK, p.wordp + |Cells(b)|, 0, p.lines + 1), word + Cells(b), done + [b], maxcol)
    ensures p.wordp + |Cells(b)| <= Limit(maxcol)
  {
    FillSnoc(done, b, maxcol);
    BreakIs(p.out, 4 + Limit(maxcol));
    WordMovesDown(p.out, word, BREAK, p.current, done, maxcol, b);
  }

  lemma GrowInvariant(p: Progress, word: Text, b: byte, maxcol: int, done: Text)
    requires Invariant(p, word, done, maxcol) && b != SPACE && b != NEWLINE
    requires maxcol > p.current + p.wordp + |Cells(b)|
    ensures Invariant(p.(wordp := p.wordp + |Cells(b)|), word + Cells(b), done + [b], maxcol)
    ensures p.wordp + |Cells(b)| <= Limit(maxcol)
  {
    FillSnoc(done, b, maxcol);
    WordGrows(p.out, word, p.current, done, maxcol, b);
  }

  lemma BrokenLayout(out: Text, word: Text, lines: nat, maxcol: int, cells: Text)
    requires Layout(out, word, 0, lines, maxcol) && |cells| <= 2 && NEWLINE !in cells
    ensures Layout(out + word + BREAK, cells, 0, lines + 1, maxcol)
  {
    FitsAppend(out, word, 4 + Limit(maxcol));
    NewlinesAppend(out, word);
    BreakIs(out + word, 4 + Limit(maxcol));
  }

  /** A space or a newline. */
  method EndWord(p: Progress, word: Text, b: byte, maxcol: int, ghost done: Text) returns (q: Progress)
    requires Invariant(p, word, done, maxcol) && (b == SPACE || b == NEWLINE)
    ensures q.wordp == 0 && Invariant(q, [], done + [b], maxcol)
  {
    FillSnoc(done, b, maxcol);
    var out, current, lines := WriteWord(p, word, maxcol, done);
    BlankHandled(out, BREAK, current, done, maxcol, b);
    if b == NEWLINE {
      BreakIs(out, 4 + Limit(maxcol));
      out := out + BREAK;
      lines := lines + 1;
      current := 0;
    }
    q := Progress(out, 0, current, lines);
  }

  /** Writes a pending word: the part of the loop body that is repeated behind the loop. */
  method Flush(out0: Text, word: Text, current0: nat, lines0: nat, maxcol: int)
    returns (out: Text, current: nat, lines: nat)
    ensures var spacer := maxcol > current0 + |word| + 1;
            && out == out0 + Separator(current0, spacer) + word
            && current == (if spacer then current0 + 1 + |word| else |word|)
            && lines == lines0 + (if current0 > 0 && !spacer then 1 else 0)
  {
    out, lines := out0, lines0;
    var spacer := maxcol > current0 + |word| + 1;
    if spacer {
      current := current0 + 1;
    } else {
      current := 0;
    }
    current := current + |word|;
    if current0 > 0 {
      out := out + if spacer then [SPACE] else BREAK;
      if !spacer {
        lines := lines + 1;
      }
    }
    assert out == out0 + Separator(current0, spacer);
    out := out + word;
  }

  lemma Indented(maxcol: int)
    ensures Layout(INDENT, [], 0, 0, maxcol) && Faithful(INDENT, [], 0, [], maxcol)
  {
    StripIndent();
    assert [] + INDENT == INDENT;
    FitsAppend([], INDENT, 4 + Limit(maxcol));
    ScanBlanks(START, INDENT);
    assert Pending(INDENT, [], 0) == INDENT;
  }
}

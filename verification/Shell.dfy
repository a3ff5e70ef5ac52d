/** The line editor: the buffer, the history and the completer at work together. */
module Shell {
  import opened Bytes
  import opened Lines
  import opened Terminal
  import opened Completion
  import opened Session
  import opened Display
  import EditLine
  import History
  import Completer
  import DocFormat
  import Listing

  datatype Prospects = Prospects(end: (State, Exit), open: bool, screen: Screen)

  class Editor {
    const line: EditLine.Buffer
    const hist: History.HistoryArray
    const comp: Completer.MatchArray
    var linesBelow: nat

    ghost predicate Valid()
      reads this, line, line.buf, hist, hist.slots, comp, comp.matches
    {
      && line.Valid() && hist.Valid() && comp.Valid()
      && line.buf as object != hist.slots && line.buf as object != comp.matches
      && hist.slots as object != comp.matches
    }

    ghost function State(): (s: State)
      requires Valid()
      reads this, line, line.buf, hist, hist.slots, comp, comp.matches
    {
      Session.State(line.Zip(), hist.Entries(), hist.index)
    }

    constructor (cols: nat, erasesLast: bool)
      requires cols > 0
      ensures Valid() && hist.Entries() == []
      ensures line.term == Terminal(Spaces(cols), 0, 0, erasesLast)
    {
      line := new EditLine.Buffer(cols, erasesLast);
      hist := new History.HistoryArray();
      comp := new Completer.MatchArray();
      linesBelow := 0;
    }

    /** Erases what was printed below the line and returns to it. */
    method ClearLines()
      requires line.Valid()
      modifies this`linesBelow, line`term
      ensures line.Valid() && linesBelow == 0
      ensures line.term.down == old(line.term.down) && line.term.row == old(line.term.row)
      ensures line.term.erasesLast == old(line.term.erasesLast)
    {
      var i := 0;
      while i < linesBelow
        invariant 0 <= i <= linesBelow
        invariant line.term.down == old(line.term.down) + i && line.term.row == old(line.term.row)
        invariant line.term.erasesLast == old(line.term.erasesLast) && line.term.col <= |line.term.row|
      {
        line.term := EraseRight(FarLeft(Down(line.term)));
        i := i + 1;
      }
      if linesBelow > 0 {
        line.term := FarLeft(Up(line.term, linesBelow));
        linesBelow := 0;
      }
    }

    /** Prints the kept matches in columns below the line and moves back up by the newlines printed. */
    method ListMatches(maxlen: nat)
      requires line.Valid() && comp.Valid() && linesBelow == 0 && comp.count >= 2
      requires Listing.ShorterThan(comp.Matches(), maxlen + 4)
      modifies this`linesBelow, line`term
      ensures line.Valid() && linesBelow > 0
      ensures line.term.row == old(line.term.row) && line.term.down >= old(line.term.down)
      ensures line.term.erasesLast == old(line.term.erasesLast)
      ensures Listing.SingleLines(comp.Matches()) ==>
                (line.term.down == old(line.term.down) <==> maxlen + 4 <= line.cols)
    {
      var colWidth := maxlen + 4;
      var out := RenderMatches(colWidth, Listing.Columns(line.cols, colWidth));
      FeedReturns(line.term, out);
      if Listing.SingleLines(comp.Matches()) {
        Listing.TableReturns(line.term, comp.Matches(), colWidth);
      }
      line.term := Up(Feed(line.term, out), linesBelow);
    }

    method RenderMatches(colWidth: nat, cols: nat) returns (out: Text)
      requires comp.Valid() && linesBelow == 0 && cols > 0
      modifies this`linesBelow
      ensures out == Listing.Table(comp.Matches(), comp.count, colWidth, cols)
      ensures linesBelow <= Newlines(out)
      ensures Listing.SingleLines(comp.Matches()) ==> linesBelow == Newlines(out)
      ensures comp.count > 0 ==> linesBelow > 0 && out != [] && out[0] == NEWLINE
    {
      ghost var m := comp.Matches();
      out := [];
      var currentCol := 0;
      var i := 0;
      while i < comp.count
        invariant i <= comp.count && currentCol == Listing.Slot(i, cols)
        invariant out == Listing.Table(m, i, colWidth, cols)
        invariant linesBelow == Listing.Rows(i, cols)
      {
        out := RenderEntry(out, comp.matches[i], currentCol, colWidth);
        currentCol := Listing.Next(currentCol, cols);
        i := i + 1;
      }
      Listing.RowsAreNewlines(m, comp.count, colWidth, cols);
      if comp.count > 0 {
        Listing.TableStarts(m, comp.count, colWidth, cols);
      }
    }

    method RenderEntry(before: Text, name: Text, currentCol: nat, colWidth: nat) returns (out: Text)
      modifies this`linesBelow
      ensures out == before + (if currentCol == 0 then [NEWLINE] else []) + Listing.Entry(name, colWidth)
      ensures linesBelow == old(linesBelow) + if currentCol == 0 then 1 else 0
    {
      out := before;
      if currentCol == 0 {
        out := out + [NEWLINE];
        linesBelow := linesBelow + 1;
      } else {
        assert before + [] == before;
      }
      out := out + Listing.Entry(name, colWidth);
    }

    /** Tab, without the redraw that follows it. The cursor ends below its row exactly when a table too wide
        for the terminal was printed. */
    method CompleteSymbol(scope: Scope, ghost scr: Screen)
      requires line.Valid() && comp.Valid() && line.buf as object != comp.matches && NulFreeScope(scope)
      requires scr.below == (linesBelow > 0)
      modifies this, line`len, line`pos, line`term, line.buf, comp, comp.matches
      ensures line.Valid() && comp.Valid()
      ensures line.Zip() == Completion.Complete(old(line.Zip()), scope)
      ensures var next := AfterTab(scr, old(line.Zip()), scope, line.cols);
              && next.below == (linesBelow > 0)
              && (PrintableScope(scope) ==> Follows(scr, next, old(line.term), line.term))
    {
      match scope
      case NoScope =>
        line.Insert(SPACE, false);
        line.Insert(SPACE, false);
      case InScope(env) =>
        CompleteIn(env, scr);
    }

    method CompleteIn(env: Completer.Env, ghost scr: Screen)
      requires line.Valid() && comp.Valid() && line.buf as object != comp.matches && NulFreeScope(InScope(env))
      requires scr.below == (linesBelow > 0)
      modifies this, line`len, line`pos, line`term, line.buf, comp, comp.matches
      ensures line.Valid() && comp.Valid()
      ensures line.Zip() == Completion.Complete(old(line.Zip()), InScope(env))
      ensures var next := AfterTab(scr, old(line.Zip()), InScope(env), line.cols);
              && next.below == (linesBelow > 0)
              && (PrintableScope(InScope(env)) ==> Follows(scr, next, old(line.term), line.term))
    {
      ghost var at := line.Zip().PastSymbol();
      var prefixLen, lcpLen := TypeCompletion(env);
      if prefixLen == 0 || (linesBelow == 0 && prefixLen != lcpLen) {
        assert !Lists(at, env, scr.below);
        return;
      }
      assert Lists(at, env, scr.below);
      if PrintableScope(InScope(env)) {
        MatchesArePrintable(comp.Matches(), at, env);
      }
      ShowMatches();
    }

    lemma MatchesArePrintable(m: seq<Text>, at: EditLine.Zipper, env: Completer.Env)
      requires PrintableScope(InScope(env)) && m == MatchesAt(at, env)
      ensures AllPrintable(m)
    {
      forall i | 0 <= i < |m| ensures Printable(m[i]) {
        Completer.KeptMembers(at.Prefix(), Completer.Candidates(env), i);
      }
    }

    /** The terminal after a step that takes the screen from `scr` to `next`: the edited row is as it was,
        and the cursor, when it was on it, still is exactly if `next` is shown. */
    ghost predicate Follows(scr: Screen, next: Screen, before: Terminal, after: Terminal) {
      && after.row == before.row && after.erasesLast == before.erasesLast && after.down >= before.down
      && (scr.shown ==> (after.down == before.down <==> next.shown))
    }

    /** Moves past the symbol and types what the common prefix adds to it. */
    method TypeCompletion(env: Completer.Env) returns (prefixLen: nat, lcpLen: nat)
      requires line.Valid() && comp.Valid() && line.buf as object != comp.matches && NulFreeScope(InScope(env))
      modifies line`len, line`pos, line`term, line.buf, comp, comp.matches
      ensures line.Valid() && comp.Valid() && line.term == old(line.term)
      ensures line.Zip() == Completion.Complete(old(line.Zip()), InScope(env))
      ensures var at := old(line.Zip()).PastSymbol();
              && prefixLen == |at.Prefix()|
              && (prefixLen > 0 ==> comp.Matches() == MatchesAt(at, env) && lcpLen == LcpLength(MatchesAt(at, env)))
    {
      line.SkipSymbol();
      ghost var at := line.Zip();
      var prefix := line.SymbolPrefix();
      prefixLen, lcpLen := |prefix|, 0;
      if |prefix| > 0 {
        var lcp := Gather(prefix, env, at);
        TypeRest(lcp, |prefix|);
        lcpLen := |lcp|;
      }
    }

    /** Erases what was printed below the line, and lists the matches if there is a choice. */
    method ShowMatches()
      requires line.Valid() && comp.Valid()
      modifies this`linesBelow, line`term
      ensures line.Valid()
      ensures linesBelow > 0 <==> comp.count >= 2
      ensures AllPrintable(comp.Matches()) ==>
                Follows(Screen(true, true), Screen(true, comp.count < 2 || TableFits(comp.Matches(), line.cols)),
                        old(line.term), line.term)
    {
      var maxlen := LongestMatch();
      ClearLines();
      if comp.count >= 2 {
        LongestFits(comp.Matches(), maxlen, line.cols);
        ListMatches(maxlen);
      }
    }

    lemma LongestFits(m: seq<Text>, maxlen: nat, cols: nat)
      requires forall i | 0 <= i < |m| :: |m[i]| <= maxlen
      requires exists i :: 0 <= i < |m| && |m[i]| == maxlen
      ensures TableFits(m, cols) <==> maxlen + 4 <= cols
      ensures AllPrintable(m) ==> Listing.SingleLines(m)
    {
      var i :| 0 <= i < |m| && |m[i]| == maxlen;
      assert TableFits(m, cols) ==> |m[i]| + 4 <= cols;
      if AllPrintable(m) {
        forall k | 0 <= k < |m| ensures NEWLINE !in m[k] {
          assert Printable(m[k]);
        }
      }
    }

    ghost predicate AllPrintable(m: seq<Text>) {
      forall i | 0 <= i < |m| :: Printable(m[i])
    }

    /** The matches of a prefix, and their longest common prefix. */
    method Gather(prefix: Text, env: Completer.Env, ghost at: EditLine.Zipper) returns (lcp: Text)
      requires comp.Valid() && NulFreeScope(InScope(env)) && prefix == at.Prefix() != [] && NulFree(prefix)
      modifies comp, comp.matches
      ensures comp.Valid()
      ensures comp.Matches() == MatchesAt(at, env)
      ensures lcp == if comp.Matches() == [] then [] else Completer.Lcp(comp.Matches())
      ensures NulFree(lcp)
    {
      comp.Collect(prefix, env);
      lcp := comp.LongestCommonPrefix();
      LcpIsNulFree(at, env);
    }

    method TypeRest(lcp: Text, from: nat)
      requires line.Valid() && NulFree(lcp)
      modifies line`len, line`pos, line`term, line.buf
      ensures line.Valid() && line.term == old(line.term)
      ensures line.Zip() == InsertFrom(old(line.Zip()), lcp, from)
    {
      ghost var z := line.Zip();
      var i := from;
      while i < |lcp|
        invariant line.Valid() && line.term == old(line.term)
        invariant InsertFrom(line.Zip(), lcp, i) == InsertFrom(z, lcp, from)
        decreases |lcp| - i
      {
        line.Insert(lcp[i], false);
        i := i + 1;
      }
    }

    method LongestMatch() returns (maxlen: nat)
      requires comp.Valid()
      ensures forall i | 0 <= i < comp.count :: |comp.matches[i]| <= maxlen
      ensures comp.count > 0 ==> exists i :: 0 <= i < comp.count && |comp.matches[i]| == maxlen
    {
      maxlen := 0;
      ghost var longest := 0;
      var i := 0;
      while i < comp.count
        invariant 0 <= i <= comp.count
        invariant forall k | 0 <= k < i :: |comp.matches[k]| <= maxlen
        invariant if i == 0 then maxlen == 0 == longest else 0 <= longest < i && |comp.matches[longest]| == maxlen
      {
        if |comp.matches[i]| > maxlen {
          maxlen := |comp.matches[i]|;
          longest := i;
        }
        i := i + 1;
      }
    }

    /** Ctrl-G, without the redraw that follows it. The cursor ends below its row exactly when a line about
        the value was printed that is too long for the terminal. */
    method ShowDocumentation(scope: Scope, docs: Docs, ghost scr: Screen)
      requires line.Valid() && scr.below == (linesBelow > 0)
      modifies this, line`pos, line`term
      ensures line.Valid()
      ensures line.Zip() == if scope.InScope? then old(line.Zip()).PastSymbol() else old(line.Zip())
      ensures var next := AfterDoc(scr, old(line.Zip()), scope, docs, line.cols);
              && next.below == (linesBelow > 0)
              && (LineDocs(docs) && line.cols >= 6 ==> Follows(scr, next, old(line.term), line.term))
    {
      if scope.NoScope? {
        return;
      }
      line.SkipSymbol();
      var symbol := line.SymbolPrefix();
      if symbol !in docs {
        return;
      }
      ClearLines();
      var out := RenderDoc(docs[symbol]);
      FeedReturns(line.term, out);
      line.term := Up(Feed(line.term, out), linesBelow);
    }

    /** The text printed about a symbol. The newlines in it are counted as they are written; its lines fit the
        terminal exactly when those about the value do. */
    method RenderDoc(doc: Doc) returns (out: Text)
      requires linesBelow == 0
      modifies this`linesBelow
      ensures 0 < linesBelow <= Newlines(out) && out != [] && out[0] == NEWLINE
      ensures AreSingleLines(doc.header) ==> linesBelow == Newlines(out)
      ensures AreSingleLines(doc.header) && line.cols >= 6 ==> (Fits(out, line.cols) <==> HeaderFits(doc.header, line.cols))
    {
      ghost var width := line.cols;
      out := RenderHeader(doc.header);
      var text, lines := DocFormat.DocFormat(doc.text, line.cols);
      ghost var whole := out + text + [NEWLINE] + [NEWLINE];
      TextCounts(out, text);
      if AreSingleLines(doc.header) && width >= 6 {
        FitsWider(text, 4 + DocFormat.Limit(DocFormat.MaxCol(width)), width);
        TextFits(out, text, width);
      }
      out := out + text;
      linesBelow := linesBelow + lines;
      out := out + [NEWLINE] + [NEWLINE];
      linesBelow := linesBelow + 2;
    }

    /** Three newlines, the lines about the value, and an empty line. */
    method RenderHeader(header: seq<Text>) returns (out: Text)
      requires linesBelow == 0
      modifies this`linesBelow
      ensures 0 < linesBelow <= Newlines(out) && out != [] && out[0] == NEWLINE
      ensures AreSingleLines(header) ==> linesBelow == Newlines(out) && Column(out) == 0
      ensures AreSingleLines(header) ==> (Fits(out, line.cols) <==> HeaderFits(header, line.cols))
    {
      ghost var width := line.cols;
      out := [NEWLINE, NEWLINE, NEWLINE];
      linesBelow := linesBelow + 3;
      ThreeNewlines(width);
      var i := 0;
      while i < |header|
        invariant i <= |header| && out != [] && out[0] == NEWLINE
        invariant 0 < linesBelow <= Newlines(out)
        invariant AreSingleLines(header) ==> linesBelow == Newlines(out) && Column(out) == 0
        invariant AreSingleLines(header) ==> (Fits(out, width) <==> HeaderFits(header[..i], width))
      {
        HeaderLine(out, header, i, width);
        out := out + header[i] + [NEWLINE];
        linesBelow := linesBelow + 1;
        i := i + 1;
      }
      assert header[..|header|] == header;
      Listing.NewlineCounts(out);
      LineAppend(out, [], width);
      assert out + [] == out;
      out := out + [NEWLINE];
      linesBelow := linesBelow + 1;
    }

    lemma HeaderLine(out: Text, header: seq<Text>, i: nat, width: nat)
      requires i < |header|
      ensures var next := out + header[i] + [NEWLINE];
              && Newlines(next) >= Newlines(out) + 1
              && (AreSingleLines(header) && Column(out) == 0 ==>
                    && Newlines(next) == Newlines(out) + 1 && Column(next) == 0
                    && (Fits(next, width) <==> Fits(out, width) && |header[i]| <= width))
      ensures HeaderFits(header[..i + 1], width) <==> HeaderFits(header[..i], width) && |header[i]| <= width
    {
      NewlinesAppend(out, header[i]);
      Listing.NewlineCounts(out + header[i]);
      if AreSingleLines(header) {
        LineAppend(out, header[i], width);
      }
      assert header[..i + 1] == header[..i] + [header[i]];
    }

    lemma TextFits(out: Text, text: Text, width: nat)
      requires Column(out) == 0 && Fits(text, width)
      ensures Fits(out + text + [NEWLINE] + [NEWLINE], width) <==> Fits(out, width)
    {
      FitsConcat(out, text, width);
      FitsNewline(out + text, width);
      FitsNewline(out + text + [NEWLINE], width);
    }

    lemma FitsNewline(s: Text, width: nat)
      ensures Fits(s + [NEWLINE], width) <==> Fits(s, width)
    {
      assert (s + [NEWLINE])[..|s|] == s;
    }

    lemma TextCounts(out: Text, text: Text)
      ensures Newlines(out + text + [NEWLINE] + [NEWLINE]) == Newlines(out) + Newlines(text) + 2
    {
      NewlinesAppend(out, text);
      Listing.NewlineCounts(out + text);
      Listing.NewlineCounts(out + text + [NEWLINE]);
    }

    lemma ThreeNewlines(width: nat)
      ensures var s: Text := [NEWLINE, NEWLINE, NEWLINE];
              Newlines(s) == 3 && Fits(s, width) && Column(s) == 0
    {
      var one: Text := [NEWLINE];
      assert [] + one == one && one + [NEWLINE] == one + one;
      Listing.NewlineIs([], width);
      Listing.NewlineIs(one, width);
      Listing.NewlineIs(one + one, width);
      assert one + one + [NEWLINE] == [NEWLINE, NEWLINE, NEWLINE];
    }

    /** The live line is saved over the current entry, and another entry becomes the live line. */
    method HistoryMove(delta: int)
      requires Valid() && hist.count > 0
      modifies line`len, line`pos, line`term, line.buf, hist`index, hist`live, hist.slots
      ensures Valid() && State() == BrowseBy(old(State()), delta)
      ensures line.term.down >= old(line.term.down)
      ensures line.Plain() && old(line.Shown()) ==> line.Shown()
    {
      if hist.count > 1 {
        line.ContentIsZip();
        var entry := hist.SaveAndMove(line.buf[..line.len], delta);
        line.Load(entry);
        line.Refresh();
      }
    }

    /** `scr` says what is on the screen. Its `shown` says whether the terminal shows the redraw of the line or
        has left the cursor below it, when `lucid` says that nothing with control bytes is in play. */
    ghost predicate Tracks(scr: Screen, lucid: bool, scope: Scope, docs: Docs)
      requires Valid()
      reads this, line, line.buf, hist, hist.slots, comp, comp.matches
    {
      && scr.below == (linesBelow > 0)
      && (lucid ==> Lucid(scope, docs) && if scr.shown then line.Shown() else line.term.down > 0)
    }

    ghost predicate Lucid(scope: Scope, docs: Docs)
      requires Valid()
      reads this, line, line.buf, hist, hist.slots, comp, comp.matches
    {
      AllPlain(line.prompt, line.cols, scope, docs, State())
    }

    lemma LucidIsPlain(scope: Scope, docs: Docs)
      requires Valid() && Lucid(scope, docs)
      ensures line.Plain()
    {
      line.ContentIsZip();
      ContentIsPrintable(line.Zip());
    }

    /** The action of a key that does not end the session. */
    method Handle(k: Key, scope: Scope, docs: Docs, ghost scr: Screen, ghost lucid: bool)
      requires Valid() && hist.count > 0 && NulFreeScope(scope)
      requires k.Type? ==> IsPrintable(k.c)
      requires !Ends(State(), k)
      requires Tracks(scr, lucid, scope, docs)
      modifies this, line`len, line`pos, line`term, line.buf, hist`index, hist`live, hist.slots, comp, comp.matches
      ensures Valid() && State() == Step(old(State()), k, scope)
      ensures Tracks(AfterKey(scr, k, old(line.Zip()), scope, docs, line.cols), lucid, scope, docs)
    {
      ghost var before := State();
      StateIsValid();
      Act(k, scope, docs, scr);
      if lucid {
        StepKeepsPlain(before, k, scope);
        LucidIsPlain(scope, docs);
      }
    }

    method Act(k: Key, scope: Scope, docs: Docs, ghost scr: Screen)
      requires Valid() && hist.count > 0 && NulFreeScope(scope)
      requires k.Type? ==> k.c != 0
      requires scr.below == (linesBelow > 0)
      modifies this, line`len, line`pos, line`term, line.buf, hist`index, hist`live, hist.slots, comp, comp.matches
      ensures Valid() && State() == Step(old(State()), k, scope)
      ensures var next := AfterKey(scr, k, old(line.Zip()), scope, docs, line.cols);
              && next.below == (linesBelow > 0)
              && (PrintableScope(scope) && LineDocs(docs) && line.cols >= 6 && line.Plain() && old(Standing(scr))
                  ==> Standing(next))
    {
      if k.Browse? {
        HistoryMove(k.delta);
      } else {
        HandleLineKey(k, scope, docs, scr);
      }
    }

    method HandleLineKey(k: Key, scope: Scope, docs: Docs, ghost scr: Screen)
      requires line.Valid() && comp.Valid() && line.buf as object != comp.matches && NulFreeScope(scope)
      requires !k.Browse? && (k.Type? ==> k.c != 0)
      requires scr.below == (linesBelow > 0)
      modifies this, line`len, line`pos, line`term, line.buf, comp, comp.matches
      ensures line.Valid() && comp.Valid()
      ensures line.Zip() == EditLineBy(old(line.Zip()), k, scope)
      ensures var next := AfterKey(scr, k, old(line.Zip()), scope, docs, line.cols);
              && next.below == (linesBelow > 0)
              && (PrintableScope(scope) && LineDocs(docs) && line.cols >= 6 && line.Plain() && old(Standing(scr))
                  ==> Standing(next))
    {
      if k.Complete? || k.ShowDoc? {
        HandleSymbolKey(k, scope, docs, scr);
      } else if k.GoHome? || k.GoEnd? || k.GoLeft? || k.GoRight? || k.GoWordLeft? || k.GoWordRight? {
        HandleMotion(k, scope);
      } else {
        HandleEdit(k, scope);
      }
    }

    lemma StateIsValid()
      requires Valid() && hist.count > 0
      ensures State().Valid()
    {
      line.ZipIsValid();
    }

    method HandleSymbolKey(k: Key, scope: Scope, docs: Docs, ghost scr: Screen)
      requires line.Valid() && comp.Valid() && line.buf as object != comp.matches && NulFreeScope(scope)
      requires k.Complete? || k.ShowDoc?
      requires scr.below == (linesBelow > 0)
      modifies this, line`len, line`pos, line`term, line.buf, comp, comp.matches
      ensures line.Valid() && comp.Valid()
      ensures line.Zip() == EditLineBy(old(line.Zip()), k, scope)
      ensures var next := AfterKey(scr, k, old(line.Zip()), scope, docs, line.cols);
              && next.below == (linesBelow > 0)
              && (PrintableScope(scope) && LineDocs(docs) && line.cols >= 6 && line.Plain() && old(Standing(scr))
                  ==> Standing(next))
    {
      if k.Complete? {
        CompleteSymbol(scope, scr);
      } else {
        ShowDocumentation(scope, docs, scr);
      }
      line.Refresh();
    }

    ghost predicate Standing(scr: Screen)
      requires line.Valid()
      reads this, line, line.buf
    {
      if scr.shown then line.Shown() else line.term.down > 0
    }

    method HandleMotion(k: Key, scope: Scope)
      requires line.Valid()
      requires k.GoHome? || k.GoEnd? || k.GoLeft? || k.GoRight? || k.GoWordLeft? || k.GoWordRight?
      modifies line`pos, line`term
      ensures line.Valid() && line.Zip() == EditLineBy(old(line.Zip()), k, scope)
      ensures line.term.down >= old(line.term.down)
      ensures line.Plain() && old(line.Shown()) ==> line.Shown()
    {
      if k.GoHome? {
        line.Home();
      } else if k.GoEnd? {
        line.End();
      } else if k.GoLeft? {
        line.Left();
      } else if k.GoRight? {
        line.Right();
      } else if k.GoWordLeft? {
        line.WordLeft();
      } else {
        line.WordRight();
      }
    }

    method HandleEdit(k: Key, scope: Scope)
      requires line.Valid() && !k.Browse? && !k.Complete? && !k.ShowDoc?
      requires !(k.GoHome? || k.GoEnd? || k.GoLeft? || k.GoRight? || k.GoWordLeft? || k.GoWordRight?)
      requires k.Type? ==> k.c != 0
      modifies line`len, line`pos, line`term, line.buf
      ensures line.Valid() && line.Zip() == EditLineBy(old(line.Zip()), k, scope)
      ensures k.Clear? || line.term.down >= old(line.term.down)
      ensures line.Plain() && (k.Clear? || old(line.Shown())) ==> line.Shown()
    {
      if k.Type? {
        line.Insert(k.c, true);
      } else if k.Backspace? {
        line.Backspace(true);
      } else if k.Delete? || k.EndOfFile? {
        line.Delete(true);
      } else if k.BackspaceWord? {
        line.BackspaceWord();
      } else if k.DeleteWord? {
        line.DeleteWord();
      } else if k.KillLeft? {
        line.KillLeft();
      } else if k.KillRight? {
        line.KillRight();
      } else if k.Clear? {
        line.Clear();
      } else if k.Repaint? {
        line.Refresh();
      }
    }

    /** One session: adds a draft to the history, writes the prompt, and handles keys until one of them
        ends the session or the input does. */
    method Line(prompt: Text, input: Text, scope: Scope, docs: Docs) returns (exit: Exit)
      requires Valid() && NulFreeScope(scope)
      requires NulFree(prompt) && |prompt| < |line.term.row| && line.term.col == 0 && line.term.down == 0
      modifies this, line, line.buf, hist, hist.slots, comp, comp.matches
      ensures Valid() && hist.count > 0
      ensures (State(), exit) == Run(Start(old(hist.Entries())), input, scope)
      ensures line.prompt == prompt && line.cols == old(|line.term.row|)
      ensures var start := Start(old(hist.Entries()));
              StaysOpen(start, input, scope) && AllPlain(prompt, line.cols, scope, docs, start)
              && old(line.term.row) == Spaces(line.cols)
              ==> AsPredicted(start, input, scope, docs, old(linesBelow) > 0)
    {
      hist.index := 0;
      line.Begin(prompt);
      assert Spaces(line.cols)[|prompt|..] == Spaces(line.cols - |prompt|);
      hist.Add([]);
      exit := HandleAll(input, scope, docs);
    }

    /** The terminal shows the redraw of the line exactly when that is predicted. */
    ghost predicate AsPredicted(start: State, input: Text, scope: Scope, docs: Docs, below: bool)
      requires Valid() && start.index < |start.hist|
      reads this, line, line.buf, hist, hist.slots, comp, comp.matches
    {
      line.Shown() <==> ScreenAfter(start, input, scope, docs, Screen(below, true), line.cols).shown
    }

    /** Handles keys until one of them ends the session or the input does. As long as none has ended it, the
        terminal shows the redraw of the line exactly when the printed lines have all fitted it, or the
        screen was cleared since, whatever was typed. */
    method HandleAll(input: Text, scope: Scope, docs: Docs) returns (exit: Exit)
      requires Valid() && hist.count > 0 && NulFreeScope(scope)
      modifies this, line`len, line`pos, line`term, line.buf, hist`index, hist`live, hist.slots, comp, comp.matches
      ensures Valid() && hist.count > 0
      ensures (State(), exit) == Run(old(State()), input, scope)
      ensures line.prompt == old(line.prompt) && line.cols == old(line.cols)
      ensures StaysOpen(old(State()), input, scope) && old(Lucid(scope, docs)) && old(line.Shown())
              ==> AsPredicted(old(State()), input, scope, docs, old(linesBelow) > 0)
    {
      var i, done := 0, false;
      exit := Aborted;
      ghost var lucid := Lucid(scope, docs) && line.Shown();
      ghost var now, rest, scr := State(), input[i..], Screen(linesBelow > 0, true);
      ghost var whole := Prospect(now, input, scope, docs, scr, line.cols);
      assert rest == input;
      while !done && i < |input|
        invariant i <= |input| && rest == input[i..]
        invariant Valid() && hist.count > 0 && State() == now
        invariant if done then (now, exit) == whole.end && !whole.open
                  else exit == Aborted && Prospect(now, rest, scope, docs, scr, line.cols) == whole
        invariant !done ==> Tracks(scr, lucid, scope, docs)
        decreases !done, |input| - i
      {
        var n;
        ghost var next;
        n, done, exit, next := HandleNext(input[i..], scope, docs, scr, lucid);
        assert rest[n..] == input[i + n..];
        i := i + n;
        now, rest, scr := State(), rest[n..], next;
      }
    }

    /** What is to come of a session: its end, whether the input leaves it open, and the screen then. */
    ghost function Prospect(s: State, input: Text, scope: Scope, docs: Docs, scr: Screen, cols: nat): Prospects
      requires s.index < |s.hist|
    {
      Prospects(Run(s, input, scope), StaysOpen(s, input, scope), ScreenAfter(s, input, scope, docs, scr, cols))
    }

    /** Reads and handles one key. */
    method HandleNext(input: Text, scope: Scope, docs: Docs, ghost scr: Screen, ghost lucid: bool)
      returns (n: nat, done: bool, exit: Exit, ghost next: Screen)
      requires Valid() && hist.count > 0 && NulFreeScope(scope) && input != []
      requires Tracks(scr, lucid, scope, docs)
      modifies this, line`len, line`pos, line`term, line.buf, hist`index, hist`live, hist.slots, comp, comp.matches
      ensures Valid() && hist.count > 0 && 0 < n <= |input|
      ensures var whole := Prospect(old(State()), input, scope, docs, scr, line.cols);
              if done then (State(), exit) == whole.end && !whole.open
              else exit == Aborted && Prospect(State(), input[n..], scope, docs, next, line.cols) == whole
      ensures !done ==> Tracks(next, lucid, scope, docs)
    {
      var (k, size) := ReadKey(input);
      n := size;
      KeysTypePrintableBytes(input);
      EndsHereIsEnds(k);
      done, exit := EndsHere(k), Aborted;
      next := AfterKey(scr, k, line.Zip(), scope, docs, line.cols);
      if done {
        ClearLines();
        exit := ExitOf(k);
      } else {
        Handle(k, scope, docs, scr, lucid);
      }
    }

    predicate EndsHere(k: Key)
      reads line
    {
      k.Enter? || k.Cancel? || (k.EndOfFile? && line.len == 0)
    }

    lemma EndsHereIsEnds(k: Key)
      requires Valid()
      ensures EndsHere(k) == Ends(State(), k)
    {
      line.ContentIsZip();
    }

    /** Reads one line: its text with a newline when it is accepted, nothing otherwise. Whatever stands on the
        row below the line, `below`, is on the row that the next session edits: it is not blank when the
        input ends under printed matches. */
    method GetLine(prompt: Text, input: Text, scope: Scope, docs: Docs, below: Text) returns (text: Text)
      requires Valid() && NulFreeScope(scope)
      requires NulFree(prompt) && |prompt| < |line.term.row| && line.term.col == 0 && line.term.down == 0
      requires |below| == |line.term.row|
      modifies this, line, line.buf, hist, hist.slots, comp, comp.matches
      ensures Valid()
      ensures hist.Entries() == HistoryAfter(old(hist.Entries()), input, scope)
      ensures var (s, exit) := Run(Start(old(hist.Entries())), input, scope);
              text == if exit.Accepted? then s.line.Content() + [NEWLINE] else []
      ensures line.term.row == below && line.term.col == 0 && line.term.down == 0
    {
      var exit := Line(prompt, input, scope, docs);
      line.NextRow(below);
      text := [];
      if exit.Accepted? {
        text := RecordLine();
      }
    }

    /** The end of an accepted session. */
    method RecordLine() returns (text: Text)
      requires Valid() && hist.count > 0
      modifies hist`count, hist`index, hist`live, hist.slots
      ensures Valid() && text == old(line.Zip()).Content() + [NEWLINE]
      ensures hist.Entries() == History.Accept(old(hist.Entries()), old(line.Zip()).Content())
    {
      line.ContentIsZip();
      text := line.buf[..line.len] + [NEWLINE];
      hist.Replace(line.buf[..line.len]);
    }
  }
}

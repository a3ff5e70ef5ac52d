/** What Tab and Ctrl-G print below the line, and whether the cursor finds back to the line from there. */
module Display {
  import opened Bytes
  import opened EditLine
  import opened Completion
  import opened Session
  import Completer

  /** What is printed about a documented symbol: the lines about its value, and its documentation. */
  datatype Doc = Doc(header: seq<Text>, text: Text)

  type Docs = map<Text, Doc>

  ghost predicate LineDocs(docs: Docs) {
    forall k | k in docs :: AreSingleLines(docs[k].header)
  }

  ghost predicate AreSingleLines(header: seq<Text>) {
    forall i | 0 <= i < |header| :: NEWLINE !in header[i]
  }

  ghost predicate HeaderFits(header: seq<Text>, cols: nat) {
    forall i | 0 <= i < |header| :: |header[i]| <= cols
  }

  ghost predicate TableFits(m: seq<Text>, cols: nat) {
    forall i | 0 <= i < |m| :: |m[i]| + 4 <= cols
  }

  /** `below` says whether printed lines stand below the line, and `shown` whether the cursor is on the line
      and its row shows the redraw. */
  datatype Screen = Screen(below: bool, shown: bool)

  /** Does Tab get as far as clearing and listing? It returns before that when there is no symbol, or when it
      has typed something and nothing is listed below. `z` is the line with the cursor past the symbol. */
  predicate Lists(z: Zipper, env: Completer.Env, below: bool) {
    && z.Prefix() != []
    && (below || |z.Prefix()| == LcpLength(MatchesAt(z, env)))
  }

  function LcpLength(m: seq<Text>): nat {
    if m == [] then 0 else |Completer.Lcp(m)|
  }

  ghost function AfterTab(scr: Screen, z: Zipper, scope: Scope, cols: nat): Screen {
    if scope.NoScope? || !Lists(z.PastSymbol(), scope.env, scr.below) then scr
    else
      var m := MatchesAt(z.PastSymbol(), scope.env);
      if |m| < 2 then Screen(false, scr.shown) else Screen(true, scr.shown && TableFits(m, cols))
  }

  ghost function AfterDoc(scr: Screen, z: Zipper, scope: Scope, docs: Docs, cols: nat): Screen {
    var symbol := z.PastSymbol().Prefix();
    if scope.NoScope? || symbol !in docs then scr
    else Screen(true, scr.shown && HeaderFits(docs[symbol].header, cols))
  }

  /** A match too long, or a line about a value too long, leaves the cursor below the line, until the screen
      is cleared. */
  ghost function AfterKey(scr: Screen, k: Key, z: Zipper, scope: Scope, docs: Docs, cols: nat): Screen {
    if k.Complete? then AfterTab(scr, z, scope, cols)
    else if k.ShowDoc? then AfterDoc(scr, z, scope, docs, cols)
    else if k.Clear? then Screen(scr.below, true)
    else scr
  }

  /** The screen after all keys of an input that does not end the session. */
  ghost function ScreenAfter(s: State, input: Text, scope: Scope, docs: Docs, scr: Screen, cols: nat): Screen
    requires s.index < |s.hist|
    decreases |input|
  {
    if input == [] then scr
    else
      var (k, n) := ReadKey(input);
      if Ends(s, k) then scr
      else ScreenAfter(Step(s, k, scope), input[n..], scope, docs, AfterKey(scr, k, s.line, scope, docs, cols), cols)
  }

  /** A prompt, no control byte in anything that is printed, and a terminal wide enough for the indentation of
      a documentation text. */
  ghost predicate AllPlain(prompt: Text, cols: nat, scope: Scope, docs: Docs, s: State) {
    && prompt != [] && Printable(prompt) && cols >= 6
    && PrintableScope(scope) && LineDocs(docs)
    && s.Plain()
  }

  /** A terminal on which nothing printed below the line wraps by itself: every candidate leaves room for
      the four cells between columns, and every line about a value fits. */
  ghost predicate Roomy(scope: Scope, docs: Docs, cols: nat) {
    && (scope.InScope? ==> TableFits(Completer.Candidates(scope.env), cols))
    && (forall k | k in docs :: HeaderFits(docs[k].header, cols))
  }

  /** On such a terminal the line is shown after every key of every input. */
  lemma {:induction false} RoomyStaysShown(
      s: State, input: Text, scope: Scope, docs: Docs, scr: Screen, cols: nat)
    requires s.index < |s.hist| && Roomy(scope, docs, cols) && scr.shown
    ensures ScreenAfter(s, input, scope, docs, scr, cols).shown
    decreases |input|
  {
    if input != [] {
      var (k, n) := ReadKey(input);
      if !Ends(s, k) {
        RoomyKey(s.line, k, scope, docs, scr, cols);
        RoomyStaysShown(Step(s, k, scope), input[n..], scope, docs, AfterKey(scr, k, s.line, scope, docs, cols), cols);
      }
    }
  }

  lemma RoomyKey(z: Zipper, k: Key, scope: Scope, docs: Docs, scr: Screen, cols: nat)
    requires Roomy(scope, docs, cols) && scr.shown
    ensures AfterKey(scr, k, z, scope, docs, cols).shown
  {
    if k.Complete? && scope.InScope? {
      var at := z.PastSymbol();
      var m := MatchesAt(at, scope.env);
      forall i | 0 <= i < |m| ensures |m[i]| + 4 <= cols {
        Completer.KeptMembers(at.Prefix(), Completer.Candidates(scope.env), i);
      }
    }
  }
}

/** A session of the line editor as a function of the bytes typed. */
module Session {
  import opened Bytes
  import opened EditLine
  import opened Completion
  import History

  // ---------- Keys ----------

  datatype Key =
    | Type(c: byte)
    | GoHome | GoEnd | GoLeft | GoRight | GoWordLeft | GoWordRight
    | Backspace | Delete | BackspaceWord | DeleteWord | KillLeft | KillRight
    | Browse(delta: int)
    | Complete | ShowDoc | Clear | Repaint
    | EndOfFile | Cancel | Enter
    | Ignored

  /** The key at the head of the input, and how many bytes it takes. The input ends inside an escape
      sequence like a failed read: the rest of the sequence is given up. */
  function ReadKey(input: Text): (r: (Key, nat))
    requires input != []
    ensures 0 < r.1 <= |input|
  {
    var c := input[0];
    if c == 27 then ReadEscape(input)
    else (ControlKey(c), 1)
  }

  function ControlKey(c: byte): Key {
    if c == 1 then GoHome
    else if c == 2 then GoLeft
    else if c == 3 || c == 17 then Cancel
    else if c == 4 then EndOfFile
    else if c == 5 then GoEnd
    else if c == 6 then GoRight
    else if c == 7 then ShowDoc
    else if c == 8 || c == 127 then Backspace
    else if c == 9 then Complete
    else if c == 11 then KillRight
    else if c == 12 then Clear
    else if c == 13 then Enter
    else if c == 14 then Browse(-1)
    else if c == 16 then Browse(1)
    else if c == 21 then KillLeft
    else if c == 23 then BackspaceWord
    else if c == 26 then Repaint
    else if c < 32 then Ignored
    else Type(c)
  }

  /** `ESC [ x`, `ESC [ digit x` and `ESC x`. The two sequences `ESC O H` and `ESC O F` are meant to be
      Home and End as well, but their branch is nested where the byte after ESC is known to be `[`. */
  function ReadEscape(input: Text): (r: (Key, nat))
    requires input != [] && input[0] == 27
    ensures 0 < r.1 <= |input|
  {
    if |input| == 1 then (Ignored, 1)
    else if input[1] != '[' as int as byte then (AltKey(input[1]), 2)
    else if |input| == 2 then (Ignored, 2)
    else if !(48 <= input[2] <= 57) then (BracketKey(input[2]), 3)
    else if |input| == 3 then (Ignored, 3)
    else (if input[3] == '~' as int as byte then TildeKey(input[2]) else Ignored, 4)
  }

  function AltKey(c: byte): Key {
    if c == 'd' as int as byte then DeleteWord
    else if c == 'b' as int as byte then GoWordLeft
    else if c == 'f' as int as byte then GoWordRight
    else if c == ',' as int as byte then Browse(History.HISTORY_MAX)
    else if c == '.' as int as byte then Browse(-History.HISTORY_MAX)
    else if c == 127 then BackspaceWord
    else Ignored
  }

  function BracketKey(c: byte): Key {
    if c == 'A' as int as byte then Browse(1)
    else if c == 'B' as int as byte then Browse(-1)
    else if c == 'C' as int as byte then GoRight
    else if c == 'D' as int as byte then GoLeft
    else if c == 'H' as int as byte then GoHome
    else if c == 'F' as int as byte then GoEnd
    else Ignored
  }

  function TildeKey(c: byte): Key {
    if c == '1' as int as byte then GoHome
    else if c == '3' as int as byte then Delete
    else if c == '4' as int as byte then GoEnd
    else Ignored
  }

  // ---------- States and steps ----------

  /** The line, the history entries, and the entry being edited. */
  datatype State = State(line: Zipper, hist: seq<Text>, index: nat) {
    ghost predicate Valid() {
      && line.Valid()
      && History.AreLines(hist)
      && index < |hist| <= History.HISTORY_MAX
    }

    /** No control byte stands in the line or in an entry. */
    ghost predicate Plain() {
      line.Plain() && forall i | 0 <= i < |hist| :: Printable(hist[i])
    }

    /** What browsing shows: the entries, with the live line in place of the one being edited. */
    function Virtual(): seq<Text>
      requires index < |hist|
    {
      hist[index := line.Content()]
    }
  }

  datatype Exit = Accepted | Aborted | Cancelled

  /** Does the key end the session? */
  predicate Ends(s: State, k: Key) {
    k.Enter? || k.Cancel? || (k.EndOfFile? && s.line.Content() == [])
  }

  function ExitOf(k: Key): Exit {
    if k.Enter? then Accepted else if k.Cancel? then Cancelled else Aborted
  }

  function EditLineBy(z: Zipper, k: Key, scope: Scope): Zipper {
    match k
    case Type(c) => z.Insert(c)
    case GoHome => z.Home()
    case GoEnd => z.End()
    case GoLeft => z.Left()
    case GoRight => z.Right()
    case GoWordLeft => z.WordLeft()
    case GoWordRight => z.WordRight()
    case Backspace => z.Backspace()
    case Delete => z.Delete()
    case BackspaceWord => z.BackspaceWord()
    case DeleteWord => z.DeleteWord()
    case KillLeft => z.KillLeft()
    case KillRight => z.KillRight()
    case Complete => Completion.Complete(z, scope)
    case ShowDoc => if scope.InScope? then z.PastSymbol() else z
    case EndOfFile => z.Delete()
    case _ => z
  }

  function BrowseBy(s: State, delta: int): State
    requires s.index < |s.hist|
  {
    if |s.hist| <= 1 then s
    else
      var saved := s.Virtual();
      var to := History.Clamp(s.index + delta, |saved|);
      State(Zipper(saved[to], []), saved, to)
  }

  function Step(s: State, k: Key, scope: Scope): (t: State)
    requires s.index < |s.hist|
    ensures t.index < |t.hist| == |s.hist|
  {
    if k.Browse? then BrowseBy(s, k.delta) else s.(line := EditLineBy(s.line, k, scope))
  }

  /** Where a session that is in state `s` ends when the given bytes are still to be typed. */
  function Run(s: State, input: Text, scope: Scope): (r: (State, Exit))
    requires s.index < |s.hist|
    ensures r.0.index < |r.0.hist| == |s.hist|
    decreases |input|
  {
    if input == [] then (s, Aborted)
    else
      var (k, n) := ReadKey(input);
      if Ends(s, k) then (s, ExitOf(k)) else Run(Step(s, k, scope), input[n..], scope)
  }

  /** The entries that are being edited at some time during a run. */
  function Visited(s: State, input: Text, scope: Scope): set<nat>
    requires s.index < |s.hist|
    decreases |input|
  {
    if input == [] then {s.index}
    else
      var (k, n) := ReadKey(input);
      if Ends(s, k) then {s.index} else {s.index} + Visited(Step(s, k, scope), input[n..], scope)
  }

  /** No key of the input ends the session. */
  predicate StaysOpen(s: State, input: Text, scope: Scope)
    requires s.index < |s.hist|
    decreases |input|
  {
    input == [] || (var (k, n) := ReadKey(input); !Ends(s, k) && StaysOpen(Step(s, k, scope), input[n..], scope))
  }

  /** No key of the input moves through the history. */
  predicate NoBrowsing(input: Text)
    decreases |input|
  {
    input == [] || (var (k, n) := ReadKey(input); !k.Browse? && NoBrowsing(input[n..]))
  }

  // ---------- What every step keeps ----------

  lemma MotionIsGoto(z: Zipper, k: Key) returns (n: nat)
    requires k.GoHome? || k.GoEnd? || k.GoLeft? || k.GoRight? || k.GoWordLeft? || k.GoWordRight?
    ensures n <= |z.Content()| && EditLineBy(z, k, NoScope) == z.Goto(n)
  {
    n := |EditLineBy(z, k, NoScope).left|;
    if (k.GoLeft? && z.left == []) || (k.GoRight? && z.right == []) {
      assert z.Goto(n) == z;
    }
  }

  lemma ZipperKeepsValid(z: Zipper, k: Key, scope: Scope)
    requires z.Valid() && NulFreeScope(scope) && (k.Type? ==> k.c != 0)
    ensures EditLineBy(z, k, scope).Valid()
  {
    if k.GoHome? || k.GoEnd? || k.GoLeft? || k.GoRight? || k.GoWordLeft? || k.GoWordRight? {
      var n := MotionIsGoto(z, k);
      GotoIsValid(z, n);
    } else if k.Complete? {
      CompleteIsValid(z, scope);
    } else if k.ShowDoc? {
      GotoIsValid(z, SymbolEnd(|z.left|, z.Content()));
    } else if k.Type? {
      InsertIsValid(z, k.c);
    } else {
      ErasureIsValid(z);
      ContentIsNulFree(z);
    }
  }

  lemma ZipperKeepsPlain(z: Zipper, k: Key, scope: Scope)
    requires z.Valid() && z.Plain() && PrintableScope(scope) && (k.Type? ==> IsPrintable(k.c))
    ensures EditLineBy(z, k, scope).Plain()
  {
    if k.GoHome? || k.GoEnd? || k.GoLeft? || k.GoRight? || k.GoWordLeft? || k.GoWordRight? {
      var n := MotionIsGoto(z, k);
      GotoIsPlain(z, n);
    } else if k.Complete? {
      CompleteIsPlain(z, scope);
    } else if k.ShowDoc? {
      GotoIsPlain(z, SymbolEnd(|z.left|, z.Content()));
    } else {
      ContentIsPrintable(z);
    }
  }

  lemma ContentIsNulFree(z: Zipper)
    requires z.Valid()
    ensures NulFree(z.Content())
  {
  }

  lemma ContentIsPrintable(z: Zipper)
    requires z.Plain()
    ensures Printable(z.Content())
  {
  }

  lemma StepKeepsValid(s: State, k: Key, scope: Scope)
    requires s.Valid() && NulFreeScope(scope) && (k.Type? ==> k.c != 0)
    ensures Step(s, k, scope).Valid()
  {
    ContentIsNulFree(s.line);
    if k.Browse? {
      var saved := s.Virtual();
      var to := Step(s, k, scope).index;
      assert History.IsLine(saved[to]);
    } else {
      ZipperKeepsValid(s.line, k, scope);
    }
  }

  lemma StepKeepsPlain(s: State, k: Key, scope: Scope)
    requires s.Valid() && s.Plain() && PrintableScope(scope) && (k.Type? ==> IsPrintable(k.c))
    ensures Step(s, k, scope).Plain()
  {
    ContentIsPrintable(s.line);
    if k.Browse? {
      var saved := s.Virtual();
      var to := Step(s, k, scope).index;
      assert Printable(saved[to]);
    } else {
      ZipperKeepsPlain(s.line, k, scope);
    }
  }

  /** No key types a NUL or a control byte. */
  lemma KeysTypePrintableBytes(input: Text)
    requires input != []
    ensures var k := ReadKey(input).0; k.Type? ==> IsPrintable(k.c)
  {
  }

  /** Every byte stream: the line stays within the buffer and holds no NUL, and the history keeps its
      length, whatever is typed. When no symbol name holds a control byte, none enters the line. */
  lemma {:induction false} RunKeepsValid(s: State, input: Text, scope: Scope)
    requires s.Valid() && NulFreeScope(scope)
    ensures Run(s, input, scope).0.Valid()
    ensures s.Plain() && PrintableScope(scope) ==> Run(s, input, scope).0.Plain()
    decreases |input|
  {
    if input != [] {
      var (k, n) := ReadKey(input);
      if !Ends(s, k) {
        KeysTypePrintableBytes(input);
        StepKeepsValid(s, k, scope);
        if s.Plain() && PrintableScope(scope) {
          StepKeepsPlain(s, k, scope);
        }
        RunKeepsValid(Step(s, k, scope), input[n..], scope);
      }
    }
  }

  // ---------- Browsing loses nothing ----------

  /** Browsing leaves what is shown unchanged and moves only the index; every other key changes at most
      the entry being edited. */
  lemma StepChangesOnlyCurrent(s: State, k: Key, scope: Scope)
    requires s.Valid()
    ensures var t := Step(s, k, scope);
            if k.Browse? then t.Virtual() == s.Virtual() && t.index == History.Clamp(s.index + k.delta, |s.hist|)
            else t.index == s.index && t.Virtual() == s.Virtual()[s.index := t.line.Content()]
  {
    var t := Step(s, k, scope);
    if k.Browse? && |s.hist| > 1 {
      assert t.line.Content() == s.Virtual()[t.index];
    }
  }

  function BrowseAll(s: State, deltas: seq<int>): (t: State)
    requires s.index < |s.hist|
    ensures t.index < |t.hist| == |s.hist|
    decreases |deltas|
  {
    if deltas == [] then s else BrowseAll(BrowseBy(s, deltas[0]), deltas[1..])
  }

  /** Any sequence of moves through the history loses no text, and a last move by plus or minus 100
      reaches the oldest entry or the draft from everywhere. */
  lemma {:induction false} BrowsingLosesNothing(s: State, deltas: seq<int>)
    requires s.Valid()
    ensures var t := BrowseAll(s, deltas);
            && t.Valid()
            && t.Virtual() == s.Virtual()
            && BrowseBy(t, History.HISTORY_MAX).index == |s.hist| - 1
            && BrowseBy(t, -History.HISTORY_MAX).index == 0
            && (deltas != [] && |s.hist| > 1 ==> t.line == Zipper(s.Virtual()[t.index], []))
    decreases |deltas|
  {
    if deltas != [] {
      var k := Browse(deltas[0]);
      StepKeepsValid(s, k, NoScope);
      StepChangesOnlyCurrent(s, k, NoScope);
      BrowsingLosesNothing(BrowseBy(s, deltas[0]), deltas[1..]);
      if |deltas| == 1 {
        assert BrowseAll(s, deltas) == BrowseBy(s, deltas[0]);
      }
    }
  }

  /** Over a whole run, only entries that were being edited at some time can change. */
  lemma {:induction false} RunChangesOnlyVisited(s: State, input: Text, scope: Scope, i: nat)
    requires s.Valid() && NulFreeScope(scope)
    requires i < |s.hist| && i !in Visited(s, input, scope)
    ensures Run(s, input, scope).0.Virtual()[i] == s.Virtual()[i]
    decreases |input|
  {
    if input != [] {
      var (k, n) := ReadKey(input);
      if !Ends(s, k) {
        KeysTypePrintableBytes(input);
        StepKeepsValid(s, k, scope);
        StepChangesOnlyCurrent(s, k, scope);
        RunChangesOnlyVisited(Step(s, k, scope), input[n..], scope, i);
      }
    }
  }

  /** A run without browsing leaves the stored entries alone: the draft is the only one edited. */
  lemma {:induction false} RunWithoutBrowsing(s: State, input: Text, scope: Scope)
    requires s.index < |s.hist| && NoBrowsing(input)
    ensures Run(s, input, scope).0.hist == s.hist && Run(s, input, scope).0.index == s.index
    decreases |input|
  {
    if input != [] {
      var (k, n) := ReadKey(input);
      if !Ends(s, k) {
        RunWithoutBrowsing(Step(s, k, scope), input[n..], scope);
      }
    }
  }

  const LETTER_H: byte := 72
  const LETTER_F: byte := 70

  /** `ESC O H` and `ESC O F` are not the Home and End keys: each types its letter at the cursor. */
  lemma EscapeOTypesItsLetter(s: State, c: byte, rest: Text, scope: Scope)
    requires s.index < |s.hist| && (c == LETTER_H || c == LETTER_F)
    ensures Run(s, [27, 79, c] + rest, scope) == Run(s.(line := s.line.Insert(c)), rest, scope)
  {
    var input: Text := [27, 79, c] + rest;
    assert ReadKey(input) == (Ignored, 2);
    assert input[2..] == [c] + rest;
    assert Step(s, Ignored, scope) == s;
    assert ReadKey([c] + rest) == (Type(c), 1);
    assert ([c] + rest)[1..] == rest;
  }

  /** They do what Home and End would do exactly when the line is full and the cursor is there already. */
  lemma EscapeOIsHomeOrEndExactly(s: State, c: byte)
    requires s.Valid()
    ensures var full := |s.line.Content()| == LINE_MAX - 1;
            && (s.line.Insert(c) == s.line.Home() <==> full && s.line.left == [])
            && (s.line.Insert(c) == s.line.End() <==> full && s.line.right == [])
  {
    var z := s.line;
    if |z.Content()| == LINE_MAX - 1 {
      assert z.Goto(|z.left|) == z;
      assert |z.Home().left| == 0 && |z.End().right| == 0;
    } else {
      assert |z.Insert(c).Content()| == |z.Content()| + 1;
      assert |z.Home().Content()| == |z.Content()| == |z.End().Content()|;
    }
  }

  // ---------- Whole sessions ----------

  function Start(hist: seq<Text>): (s: State)
    ensures s.index < |s.hist|
  {
    State(Zipper([], []), History.Prepend(hist, []), 0)
  }

  /** The history after a session: an accepted line is recorded, any other exit leaves the entries, the
      draft included, as they are. */
  function HistoryAfter(hist: seq<Text>, input: Text, scope: Scope): seq<Text> {
    var (s, exit) := Run(Start(hist), input, scope);
    if exit.Accepted? then History.Accept(s.hist, s.line.Content()) else s.hist
  }

  /** Sessions that are accepted without browsing are the sessions that the history is tidy over. */
  lemma AcceptedWithoutBrowsing(hist: seq<Text>, input: Text, scope: Scope)
    requires NoBrowsing(input) && Run(Start(hist), input, scope).1.Accepted?
    ensures HistoryAfter(hist, input, scope) == History.Session(hist, Run(Start(hist), input, scope).0.line.Content())
  {
    RunWithoutBrowsing(Start(hist), input, scope);
  }

  // ---------- Many sessions ----------

  /** What is typed in one session, and where it completes. */
  datatype Typed = Typed(input: Text, scope: Scope)

  function HistoryAfterAll(hist: seq<Text>, sessions: seq<Typed>): seq<Text>
    decreases |sessions|
  {
    if sessions == [] then hist
    else HistoryAfterAll(HistoryAfter(hist, sessions[0].input, sessions[0].scope), sessions[1..])
  }

  /** Every session is accepted, and none moves through the history. */
  predicate AllAccepted(hist: seq<Text>, sessions: seq<Typed>)
    decreases |sessions|
  {
    sessions == [] ||
    (var t := sessions[0];
     && NoBrowsing(t.input)
     && Run(Start(hist), t.input, t.scope).1.Accepted?
     && AllAccepted(HistoryAfter(hist, t.input, t.scope), sessions[1..]))
  }

  /** The lines that the sessions end with. */
  function LinesOf(hist: seq<Text>, sessions: seq<Typed>): seq<Text>
    decreases |sessions|
  {
    if sessions == [] then []
    else
      var t := sessions[0];
      [Run(Start(hist), t.input, t.scope).0.line.Content()]
      + LinesOf(HistoryAfter(hist, t.input, t.scope), sessions[1..])
  }

  lemma {:induction false} AcceptedSessions(hist: seq<Text>, sessions: seq<Typed>)
    requires AllAccepted(hist, sessions)
    ensures HistoryAfterAll(hist, sessions) == History.Sessions(hist, LinesOf(hist, sessions))
    decreases |sessions|
  {
    if sessions != [] {
      var t := sessions[0];
      AcceptedWithoutBrowsing(hist, t.input, t.scope);
      AcceptedSessions(HistoryAfter(hist, t.input, t.scope), sessions[1..]);
      var lines := LinesOf(hist, sessions);
      assert lines[1..] == LinesOf(HistoryAfter(hist, t.input, t.scope), sessions[1..]);
    }
  }

  /** From an empty history, whatever bytes are typed in any number of sessions, as long as each is accepted
      and none browses: the history stays tidy, and holds the newest of the lines that a boundless one
      would keep. */
  lemma TypedSessionsKeepTidy(sessions: seq<Typed>)
    requires AllAccepted([], sessions)
    ensures var h := HistoryAfterAll([], sessions);
            History.Tidy(h) && h <= History.Kept(LinesOf([], sessions))
  {
    AcceptedSessions([], sessions);
    History.SessionsKeepTidy(LinesOf([], sessions));
  }

  /** Without browsing, a session keeps the history tidy exactly when its line is accepted: any other exit
      leaves the empty draft behind. */
  lemma TidyExactlyWhenAccepted(hist: seq<Text>, input: Text, scope: Scope)
    requires History.Tidy(hist) && NoBrowsing(input)
    ensures History.Tidy(HistoryAfter(hist, input, scope)) <==> Run(Start(hist), input, scope).1.Accepted?
  {
    RunWithoutBrowsing(Start(hist), input, scope);
    var (s, exit) := Run(Start(hist), input, scope);
    if exit.Accepted? {
      History.SessionIsTidy(hist, s.line.Content());
    } else {
      assert HistoryAfter(hist, input, scope)[0] == [];
    }
  }

  /** A cancelled session leaves its empty draft behind, so tidiness does not extend to such sessions. */
  lemma CancelLeavesDraft(hist: seq<Text>, scope: Scope)
    ensures HistoryAfter(hist, [17], scope) == History.Prepend(hist, [])
    ensures !History.Tidy(HistoryAfter(hist, [17], scope))
  {
    assert ReadKey([17]) == (Cancel, 1);
    assert HistoryAfter(hist, [17], scope)[0] == [];
  }
}

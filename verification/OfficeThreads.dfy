/** Any number of threads working on the association list behind one spinlock, step by step. */
module OfficeThreads {
  import opened Bytes
  import opened Office
  import opened Options

  type Tid = nat

  /** A list node. A node is linked before its key and its value are stored, and a value is freed before
      its replacement is allocated. */
  datatype Cell = Blank | Keyed(k: Text) | Full(k: Text, v: Text)

  datatype Call = Make(k: Text, v: Text) | Get(k: Text) | Update(k: Text)

  /** A call that has returned to its caller, with what it returned: the value found or nothing, the
      value that the callback was given and the one it returned, or the value it was given when it
      raised an error. */
  datatype Event =
    | Made(k: Text, v: Text)
    | Got(k: Text, found: Option<Text>)
    | Updated(k: Text, arg: Text, ret: Text)
    | Raised(k: Text, arg: Text)

  /** What a thread that holds the lock is about to put: `arg` is what the callback of an update was
      given. */
  datatype Change = MakeChange(k: Text, val: Text) | UpdateChange(k: Text, arg: Text, val: Text)

  datatype Pc =
    | Idle
    | Spinning(call: Call)
    | Finding(call: Call, i: nat)
    | Calling(k: Text, arg: Text)
    | Placing(change: Change, i: nat)
    | Replacing(change: Change, i: nat)
    | Linking(change: Change)
    | Filling(change: Change)
    | Unlocking(event: Event)

  /** `order` records the calls as they acquire the lock and `log` the calls as they complete. */
  datatype State = State(
    cells: seq<Cell>,
    lock: Option<Tid>,
    pcs: seq<Pc>,
    order: seq<(Tid, Call)>,
    log: seq<(Tid, Event)>,
    crashed: bool)

  /** What happens next in a thread: a new call, one step of its own, or the end of its callback, which
      returns a value or raises an error. */
  datatype Choice = Invoke(call: Call) | Proceed | Return(val: Option<Text>)

  predicate Critical(pc: Pc) {
    !pc.Idle? && !pc.Spinning?
  }

  function Done(c: Change): Event {
    match c
    case MakeChange(k, val) => Made(k, val)
    case UpdateChange(k, arg, val) => Updated(k, arg, val)
  }

  function CallOf(e: Event): Call {
    match e
    case Made(k, v) => Make(k, v)
    case Got(k, _) => Get(k)
    case Updated(k, _, _) => Update(k)
    case Raised(k, _) => Update(k)
  }

  // ---------- Steps ----------

  function Initial(threads: nat): State {
    State([Full([], [])], None, seq(threads, i => Idle), [], [], false)
  }

  predicate Enabled(s: State, t: Tid, c: Choice) {
    && !s.crashed
    && t < |s.pcs|
    && match s.pcs[t]
       case Idle => c.Invoke?
       case Spinning(_) => c.Proceed? && s.lock.None?
       case Calling(_, _) => c.Return?
       case _ => c.Proceed?
  }

  function Crash(s: State): State {
    s.(crashed := true)
  }

  function At(s: State, t: Tid, pc: Pc): State
    requires t < |s.pcs|
  {
    s.(pcs := s.pcs[t := pc])
  }

  function Step(s: State, t: Tid, c: Choice): State
    requires Enabled(s, t, c)
  {
    match s.pcs[t]
    case Idle => At(s, t, Spinning(c.call))
    case Spinning(call) => Acquire(s, t, call)
    case Finding(call, i) => Find1(s, t, call, i)
    case Calling(k, arg) =>
      (match c.val
       case Some(val) => At(s, t, Placing(UpdateChange(k, arg, val), 0))
       case None => At(s, t, Idle).(log := s.log + [(t, Raised(k, arg))]))
    case Placing(change, i) => Place1(s, t, change, i)
    case Replacing(change, i) =>
      if i < |s.cells| then At(s, t, Unlocking(Done(change))).(cells := s.cells[i := Full(change.k, change.val)])
      else Crash(s)
    case Linking(change) =>
      if s.cells == [] then Crash(s)
      else At(s, t, Filling(change)).(cells := s.cells[|s.cells| - 1 := Keyed(change.k)])
    case Filling(change) =>
      if s.cells == [] then Crash(s)
      else At(s, t, Unlocking(Done(change))).(cells := s.cells[|s.cells| - 1 := Full(change.k, change.val)])
    case Unlocking(event) => At(s, t, Idle).(lock := None, log := s.log + [(t, event)])
  }

  function Acquire(s: State, t: Tid, call: Call): State
    requires t < |s.pcs|
  {
    var pc := match call
      case Make(k, v) => Placing(MakeChange(k, v), 0)
      case _ => Finding(call, 0);
    At(s, t, pc).(lock := Some(t), order := s.order + [(t, call)])
  }

  /** One node of the walk that looks a key up. A get that finds nothing returns with the lock held, and an
      update that finds nothing dereferences a null pointer; so does a read of a node under construction. */
  function Find1(s: State, t: Tid, call: Call, i: nat): State
    requires t < |s.pcs|
  {
    if i >= |s.cells| || !s.cells[i].Full? then Crash(s)
    else if s.cells[i].k == call.k then
      At(s, t, if call.Update? then Calling(call.k, s.cells[i].v) else Unlocking(Got(call.k, Some(s.cells[i].v))))
    else if i + 1 < |s.cells| then At(s, t, Finding(call, i + 1))
    else if call.Update? then Crash(s)
    else At(s, t, Idle).(log := s.log + [(t, Got(call.k, None))])
  }

  /** One node of the walk that puts a value: the value of a matching node is freed, and behind the last
      node a blank one is linked. The value of the sentinel may not be freed. */
  function Place1(s: State, t: Tid, change: Change, i: nat): State
    requires t < |s.pcs|
  {
    if i >= |s.cells| || !s.cells[i].Full? then Crash(s)
    else if s.cells[i].k == change.k then
      if i == 0 then Crash(s)
      else At(s, t, Replacing(change, i)).(cells := s.cells[i := Keyed(change.k)])
    else if i + 1 < |s.cells| then At(s, t, Placing(change, i + 1))
    else At(s, t, Linking(change)).(cells := s.cells + [Blank])
  }

  /** The steps of a schedule can be taken one after the other. */
  predicate Runs(s: State, schedule: seq<(Tid, Choice)>)
    decreases |schedule|
  {
    schedule == [] ||
    (Enabled(s, schedule[0].0, schedule[0].1) && Runs(Step(s, schedule[0].0, schedule[0].1), schedule[1..]))
  }

  function After(s: State, schedule: seq<(Tid, Choice)>): State
    requires Runs(s, schedule)
    decreases |schedule|
  {
    if schedule == [] then s else After(Step(s, schedule[0].0, schedule[0].1), schedule[1..])
  }

  // ---------- The sequential specification ----------

  function Effect(l: seq<Entry>, e: Event): seq<Entry> {
    match e
    case Made(k, v) => Put(l, k, v)
    case Updated(k, _, ret) => Put(l, k, ret)
    case _ => l
  }

  /** The list after the logged calls, run one after the other. */
  function Replay(log: seq<(Tid, Event)>): seq<Entry> {
    if log == [] then EMPTY_OFFICE else Effect(Replay(log[..|log| - 1]), log[|log| - 1].1)
  }

  /** What a call returns when it runs alone on a list. */
  predicate Answers(l: seq<Entry>, e: Event) {
    match e
    case Made(_, _) => true
    case Got(k, found) => found == Lookup(l, k)
    case Updated(k, arg, _) => Lookup(l, k) == Some(arg)
    case Raised(k, arg) => Lookup(l, k) == Some(arg)
  }

  /** Every logged call returned what it returns when the calls run one after the other. */
  predicate Sequential(log: seq<(Tid, Event)>) {
    log == [] || (Sequential(log[..|log| - 1]) && Answers(Replay(log[..|log| - 1]), log[|log| - 1].1))
  }

  // ---------- The invariant ----------

  function Cells(l: seq<Entry>): (r: seq<Cell>)
    ensures |r| == |l| && forall i | 0 <= i < |l| :: r[i] == Full(l[i].k, l[i].v)
  {
    seq(|l|, i requires 0 <= i < |l| => Full(l[i].k, l[i].v))
  }

  /** The change about to be put is what the call asked for, on the list `l`. */
  ghost predicate Prepared(l: seq<Entry>, call: Call, c: Change) {
    && call == CallOf(Done(c))
    && Answers(l, Done(c))
  }

  /** What holds while a thread with program counter `pc` holds the lock for `call`, when `l` is the list
      after the completed calls. */
  ghost predicate Holds(cells: seq<Cell>, l: seq<Entry>, call: Call, pc: Pc) {
    match pc
    case Idle => false
    case Spinning(_) => false
    case Finding(c, i) =>
      cells == Cells(l) && c == call && !c.Make? && i < |l| && i <= Find(l, c.k)
    case Calling(k, arg) =>
      cells == Cells(l) && call == Update(k) && Lookup(l, k) == Some(arg)
    case Placing(c, i) =>
      cells == Cells(l) && Prepared(l, call, c) && i < |l| && i <= Find(l, c.k)
    case Replacing(c, i) =>
      Prepared(l, call, c) && i == Find(l, c.k) && 0 < i < |l| && cells == Cells(l)[i := Keyed(c.k)]
    case Linking(c) =>
      Prepared(l, call, c) && Find(l, c.k) == |l| && cells == Cells(l) + [Blank]
    case Filling(c) =>
      Prepared(l, call, c) && Find(l, c.k) == |l| && cells == Cells(l) + [Keyed(c.k)]
    case Unlocking(e) =>
      call == CallOf(e) && Answers(l, e) && cells == Cells(Effect(l, e))
  }

  /** The calls that have completed are the first that acquired the lock, in that order, and at most one
      more has acquired it. */
  ghost predicate InOrder(s: State) {
    && |s.log| <= |s.order| <= |s.log| + 1
    && forall i | 0 <= i < |s.log| :: s.order[i] == (s.log[i].0, CallOf(s.log[i].1))
  }

  ghost predicate Inv(s: State) {
    && Sequential(s.log)
    && InOrder(s)
    && Exclusive(s)
    && (!s.crashed ==> Live(s))
  }

  /** A thread between its lock and its unlock is the one that holds the lock. */
  ghost predicate Exclusive(s: State) {
    forall t | 0 <= t < |s.pcs| && Critical(s.pcs[t]) :: s.lock == Some(t)
  }

  ghost predicate Live(s: State) {
    && WellFormed(Replay(s.log))
    && match s.lock
       case None => |s.order| == |s.log| && s.cells == Cells(Replay(s.log))
       case Some(h) =>
         && h < |s.pcs|
         && if Critical(s.pcs[h]) then
              && |s.order| == |s.log| + 1
              && s.order[|s.log|].0 == h
              && Holds(s.cells, Replay(s.log), s.order[|s.log|].1, s.pcs[h])
            else
              |s.order| == |s.log| && s.cells == Cells(Replay(s.log))
  }

  lemma InitialInv(threads: nat)
    ensures Inv(Initial(threads))
  {
  }

  lemma LogGrows(log: seq<(Tid, Event)>, t: Tid, e: Event)
    requires Sequential(log) && Answers(Replay(log), e)
    ensures Sequential(log + [(t, e)]) && Replay(log + [(t, e)]) == Effect(Replay(log), e)
  {
    assert (log + [(t, e)])[..|log|] == log;
  }

  lemma EffectIsWellFormed(l: seq<Entry>, e: Event)
    requires WellFormed(l)
    ensures WellFormed(Effect(l, e))
  {
    match e
    case Made(k, v) => PutIsUpdate(l, k, v);
    case Updated(k, _, ret) => PutIsUpdate(l, k, ret);
    case _ =>
  }

  /** The lock holder steps inside its critical section. */
  lemma HolderMoves(s: State, t: Tid, pc: Pc, cells: seq<Cell>)
    requires Inv(s) && !s.crashed && t < |s.pcs| && Critical(s.pcs[t]) && Critical(pc)
    requires Holds(cells, Replay(s.log), s.order[|s.log|].1, pc)
    ensures Inv(At(s, t, pc).(cells := cells))
  {
  }

  /** The lock holder completes its call, with or without releasing the lock. */
  lemma HolderReturns(s: State, t: Tid, e: Event, lock: Option<Tid>)
    requires Inv(s) && !s.crashed && t < |s.pcs| && Critical(s.pcs[t])
    requires lock == None || lock == Some(t)
    requires s.order[|s.log|].1 == CallOf(e) && Answers(Replay(s.log), e)
    requires s.cells == Cells(Effect(Replay(s.log), e))
    ensures Inv(At(s, t, Idle).(lock := lock, log := s.log + [(t, e)]))
  {
    LogGrows(s.log, t, e);
    EffectIsWellFormed(Replay(s.log), e);
    var r := At(s, t, Idle).(lock := lock, log := s.log + [(t, e)]);
    LogIsInOrder(s, t, e);
    assert InOrder(r);
    assert Exclusive(r);
    assert Live(r);
  }

  lemma LogIsInOrder(s: State, t: Tid, e: Event)
    requires InOrder(s) && |s.order| == |s.log| + 1 && s.order[|s.log|] == (t, CallOf(e))
    ensures InOrder(s.(log := s.log + [(t, e)]))
  {
  }

  lemma StepKeepsInv(s: State, t: Tid, c: Choice)
    requires Inv(s) && Enabled(s, t, c)
    ensures Inv(Step(s, t, c))
  {
    var pc := s.pcs[t];
    if pc.Idle? || pc.Spinning? {
      EnterKeepsInv(s, t, c);
    } else if pc.Finding? {
      FindKeepsInv(s, t);
    } else if pc.Calling? {
      CallKeepsInv(s, t, c);
    } else if pc.Placing? {
      PlaceKeepsInv(s, t);
    } else if pc.Unlocking? {
      HolderReturns(s, t, pc.event, None);
    } else {
      StoreKeepsInv(s, t);
    }
  }

  lemma EnterKeepsInv(s: State, t: Tid, c: Choice)
    requires Inv(s) && Enabled(s, t, c) && (s.pcs[t].Idle? || s.pcs[t].Spinning?)
    ensures Inv(Step(s, t, c))
  {
  }

  lemma CallKeepsInv(s: State, t: Tid, c: Choice)
    requires Inv(s) && Enabled(s, t, c) && s.pcs[t].Calling?
    ensures Inv(Step(s, t, c))
  {
    var k, arg := s.pcs[t].k, s.pcs[t].arg;
    match c.val
    case Some(val) => HolderMoves(s, t, Placing(UpdateChange(k, arg, val), 0), s.cells);
    case None => HolderReturns(s, t, Raised(k, arg), s.lock);
  }

  lemma FindKeepsInv(s: State, t: Tid)
    requires Inv(s) && Enabled(s, t, Proceed) && s.pcs[t].Finding?
    ensures Inv(Step(s, t, Proceed))
  {
    var call, i := s.pcs[t].call, s.pcs[t].i;
    FindHolds(s.cells, Replay(s.log), s.order[|s.log|].1, call, i);
    if s.cells[i].k == call.k {
      var v := s.cells[i].v;
      HolderMoves(s, t, if call.Update? then Calling(call.k, v) else Unlocking(Got(call.k, Some(v))), s.cells);
    } else if i + 1 < |s.cells| {
      HolderMoves(s, t, Finding(call, i + 1), s.cells);
    } else if call.Get? {
      HolderReturns(s, t, Got(call.k, None), s.lock);
    }
  }

  /** What holds after the walk that looks a key up has looked at one node. */
  lemma FindHolds(cells: seq<Cell>, l: seq<Entry>, call: Call, c: Call, i: nat)
    requires Holds(cells, l, call, Finding(c, i))
    ensures i < |cells| && cells[i].Full? && c == call && !c.Make?
    ensures if cells[i].k == c.k
            then Holds(cells, l, call, if c.Update? then Calling(c.k, cells[i].v) else Unlocking(Got(c.k, Some(cells[i].v))))
            else if i + 1 < |cells| then Holds(cells, l, call, Finding(c, i + 1))
            else Lookup(l, c.k) == None && cells == Cells(l)
  {
    if cells[i].k == c.k {
      FindUnique(l, c.k, i);
    } else if i + 1 == |l| {
      FindUnique(l, c.k, |l|);
    }
  }

  lemma PlaceKeepsInv(s: State, t: Tid)
    requires Inv(s) && Enabled(s, t, Proceed) && s.pcs[t].Placing?
    ensures Inv(Step(s, t, Proceed))
  {
    var change, i := s.pcs[t].change, s.pcs[t].i;
    PlaceHolds(s.cells, Replay(s.log), s.order[|s.log|].1, change, i);
    if s.cells[i].k == change.k {
      if i > 0 {
        HolderMoves(s, t, Replacing(change, i), s.cells[i := Keyed(change.k)]);
      }
    } else if i + 1 < |s.cells| {
      HolderMoves(s, t, Placing(change, i + 1), s.cells);
    } else {
      HolderMoves(s, t, Linking(change), s.cells + [Blank]);
    }
  }

  /** What holds after the walk that puts a value has looked at one node. */
  lemma PlaceHolds(cells: seq<Cell>, l: seq<Entry>, call: Call, change: Change, i: nat)
    requires Holds(cells, l, call, Placing(change, i))
    ensures i < |cells| && cells[i].Full?
    ensures if cells[i].k == change.k
            then i > 0 ==> Holds(cells[i := Keyed(change.k)], l, call, Replacing(change, i))
            else if i + 1 < |cells| then Holds(cells, l, call, Placing(change, i + 1))
            else Holds(cells + [Blank], l, call, Linking(change))
  {
    if cells[i].k == change.k {
      FindUnique(l, change.k, i);
    } else if i + 1 == |l| {
      FindUnique(l, change.k, |l|);
    }
  }

  lemma StoreKeepsInv(s: State, t: Tid)
    requires Inv(s) && Enabled(s, t, Proceed)
    requires s.pcs[t].Replacing? || s.pcs[t].Linking? || s.pcs[t].Filling?
    ensures Inv(Step(s, t, Proceed))
  {
    CellsAreThere(s, t);
    var change := s.pcs[t].change;
    var l := Replay(s.log);
    var n := |s.cells| - 1;
    if s.pcs[t].Linking? {
      assert s.cells[n := Keyed(change.k)] == Cells(l) + [Keyed(change.k)];
      HolderMoves(s, t, Filling(change), s.cells[n := Keyed(change.k)]);
    } else {
      var i := if s.pcs[t].Replacing? then s.pcs[t].i else n;
      StoreIsPut(s, t, i);
      HolderMoves(s, t, Unlocking(Done(change)), s.cells[i := Full(change.k, change.val)]);
    }
  }

  lemma StoreIsPut(s: State, t: Tid, i: nat)
    requires Inv(s) && !s.crashed && t < |s.pcs|
    requires (s.pcs[t].Replacing? && i == s.pcs[t].i) || (s.pcs[t].Filling? && i == |s.cells| - 1)
    ensures i < |s.cells|
    ensures var change := s.pcs[t].change;
            && s.cells[i := Full(change.k, change.val)] == Cells(Effect(Replay(s.log), Done(change)))
  {
    StoreHolds(s.cells, Replay(s.log), s.order[|s.log|].1, s.pcs[t], i);
  }

  lemma StoreHolds(cells: seq<Cell>, l: seq<Entry>, call: Call, pc: Pc, i: nat)
    requires Holds(cells, l, call, pc)
    requires (pc.Replacing? && i == pc.i) || (pc.Filling? && i == |cells| - 1)
    ensures i < |cells| && cells[i := Full(pc.change.k, pc.change.val)] == Cells(Effect(l, Done(pc.change)))
  {
    var change := pc.change;
    assert Effect(l, Done(change)) == Put(l, change.k, change.val);
    assert cells[i := Full(change.k, change.val)] == Cells(Put(l, change.k, change.val));
  }

  lemma {:induction false} RunKeepsInv(s: State, schedule: seq<(Tid, Choice)>)
    requires Inv(s) && Runs(s, schedule)
    ensures Inv(After(s, schedule))
    decreases |schedule|
  {
    if schedule != [] {
      StepKeepsInv(s, schedule[0].0, schedule[0].1);
      RunKeepsInv(Step(s, schedule[0].0, schedule[0].1), schedule[1..]);
    }
  }

  // ---------- Linearizability ----------

  /** The same calls on a plain map. */
  function MapReplay(log: seq<(Tid, Event)>): map<Text, Text> {
    if log == [] then map[[] := []]
    else
      var m := MapReplay(log[..|log| - 1]);
      match log[|log| - 1].1
      case Made(k, v) => m[k := v]
      case Updated(k, _, ret) => m[k := ret]
      case _ => m
  }

  predicate MapAnswers(m: map<Text, Text>, e: Event) {
    match e
    case Made(_, _) => true
    case Got(k, found) => found == if k in m then Some(m[k]) else None
    case Updated(k, arg, _) => k in m && m[k] == arg
    case Raised(k, arg) => k in m && m[k] == arg
  }

  lemma {:induction false} ReplayIsMap(log: seq<(Tid, Event)>)
    ensures WellFormed(Replay(log)) && ToMap(Replay(log)) == MapReplay(log)
  {
    if log == [] {
      EmptyOffice();
    } else {
      var before := log[..|log| - 1];
      ReplayIsMap(before);
      match log[|log| - 1].1
      case Made(k, v) => PutIsUpdate(Replay(before), k, v);
      case Updated(k, _, ret) => PutIsUpdate(Replay(before), k, ret);
      case _ =>
    }
  }

  lemma {:induction false} SequentialAt(log: seq<(Tid, Event)>, i: nat)
    requires Sequential(log) && i < |log|
    ensures MapAnswers(MapReplay(log[..i]), log[i].1)
    decreases |log|
  {
    var n := |log| - 1;
    if i < n {
      SequentialAt(log[..n], i);
      assert log[..n][..i] == log[..i];
    } else {
      ReplayIsMap(log[..n]);
      AnswersOnMap(Replay(log[..n]), log[n].1);
    }
  }

  lemma AnswersOnMap(l: seq<Entry>, e: Event)
    requires WellFormed(l)
    ensures Answers(l, e) <==> MapAnswers(ToMap(l), e)
  {
    LookupIsMap(l, e.k);
  }

  /** Linearizability: for any number of threads and any interleaving of their steps, the completed calls
      are the first that acquired the lock, and each returned what it returns when the calls run in that
      order on a plain map. In particular every callback was given the value left by the calls before. */
  lemma Linearizable(threads: nat, schedule: seq<(Tid, Choice)>)
    requires Runs(Initial(threads), schedule)
    ensures var s := After(Initial(threads), schedule);
            && |s.log| <= |s.order| <= |s.log| + 1
            && (forall i | 0 <= i < |s.log| ::
                  && s.order[i] == (s.log[i].0, CallOf(s.log[i].1))
                  && MapAnswers(MapReplay(s.log[..i]), s.log[i].1))
  {
    InitialInv(threads);
    RunKeepsInv(Initial(threads), schedule);
    var s := After(Initial(threads), schedule);
    forall i | 0 <= i < |s.log| ensures MapAnswers(MapReplay(s.log[..i]), s.log[i].1) {
      SequentialAt(s.log, i);
    }
  }

  /** The records only grow: a call that completed before another was made comes before it in the order
      of the lock. */
  lemma {:induction false} RecordsOnlyGrow(s: State, schedule: seq<(Tid, Choice)>)
    requires Runs(s, schedule)
    ensures s.order <= After(s, schedule).order && s.log <= After(s, schedule).log
    ensures |After(s, schedule).pcs| == |s.pcs|
    decreases |schedule|
  {
    if schedule != [] {
      RecordsOnlyGrow(Step(s, schedule[0].0, schedule[0].1), schedule[1..]);
    }
  }

  /** Real-time order: a call that has completed when another is made comes before it in the order of the
      lock. The calls in `s.log` have completed when `t` makes `call`, and they are the first of the order; the
      first entry of `t` behind them, if there is one in the end, is `call`. */
  lemma RealTimeOrder(s: State, t: Tid, call: Call, schedule: seq<(Tid, Choice)>)
    requires Inv(s) && Enabled(s, t, Invoke(call)) && Runs(Step(s, t, Invoke(call)), schedule)
    ensures var e := After(Step(s, t, Invoke(call)), schedule);
            && s.log <= e.log
            && |s.log| <= |e.order|
            && (forall i | 0 <= i < |s.log| :: e.order[i] == (s.log[i].0, CallOf(s.log[i].1)))
            && FirstOf(e.order, |s.log|, t, call)
  {
    var next := Step(s, t, Invoke(call));
    RecordsOnlyGrow(next, schedule);
    assert next.order == s.order && next.log == s.log && next.pcs[t] == Spinning(call);
    NoneOfIdle(s, t);
    InvokedComesFirst(next, t, call, schedule, |s.log|);
    CompletedComeFirst(s, After(next, schedule).order);
  }

  lemma NoneOfIdle(s: State, t: Tid)
    requires Inv(s) && !s.crashed && t < |s.pcs| && s.pcs[t].Idle?
    ensures forall k | |s.log| <= k < |s.order| :: s.order[k].0 != t
  {
  }

  lemma CompletedComeFirst(s: State, order: seq<(Tid, Call)>)
    requires InOrder(s) && s.order <= order
    ensures forall i | 0 <= i < |s.log| :: order[i] == (s.log[i].0, CallOf(s.log[i].1))
  {
  }

  /** From position `n` on, the first entry of thread `t` is `call`. */
  ghost predicate FirstOf(order: seq<(Tid, Call)>, n: nat, t: Tid, call: Call) {
    forall k | n <= k < |order| && order[k].0 == t :: order[k].1 == call || Present(order, n, k, t)
  }

  ghost predicate Present(order: seq<(Tid, Call)>, n: nat, k: nat, t: Tid)
    requires k <= |order|
  {
    exists j :: n <= j < k && order[j].0 == t
  }

  lemma {:induction false} InvokedComesFirst(s: State, t: Tid, call: Call, schedule: seq<(Tid, Choice)>, n: nat)
    requires t < |s.pcs| && s.pcs[t] == Spinning(call) && n <= |s.order|
    requires forall k | n <= k < |s.order| :: s.order[k].0 != t
    requires Runs(s, schedule)
    ensures FirstOf(After(s, schedule).order, n, t, call)
    decreases |schedule|
  {
    if schedule != [] {
      var next := Step(s, schedule[0].0, schedule[0].1);
      if schedule[0].0 == t {
        RecordsOnlyGrow(next, schedule[1..]);
        var order := After(next, schedule[1..]).order;
        assert order[|s.order|] == next.order[|s.order|] == (t, call);
        assert forall k | n <= k < |s.order| :: order[k] == next.order[k] == s.order[k];
        forall k | |s.order| < k < |order| && order[k].0 == t ensures Present(order, n, k, t) {
          assert order[|s.order|].0 == t;
        }
      } else {
        InvokedComesFirst(next, t, call, schedule[1..], n);
      }
    }
  }

  // ---------- No update is lost ----------

  function Iterate(f: Text -> Text, n: nat, x: Text): Text {
    if n == 0 then x else f(Iterate(f, n - 1, x))
  }

  /** The value last made under a key, and the number of completed updates since. */
  function MadeThenUpdated(log: seq<(Tid, Event)>, k: Text): Option<(Text, nat)> {
    if log == [] then if k == [] then Some(([], 0)) else None
    else OneMore(MadeThenUpdated(log[..|log| - 1], k), log[|log| - 1].1, k)
  }

  function OneMore(made: Option<(Text, nat)>, e: Event, k: Text): Option<(Text, nat)> {
    match e
    case Made(k', v) => if k' == k then Some((v, 0)) else made
    case Updated(k', _, _) => if k' == k && made.Some? then Some((made.value.0, made.value.1 + 1)) else made
    case _ => made
  }

  /** Every completed update of a key put what `f` makes of the value its callback was given. */
  ghost predicate UpdatedBy(log: seq<(Tid, Event)>, k: Text, f: Text -> Text) {
    forall i | 0 <= i < |log| && log[i].1.Updated? && log[i].1.k == k :: log[i].1.ret == f(log[i].1.arg)
  }

  function Boxed(f: Text -> Text, made: Option<(Text, nat)>): Option<Text> {
    match made
    case Some((base, n)) => Some(Iterate(f, n, base))
    case None => None
  }

  /** When every update of a key applies the same function, the box holds the value last made with the
      function applied once for every completed update since: none is lost or applied to a stale value. */
  lemma {:induction false} NoUpdateIsLost(log: seq<(Tid, Event)>, k: Text, f: Text -> Text)
    requires Sequential(log) && UpdatedBy(log, k, f)
    ensures Lookup(Replay(log), k) == Boxed(f, MadeThenUpdated(log, k))
  {
    if log == [] {
      EmptyLookup(k);
    } else {
      var n := |log| - 1;
      assert forall i | 0 <= i < n :: log[..n][i] == log[i];
      NoUpdateIsLost(log[..n], k, f);
      ReplayIsMap(log[..n]);
      OneMoreIsBoxed(Replay(log[..n]), MadeThenUpdated(log[..n], k), log[n].1, k, f);
    }
  }

  lemma OneMoreIsBoxed(l: seq<Entry>, made: Option<(Text, nat)>, e: Event, k: Text, f: Text -> Text)
    requires WellFormed(l) && Answers(l, e) && Lookup(l, k) == Boxed(f, made)
    requires e.Updated? && e.k == k ==> e.ret == f(e.arg)
    ensures Lookup(Effect(l, e), k) == Boxed(f, OneMore(made, e, k))
  {
    LookupAfter(l, e, k);
  }

  lemma EmptyLookup(k: Text)
    ensures Lookup(EMPTY_OFFICE, k) == if k == [] then Some([]) else None
  {
    FindUnique(EMPTY_OFFICE, k, if k == [] then 0 else 1);
  }

  lemma LookupAfter(l: seq<Entry>, e: Event, k: Text)
    requires WellFormed(l)
    ensures Lookup(Effect(l, e), k) == if e.k != k then Lookup(l, k)
                                       else match e
                                            case Made(_, v) => Some(v)
                                            case Updated(_, _, ret) => Some(ret)
                                            case _ => Lookup(l, k)
  {
    match e
    case Made(k', v) => LookupPut(l, k', v, k);
    case Updated(k', _, ret) => LookupPut(l, k', ret, k);
    case _ =>
  }

  lemma LookupPut(l: seq<Entry>, k: Text, v: Text, other: Text)
    requires WellFormed(l)
    ensures Lookup(Put(l, k, v), other) == if k == other then Some(v) else Lookup(l, other)
  {
    PutIsUpdate(l, k, v);
    LookupIsMap(l, other);
    LookupIsMap(Put(l, k, v), other);
  }

  // ---------- Mutual exclusion ----------

  /** In every reachable state, whatever was leaked or crashed, at most one thread is between its lock and
      its unlock, and only that thread changes the list. */
  lemma MutualExclusion(threads: nat, schedule: seq<(Tid, Choice)>, t: Tid, u: Tid, c: Choice)
    requires Runs(Initial(threads), schedule)
    ensures var s := After(Initial(threads), schedule);
            && (t < |s.pcs| && u < |s.pcs| && Critical(s.pcs[t]) && Critical(s.pcs[u]) ==> t == u)
            && (Enabled(s, t, c) && Step(s, t, c).cells != s.cells ==> s.lock == Some(t) && Critical(s.pcs[t]))
  {
    InitialInv(threads);
    RunKeepsInv(Initial(threads), schedule);
  }

  /** The lock is held by a thread that has left its critical section and will never release it. */
  ghost predicate Leaked(s: State) {
    s.lock.Some? && (s.lock.value < |s.pcs| ==> !Critical(s.pcs[s.lock.value]))
  }

  /** The lock is leaked by exactly two kinds of steps: a get that reaches the end of the list without
      finding its key, and a callback that raises an error. */
  lemma LeaksExactly(s: State, t: Tid, c: Choice)
    requires Inv(s) && !Leaked(s) && Enabled(s, t, c)
    ensures Leaked(Step(s, t, c)) <==>
            || (s.pcs[t].Finding? && s.pcs[t].call.Get? && s.pcs[t].i + 1 == |s.cells|
                && Lookup(Replay(s.log), s.pcs[t].call.k) == None)
            || (s.pcs[t].Calling? && c.val.None?)
  {
    if s.pcs[t].Idle? || s.pcs[t].Spinning? {
      EnterLeaksNothing(s, t, c);
    } else if s.pcs[t].Finding? {
      FindingLogs(s, t);
    }
  }

  lemma EnterLeaksNothing(s: State, t: Tid, c: Choice)
    requires Inv(s) && !Leaked(s) && Enabled(s, t, c) && (s.pcs[t].Idle? || s.pcs[t].Spinning?)
    ensures !Leaked(Step(s, t, c))
  {
  }

  /** A leaked lock stays leaked: no further call acquires it, completes, or changes the list. */
  lemma {:induction false} LeakIsForever(s: State, schedule: seq<(Tid, Choice)>)
    requires Inv(s) && Leaked(s) && Runs(s, schedule)
    ensures var e := After(s, schedule);
            Leaked(e) && e.lock == s.lock && e.order == s.order && e.log == s.log && e.cells == s.cells
    decreases |schedule|
  {
    if schedule != [] {
      var t, c := schedule[0].0, schedule[0].1;
      StepKeepsInv(s, t, c);
      LeakIsForever(Step(s, t, c), schedule[1..]);
    }
  }

  /** A call that returns without releasing the lock. */
  predicate Leaks(e: Event) {
    e.Raised? || (e.Got? && e.found.None?)
  }

  ghost predicate HasLeak(log: seq<(Tid, Event)>) {
    exists i :: 0 <= i < |log| && Leaks(log[i].1)
  }

  lemma HasLeakSnoc(log: seq<(Tid, Event)>, e: (Tid, Event))
    ensures HasLeak(log + [e]) <==> HasLeak(log) || Leaks(e.1)
  {
    var more := log + [e];
    assert forall i | 0 <= i < |log| :: more[i] == log[i];
    assert more[|log|] == e;
  }

  ghost predicate LeakIsLogged(s: State) {
    && (Leaked(s) <==> HasLeak(s.log))
    && (forall t | 0 <= t < |s.pcs| && s.pcs[t].Unlocking? :: !Leaks(s.pcs[t].event))
  }

  lemma StepKeepsLeakLogged(s: State, t: Tid, c: Choice)
    requires Inv(s) && LeakIsLogged(s) && Enabled(s, t, c)
    ensures LeakIsLogged(Step(s, t, c))
  {
    StepLeaks(s, t, c);
    UnlockingIsNoLeak(s, t, c);
  }

  lemma UnlockingIsNoLeak(s: State, t: Tid, c: Choice)
    requires Enabled(s, t, c) && forall u | 0 <= u < |s.pcs| && s.pcs[u].Unlocking? :: !Leaks(s.pcs[u].event)
    ensures var e := Step(s, t, c); forall u | 0 <= u < |e.pcs| && e.pcs[u].Unlocking? :: !Leaks(e.pcs[u].event)
  {
    var e := Step(s, t, c);
    forall u | 0 <= u < |e.pcs| && e.pcs[u].Unlocking? ensures !Leaks(e.pcs[u].event) {
      if u != t {
        OtherPcs(s, t, c, u);
      } else {
        OwnPc(s, t, c);
      }
    }
  }

  lemma OtherPcs(s: State, t: Tid, c: Choice, u: Tid)
    requires Enabled(s, t, c) && u != t && u < |Step(s, t, c).pcs|
    ensures u < |s.pcs| && Step(s, t, c).pcs[u] == s.pcs[u]
  {
  }

  lemma OwnPc(s: State, t: Tid, c: Choice)
    requires Enabled(s, t, c)
    ensures var e := Step(s, t, c);
            && t < |e.pcs|
            && (e.pcs[t].Unlocking? && e.pcs != s.pcs ==> !Leaks(e.pcs[t].event))
            && (e.pcs == s.pcs ==> e.pcs[t] == s.pcs[t])
  {
  }

  lemma StepLeaks(s: State, t: Tid, c: Choice)
    requires Inv(s) && LeakIsLogged(s) && Enabled(s, t, c)
    ensures Leaked(Step(s, t, c)) <==> HasLeak(Step(s, t, c).log)
  {
    var e := Step(s, t, c);
    if Leaked(s) {
      LeakedStep(s, t, c);
    } else {
      LeaksExactly(s, t, c);
      LoggedEvent(s, t, c);
      if |e.log| > |s.log| {
        HasLeakSnoc(s.log, e.log[|s.log|]);
      }
    }
  }

  lemma LeakedStep(s: State, t: Tid, c: Choice)
    requires Inv(s) && Leaked(s) && Enabled(s, t, c)
    ensures Leaked(Step(s, t, c)) && Step(s, t, c).log == s.log
  {
    StepKeepsInv(s, t, c);
  }

  /** A step logs a leaking call exactly when it leaks the lock. */
  lemma LoggedEvent(s: State, t: Tid, c: Choice)
    requires Inv(s) && LeakIsLogged(s) && Enabled(s, t, c)
    ensures var e := Step(s, t, c);
            && (e.log == s.log || (|e.log| == |s.log| + 1 && e.log == s.log + [e.log[|s.log|]]))
            && (e.log != s.log && Leaks(e.log[|s.log|].1) <==>
                || (s.pcs[t].Finding? && s.pcs[t].call.Get? && s.pcs[t].i + 1 == |s.cells|
                    && Lookup(Replay(s.log), s.pcs[t].call.k) == None)
                || (s.pcs[t].Calling? && c.val.None?))
  {
    if s.pcs[t].Finding? {
      FindingLogs(s, t);
    }
  }

  lemma FindingLogs(s: State, t: Tid)
    requires Inv(s) && Enabled(s, t, Proceed) && s.pcs[t].Finding?
    ensures var call, i := s.pcs[t].call, s.pcs[t].i;
            (call.Get? && i + 1 == |s.cells| && Lookup(Replay(s.log), call.k) == None)
            <==> (call.Get? && i + 1 == |s.cells| && s.cells[i].k != call.k)
  {
    var call, i := s.pcs[t].call, s.pcs[t].i;
    var l := Replay(s.log);
    if s.cells[i].k == call.k {
      FindUnique(l, call.k, i);
    } else if i + 1 == |l| {
      FindUnique(l, call.k, |l|);
    }
  }

  lemma {:induction false} RunKeepsLeakLogged(s: State, schedule: seq<(Tid, Choice)>)
    requires Inv(s) && LeakIsLogged(s) && Runs(s, schedule)
    ensures LeakIsLogged(After(s, schedule))
    decreases |schedule|
  {
    if schedule != [] {
      StepKeepsLeakLogged(s, schedule[0].0, schedule[0].1);
      StepKeepsInv(s, schedule[0].0, schedule[0].1);
      RunKeepsLeakLogged(Step(s, schedule[0].0, schedule[0].1), schedule[1..]);
    }
  }

  /** Over whole runs: the lock is leaked exactly when some get has found nothing or some callback has raised
      an error. */
  lemma LeakedExactlyWhenLogged(threads: nat, schedule: seq<(Tid, Choice)>)
    requires Runs(Initial(threads), schedule)
    ensures var s := After(Initial(threads), schedule);
            Leaked(s) <==> HasLeak(s.log)
  {
    InitialInv(threads);
    RunKeepsLeakLogged(Initial(threads), schedule);
  }

  // ---------- Crashes ----------

  /** The store crashes by exactly two kinds of steps: an update that reaches the end of the list without
      finding its key, and a put on the empty key. */
  lemma CrashesExactly(s: State, t: Tid, c: Choice)
    requires Inv(s) && Enabled(s, t, c)
    ensures Step(s, t, c).crashed <==>
            || (s.pcs[t].Finding? && s.pcs[t].call.Update? && s.pcs[t].i + 1 == |s.cells|
                && Lookup(Replay(s.log), s.pcs[t].call.k) == None)
            || (s.pcs[t].Placing? && s.pcs[t].change.k == [])
  {
    var l := Replay(s.log);
    if s.pcs[t].Finding? {
      var call, i := s.pcs[t].call, s.pcs[t].i;
      if s.cells[i].k == call.k {
        FindUnique(l, call.k, i);
      } else if i + 1 == |l| {
        FindUnique(l, call.k, |l|);
      }
    } else if s.pcs[t].Placing? {
      var i := s.pcs[t].i;
      assert s.cells[0].k == [];
      if s.pcs[t].change.k == [] {
        FindUnique(l, [], 0);
      }
    }
  }

  /** One thread calls the store, acquires the lock, and looks at the sentinel. */
  function FirstLook(t: Tid, call: Call): seq<(Tid, Choice)> {
    [(t, Invoke(call)), (t, Proceed), (t, Proceed)]
  }

  lemma RunsOneStep(s: State, t: Tid, c: Choice, rest: seq<(Tid, Choice)>)
    requires Enabled(s, t, c) && Runs(Step(s, t, c), rest)
    ensures Runs(s, [(t, c)] + rest) && After(s, [(t, c)] + rest) == After(Step(s, t, c), rest)
  {
    assert ([(t, c)] + rest)[1..] == rest;
  }

  lemma FirstLookRuns(threads: nat, t: Tid, call: Call)
    requires t < threads
    ensures Runs(Initial(threads), FirstLook(t, call))
    ensures var s := Acquire(At(Initial(threads), t, Spinning(call)), t, call);
            && t < |s.pcs|
            && After(Initial(threads), FirstLook(t, call))
               == (match call
                   case Make(k, v) => Place1(s, t, MakeChange(k, v), 0)
                   case _ => Find1(s, t, call, 0))
  {
    var s0 := Initial(threads);
    var s1 := At(s0, t, Spinning(call));
    var s2 := Acquire(s1, t, call);
    RunsOneStep(s2, t, Proceed, []);
    RunsOneStep(s1, t, Proceed, [(t, Proceed)] + []);
    RunsOneStep(s0, t, Invoke(call), [(t, Proceed)] + ([(t, Proceed)] + []));
    assert [(t, Invoke(call))] + ([(t, Proceed)] + ([(t, Proceed)] + [])) == FirstLook(t, call);
  }

  /** Each of the two crashes can be reached from a fresh store, and so can a leaked lock: an update, a get, or
      a put under a key that a fresh store lacks, or under the empty key. */
  lemma CrashesAndLeaksAreReachable(threads: nat, t: Tid, k: Text, v: Text)
    requires t < threads && k != []
    ensures Runs(Initial(threads), FirstLook(t, Update(k)))
    ensures After(Initial(threads), FirstLook(t, Update(k))).crashed
    ensures Runs(Initial(threads), FirstLook(t, Make([], v)))
    ensures After(Initial(threads), FirstLook(t, Make([], v))).crashed
    ensures Runs(Initial(threads), FirstLook(t, Get(k)))
    ensures Leaked(After(Initial(threads), FirstLook(t, Get(k))))
  {
    FirstLookRuns(threads, t, Update(k));
    FirstLookRuns(threads, t, Make([], v));
    FirstLookRuns(threads, t, Get(k));
  }

  // ---------- Progress ----------

  /** How many steps the lock holder has left at most. */
  function StepsLeft(pc: Pc, nodes: nat): nat {
    match pc
    case Finding(_, i) => if i <= nodes then 7 + nodes + (nodes - i) else 7 + nodes
    case Calling(_, _) => 6 + nodes
    case Placing(_, i) => if i <= nodes then 5 + (nodes - i) else 5
    case Linking(_) => 3
    case Filling(_) => 2
    case Replacing(_, _) => 2
    case Unlocking(_) => 1
    case _ => 0
  }

  /** The call that holds the lock asks for nothing that leaks or crashes: a get or an update finds its
      key, and the sentinel is not put. */
  ghost predicate Served(s: State)
    requires |s.order| == |s.log| + 1
  {
    var call := s.order[|s.log|].1;
    && (call.Make? || Lookup(Replay(s.log), call.k).Some?)
    && (call.Get? || call.k != [])
  }

  /** Every step of a served lock holder either releases the lock or brings the release nearer, whatever
      its callback returns. */
  lemma HolderAdvances(s: State, t: Tid, c: Choice)
    requires Inv(s) && !s.crashed && t < |s.pcs| && Critical(s.pcs[t]) && Served(s)
    requires Enabled(s, t, c) && c != Return(None)
    ensures var e := Step(s, t, c);
            if s.pcs[t].Unlocking? then !e.crashed && e.lock == None else Advances(s, e, t)
  {
    if s.pcs[t].Finding? {
      FindAdvances(s, t);
    } else if s.pcs[t].Placing? {
      PlaceAdvances(s, t);
    } else if s.pcs[t].Calling? {
      CallAdvances(s, t, c);
    } else if !s.pcs[t].Unlocking? {
      StoreAdvances(s, t);
    }
  }

  ghost predicate Advances(s: State, e: State, t: Tid)
    requires t < |s.pcs|
  {
    && !e.crashed && |e.pcs| == |s.pcs|
    && e.lock == s.lock && Critical(e.pcs[t]) && e.order == s.order && e.log == s.log
    && StepsLeft(e.pcs[t], |e.cells|) < StepsLeft(s.pcs[t], |s.cells|)
  }

  lemma FindAdvances(s: State, t: Tid)
    requires Inv(s) && !s.crashed && t < |s.pcs| && s.pcs[t].Finding? && Served(s)
    ensures Advances(s, Step(s, t, Proceed), t)
  {
    FindIsOnList(s, t);
    FindStepAdvances(s, t, s.pcs[t].call, s.pcs[t].i);
  }

  lemma FindIsOnList(s: State, t: Tid)
    requires Inv(s) && !s.crashed && t < |s.pcs| && s.pcs[t].Finding? && Served(s)
    ensures var call, i := s.pcs[t].call, s.pcs[t].i;
            i < |s.cells| && s.cells[i].Full? && !call.Make? && (s.cells[i].k != call.k ==> i + 1 < |s.cells|)
  {
    var call, i := s.pcs[t].call, s.pcs[t].i;
    assert Find(Replay(s.log), call.k) < |s.cells|;
    assert s.cells[i].k != call.k ==> i < Find(Replay(s.log), call.k);
  }

  lemma FindStepAdvances(s: State, t: Tid, call: Call, i: nat)
    requires !s.crashed && t < |s.pcs| && s.pcs[t] == Finding(call, i)
    requires i < |s.cells| && s.cells[i].Full? && (s.cells[i].k != call.k ==> i + 1 < |s.cells|)
    ensures Advances(s, Find1(s, t, call, i), t)
  {
  }

  lemma PlaceAdvances(s: State, t: Tid)
    requires Inv(s) && !s.crashed && t < |s.pcs| && s.pcs[t].Placing? && Served(s)
    ensures Advances(s, Step(s, t, Proceed), t)
  {
    PlaceIsOnList(s, t);
    PlaceStepAdvances(s, t, s.pcs[t].change, s.pcs[t].i);
  }

  lemma PlaceStepAdvances(s: State, t: Tid, change: Change, i: nat)
    requires !s.crashed && t < |s.pcs| && s.pcs[t] == Placing(change, i)
    requires i < |s.cells| && s.cells[i].Full? && (s.cells[i].k == change.k ==> i > 0)
    ensures Advances(s, Place1(s, t, change, i), t)
  {
  }

  lemma PlaceIsOnList(s: State, t: Tid)
    requires Inv(s) && !s.crashed && t < |s.pcs| && s.pcs[t].Placing? && Served(s)
    ensures s.pcs[t].i < |s.cells| && s.cells[s.pcs[t].i].Full?
    ensures s.cells[s.pcs[t].i].k == s.pcs[t].change.k ==> s.pcs[t].i > 0
  {
    assert s.cells[0].k == [];
  }

  lemma CallAdvances(s: State, t: Tid, c: Choice)
    requires Inv(s) && !s.crashed && t < |s.pcs| && s.pcs[t].Calling?
    requires Enabled(s, t, c) && c != Return(None)
    ensures Advances(s, Step(s, t, c), t)
  {
  }

  lemma StoreAdvances(s: State, t: Tid)
    requires Inv(s) && !s.crashed && t < |s.pcs|
    requires s.pcs[t].Replacing? || s.pcs[t].Linking? || s.pcs[t].Filling?
    ensures Advances(s, Step(s, t, Proceed), t)
  {
    CellsAreThere(s, t);
    StoreStepAdvances(s, t);
  }

  lemma StoreStepAdvances(s: State, t: Tid)
    requires !s.crashed && t < |s.pcs|
    requires s.pcs[t].Replacing? || s.pcs[t].Linking? || s.pcs[t].Filling?
    requires s.pcs[t].Replacing? ==> s.pcs[t].i < |s.cells|
    requires s.pcs[t].Linking? || s.pcs[t].Filling? ==> s.cells != []
    ensures Advances(s, Step(s, t, Proceed), t)
  {
  }

  lemma CellsAreThere(s: State, t: Tid)
    requires Inv(s) && !s.crashed && t < |s.pcs|
    ensures s.pcs[t].Replacing? ==> s.pcs[t].i < |s.cells|
    ensures s.pcs[t].Linking? || s.pcs[t].Filling? ==> s.cells != []
  {
  }

  /** The steps of other threads leave the lock holder where it is. */
  lemma OthersWait(s: State, t: Tid, u: Tid, c: Choice)
    requires Inv(s) && !s.crashed && t < |s.pcs| && Critical(s.pcs[t]) && u != t && Enabled(s, u, c)
    ensures var e := Step(s, u, c);
            e.pcs[t] == s.pcs[t] && e.cells == s.cells && e.lock == s.lock && e.log == s.log && e.order == s.order
  {
  }

  /** The schedule takes thread `t` alone to the release of the lock. */
  ghost predicate Releases(s: State, t: Tid, schedule: seq<(Tid, Choice)>) {
    && Runs(s, schedule) && After(s, schedule).lock == None && !After(s, schedule).crashed
    && (forall i | 0 <= i < |schedule| :: schedule[i].0 == t)
  }

  lemma ReleaseStep(s: State, t: Tid, c: Choice, rest: seq<(Tid, Choice)>)
    requires Enabled(s, t, c) && Releases(Step(s, t, c), t, rest)
    ensures Releases(s, t, [(t, c)] + rest)
  {
    RunsOneStep(s, t, c, rest);
  }

  lemma HolderGoesOn(s: State, t: Tid) returns (c: Choice)
    requires Inv(s) && !s.crashed && t < |s.pcs| && Critical(s.pcs[t]) && Served(s)
    ensures Enabled(s, t, c) && Inv(Step(s, t, c))
    ensures if s.pcs[t].Unlocking? then Step(s, t, c).lock == None && !Step(s, t, c).crashed
            else Advances(s, Step(s, t, c), t)
  {
    c := if s.pcs[t].Calling? then Return(Some(s.pcs[t].arg)) else Proceed;
    HolderAdvances(s, t, c);
    StepKeepsInv(s, t, c);
  }

  lemma StillServed(s: State, e: State, t: Tid)
    requires Inv(s) && Inv(e) && t < |s.pcs| && !s.crashed && Critical(s.pcs[t]) && Advances(s, e, t) && Served(s)
    ensures |e.order| == |e.log| + 1 && Served(e)
  {
  }

  /** A served lock holder can always go on until it releases the lock, without help from other threads. */
  lemma {:induction false} HolderReleases(s: State, t: Tid) returns (schedule: seq<(Tid, Choice)>)
    requires Inv(s) && !s.crashed && t < |s.pcs| && Critical(s.pcs[t]) && Served(s)
    ensures Releases(s, t, schedule)
    ensures |schedule| <= StepsLeft(s.pcs[t], |s.cells|)
    decreases StepsLeft(s.pcs[t], |s.cells|)
  {
    var c := HolderGoesOn(s, t);
    var rest := [];
    if !s.pcs[t].Unlocking? {
      StillServed(s, Step(s, t, c), t);
      rest := HolderReleases(Step(s, t, c), t);
    }
    ReleaseStep(s, t, c, rest);
    schedule := [(t, c)] + rest;
  }
}

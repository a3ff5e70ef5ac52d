/** Evaluating a script of SQL statements: the next statement is compiled before the current one runs. */
module SqlEval {
  import opened Bytes
  import opened Options

  // ---------- The database engine, as an oracle ----------

  datatype Error = InvalidIndex | InvalidType | EmbeddedNul | DatabaseClosed | EngineError(msg: Text)

  /** Compiling the head of a script: a statement and the rest of the script, nothing when only blanks and
      comments are left, or an error. */
  datatype Compile<+S> = Compiled(stmt: S, rest: Text) | NothingLeft | CompileError(msg: Error)

  datatype Bind<+S> = Bound(stmt: S) | BindError(msg: Error)

  datatype Stepped<+D, +S, +R> = Row(db: D, stmt: S, row: R) | Finished(db: D) | StepError(db: D, msg: Error)

  /** `D` is the state of the database, `S` a statement with its bindings and its cursor, `V` a parameter
      value and `R` a row. `left` bounds the rows that a statement still yields. */
  datatype Engine<!D, !S, !V, +R> = Engine(
    prepare: (D, Text) -> Compile<S>,
    paramCount: S -> nat,
    paramIndex: (S, Text) -> nat,
    bind1: (S, int, V) -> Bind<S>,
    step: (D, S) -> Stepped<D, S, R>,
    left: (D, S) -> nat)

  /** What the engine promises: compiling consumes text, and statements end. */
  ghost predicate Sound<D(!new), S(!new), V(!new), R(!new)>(e: Engine<D, S, V, R>) {
    && (forall d, t :: e.prepare(d, t).Compiled? ==> |e.prepare(d, t).rest| < |t|)
    && (forall d, s :: e.step(d, s).Row? ==> e.left(e.step(d, s).db, e.step(d, s).stmt) < e.left(d, s))
  }

  /** A parameter outside the range of a statement cannot be bound, and binding leaves that range alone. */
  ghost predicate ChecksRange<D(!new), S(!new), V(!new), R(!new)>(e: Engine<D, S, V, R>) {
    && (forall s, i, v :: e.bind1(s, i, v).Bound? ==> 1 <= i <= e.paramCount(s))
    && (forall s, i, v :: e.bind1(s, i, v).Bound? ==> e.paramCount(e.bind1(s, i, v).stmt) == e.paramCount(s))
  }

  datatype Key = NilKey | IndexKey(i: int) | NameKey(name: Text) | OtherKey

  /** The optional parameters of a script: an indexed sequence, the slots of a dictionary (a nil key marks
      an empty slot), or a value of any other type. */
  datatype Params<+V> = NoParams | Indexed(values: seq<V>) | Dictionary(slots: seq<(Key, V)>) | Invalid

  // ---------- Binding ----------

  function BindFrom<D, S, V, R>(e: Engine<D, S, V, R>, s: S, values: seq<V>, i: nat): Bind<S>
    decreases |values| - i
  {
    if i >= |values| then Bound(s)
    else match e.bind1(s, i + 1, values[i])
         case Bound(s') => BindFrom(e, s', values, i + 1)
         case BindError(msg) => BindError(msg)
  }

  function IndexOf<D, S, V, R>(e: Engine<D, S, V, R>, s: S, k: Key): int {
    match k
    case IndexKey(i) => i
    case NameKey(name) => e.paramIndex(s, name)
    case _ => 0
  }

  function BindSlots<D, S, V, R>(e: Engine<D, S, V, R>, s: S, slots: seq<(Key, V)>, limit: nat, i: nat): Bind<S>
    decreases |slots| - i
  {
    if i >= |slots| then Bound(s)
    else if slots[i].0.NilKey? then BindSlots(e, s, slots, limit, i + 1)
    else
      var index := IndexOf(e, s, slots[i].0);
      if index <= 0 || index > limit then BindError(InvalidIndex)
      else match e.bind1(s, index, slots[i].1)
           case Bound(s') => BindSlots(e, s', slots, limit, i + 1)
           case BindError(msg) => BindError(msg)
  }

  function BindMany<D, S, V, R>(e: Engine<D, S, V, R>, s: S, p: Params<V>): Bind<S> {
    match p
    case NoParams => Bound(s)
    case Indexed(values) => if |values| > e.paramCount(s) + 1 then BindError(InvalidIndex) else BindFrom(e, s, values, 0)
    case Dictionary(slots) => BindSlots(e, s, slots, e.paramCount(s), 0)
    case Invalid => BindError(InvalidType)
  }

  /** The check of an indexed sequence admits one value too many, but such a sequence is never bound. */
  lemma {:induction false} BindFromNeedsParams<D(!new), S(!new), V(!new), R(!new)>(
      e: Engine<D, S, V, R>, s: S, values: seq<V>, i: nat)
    requires ChecksRange(e) && i <= |values|
    ensures BindFrom(e, s, values, i).Bound? ==> i == |values| || |values| <= e.paramCount(s)
    ensures BindFrom(e, s, values, i).Bound? ==> e.paramCount(BindFrom(e, s, values, i).stmt) == e.paramCount(s)
    decreases |values| - i
  {
    if i < |values| && e.bind1(s, i + 1, values[i]).Bound? {
      BindFromNeedsParams(e, e.bind1(s, i + 1, values[i]).stmt, values, i + 1);
    }
  }

  // ---------- Running ----------

  /** A statement run to its end: the database after it, its rows, and its error if any. */
  datatype Run<+D, +R> = Run(db: D, rows: seq<R>, err: Option<Error>)

  function RunAll<D(!new), S(!new), V(!new), R(!new)>(e: Engine<D, S, V, R>, d: D, s: S): Run<D, R>
    requires Sound(e)
    decreases e.left(d, s)
  {
    match e.step(d, s)
    case Row(d', s', row) =>
      var r := RunAll(e, d', s');
      Run(r.db, [row] + r.rows, r.err)
    case Finished(d') => Run(d', [], None)
    case StepError(d', msg) => Run(d', [], Some(msg))
  }

  datatype Status = Success | CompileFailed(err: Error) | BindFailed(err: Error) | RunFailed(err: Error)

  /** The end of an evaluation: the database, the rows collected, the number of statements compiled, and
      the statements run (the last of them perhaps not to its end). */
  datatype Outcome<+D, +S, +R> = Outcome(db: D, rows: seq<R>, status: Status, compiled: nat, ran: seq<S>)

  function Begun<S>(cur: Option<S>): seq<S> {
    if cur.Some? then [cur.value] else []
  }

  function RunCur<D(!new), S(!new), V(!new), R(!new)>(e: Engine<D, S, V, R>, d: D, cur: Option<S>): Run<D, R>
    requires Sound(e)
  {
    if cur.Some? then RunAll(e, d, cur.value) else Run(d, [], None)
  }

  /** The script from `text` on, when `cur` is the statement compiled and bound but not yet run. */
  function Pipeline<D(!new), S(!new), V(!new), R(!new)>(
      e: Engine<D, S, V, R>, d: D, text: Text, cur: Option<S>, p: Params<V>): Outcome<D, S, R>
    requires Sound(e)
    decreases |text|
  {
    var ran := Begun(cur);
    match e.prepare(d, text)
    case CompileError(msg) => Outcome(d, [], CompileFailed(msg), 0, [])
    case NothingLeft =>
      var r := RunCur(e, d, cur);
      if r.err.Some? then Outcome(r.db, [], RunFailed(r.err.value), 0, ran) else Outcome(r.db, r.rows, Success, 0, ran)
    case Compiled(s, rest) =>
      var r := RunCur(e, d, cur);
      if r.err.Some? then Outcome(r.db, [], RunFailed(r.err.value), 1, ran)
      else match BindMany(e, s, p)
           case BindError(msg) => Outcome(r.db, [], BindFailed(msg), 1, ran)
           case Bound(s') =>
             var o := Pipeline(e, r.db, rest, Some(s'), p);
             o.(compiled := o.compiled + 1, ran := ran + o.ran)
  }

  /** A turn of the pipeline that compiles a further statement. */
  lemma PipelineMiddle<D(!new), S(!new), V(!new), R(!new)>(
      e: Engine<D, S, V, R>, d: D, text: Text, cur: Option<S>, p: Params<V>)
    requires Sound(e) && e.prepare(d, text).Compiled?
    ensures var o := Pipeline(e, d, text, cur, p);
            var r := RunCur(e, d, cur);
            var b := BindMany(e, e.prepare(d, text).stmt, p);
            if r.err.Some? then o == Outcome(r.db, [], RunFailed(r.err.value), 1, Begun(cur))
            else if b.BindError? then o == Outcome(r.db, [], BindFailed(b.msg), 1, Begun(cur))
            else
              var rest := Pipeline(e, r.db, e.prepare(d, text).rest, Some(b.stmt), p);
              (o.db, o.rows, o.status, o.ran) == (rest.db, rest.rows, rest.status, Begun(cur) + rest.ran)
  {
  }

  /** One statement after the other: compiled, bound and run before the next one is looked at. The rows
      are those of the last statement. */
  function Reference<D(!new), S(!new), V(!new), R(!new)>(
      e: Engine<D, S, V, R>, d: D, text: Text, p: Params<V>, rows: seq<R>): (D, seq<R>, Status)
    requires Sound(e)
    decreases |text|
  {
    match e.prepare(d, text)
    case CompileError(msg) => (d, [], CompileFailed(msg))
    case NothingLeft => (d, rows, Success)
    case Compiled(s, rest) =>
      match BindMany(e, s, p)
      case BindError(msg) => (d, [], BindFailed(msg))
      case Bound(s') =>
        var r := RunAll(e, d, s');
        if r.err.Some? then (r.db, [], RunFailed(r.err.value)) else Reference(e, r.db, rest, p, r.rows)
  }

  /** Which statements have run when an evaluation ends. With `k` the statements before the one that
      failed: a compile error of statement k+1 leaves exactly the first k-1 run, a binding error leaves the
      first k, an error while running leaves the failing one the last, and success means all have run. */
  lemma {:induction false} WhatHasRun<D(!new), S(!new), V(!new), R(!new)>(
      e: Engine<D, S, V, R>, d: D, text: Text, cur: Option<S>, p: Params<V>)
    requires Sound(e)
    ensures var o := Pipeline(e, d, text, cur, p);
            var begun := o.compiled + (if cur.Some? then 1 else 0);
            match o.status
            case Success => |o.ran| == begun
            case CompileFailed(_) => |o.ran| == if begun == 0 then 0 else begun - 1
            case BindFailed(_) => |o.ran| == begun - 1
            case RunFailed(_) => |o.ran| > 0 && begun - 1 <= |o.ran| <= begun
    ensures var o := Pipeline(e, d, text, cur, p);
            && (cur.Some? && o.ran != [] ==> o.ran[0] == cur.value)
            && (!o.status.Success? ==> o.rows == [])
    decreases |text|
  {
    if e.prepare(d, text).Compiled? {
      var r := if cur.Some? then RunAll(e, d, cur.value) else Run(d, [], None);
      var b := BindMany(e, e.prepare(d, text).stmt, p);
      if r.err.None? && b.Bound? {
        WhatHasRun(e, r.db, e.prepare(d, text).rest, Some(b.stmt), p);
      }
    }
  }

  /** The statements of a script, compiled and bound, statement i with the database in state `ds[i]`, up to
      the first that does not compile or bind. */
  function StatementsIn<D(!new), S(!new), V(!new), R(!new)>(
      e: Engine<D, S, V, R>, ds: seq<D>, text: Text, p: Params<V>): seq<S>
    decreases |ds|
  {
    if ds == [] then []
    else match e.prepare(ds[0], text)
         case Compiled(s, rest) =>
           (match BindMany(e, s, p)
            case Bound(s') => [s'] + StatementsIn(e, ds[1..], rest, p)
            case BindError(_) => [])
         case _ => []
  }

  /** The database after some statements have run, one after the other. */
  function RunEach<D(!new), S(!new), V(!new), R(!new)>(e: Engine<D, S, V, R>, d: D, ss: seq<S>): D
    requires Sound(e)
    decreases |ss|
  {
    if ss == [] then d else RunEach(e, RunAll(e, d, ss[0]).db, ss[1..])
  }

  lemma {:induction false} RunEachAppend<D(!new), S(!new), V(!new), R(!new)>(
      e: Engine<D, S, V, R>, d: D, a: seq<S>, b: seq<S>)
    requires Sound(e)
    ensures RunEach(e, d, a + b) == RunEach(e, RunEach(e, d, a), b)
    decreases |a|
  {
    if a == [] {
      assert a + b == b;
    } else {
      RunEachAppend(e, RunAll(e, d, a[0]).db, a[1..], b);
      assert (a + b)[1..] == a[1..] + b;
    }
  }

  lemma RunCurIsRunEach<D(!new), S(!new), V(!new), R(!new)>(e: Engine<D, S, V, R>, d: D, cur: Option<S>)
    requires Sound(e)
    ensures RunCur(e, d, cur).db == RunEach(e, d, Begun(cur))
  {
    if cur.Some? {
      assert [cur.value][1..] == [];
    }
  }

  /** What has run when statement `i` of the remaining script is compiled: all of `ran` but the statement in
      front of it. */
  ghost predicate CompiledBehind<D(!new), S(!new), V(!new), R(!new)>(
      e: Engine<D, S, V, R>, d: D, ran: seq<S>, begun: nat, state: D, i: nat)
    requires Sound(e)
  {
    if i == 0 then state == d else i - 1 + begun <= |ran| && state == RunEach(e, d, ran[..i - 1 + begun])
  }

  /** The statements that run are the first ones of the script, in order, each bound; each is compiled in the
      state that all the statements before it but the last have left, and the database ends in the state
      that those that have run leave. */
  lemma {:induction false} RanInOrder<D(!new), S(!new), V(!new), R(!new)>(
      e: Engine<D, S, V, R>, d: D, text: Text, cur: Option<S>, p: Params<V>) returns (ds: seq<D>)
    requires Sound(e)
    ensures var o := Pipeline(e, d, text, cur, p);
            && o.ran <= Begun(cur) + StatementsIn(e, ds, text, p)
            && |ds| > 0
            && (forall i | 0 <= i < |ds| :: CompiledBehind(e, d, o.ran, |Begun(cur)|, ds[i], i))
            && o.db == RunEach(e, d, o.ran)
    decreases |text|
  {
    RunCurIsRunEach(e, d, cur);
    ds := [d];
    if e.prepare(d, text).Compiled? {
      PipelineMiddle(e, d, text, cur, p);
      var r := RunCur(e, d, cur);
      var b := BindMany(e, e.prepare(d, text).stmt, p);
      var rest := e.prepare(d, text).rest;
      if r.err.None? && b.Bound? {
        var later := RanInOrder(e, r.db, rest, Some(b.stmt), p);
        var ran := Pipeline(e, r.db, rest, Some(b.stmt), p).ran;
        ds := [d] + later;
        assert ds[1..] == later;
        PrefixBehind(Begun(cur), ran, [b.stmt] + StatementsIn(e, later, rest, p));
        RunEachAppend(e, d, Begun(cur), ran);
        AllCompiledLater(e, d, cur, ran, later);
      }
    }
  }

  lemma AllCompiledLater<D(!new), S(!new), V(!new), R(!new)>(
      e: Engine<D, S, V, R>, d: D, cur: Option<S>, ran: seq<S>, later: seq<D>)
    requires Sound(e)
    requires forall i | 0 <= i < |later| :: CompiledBehind(e, RunCur(e, d, cur).db, ran, 1, later[i], i)
    ensures var ds := [d] + later;
            forall i | 0 <= i < |ds| :: CompiledBehind(e, d, Begun(cur) + ran, |Begun(cur)|, ds[i], i)
  {
    var ds := [d] + later;
    forall i | 0 < i < |ds| ensures CompiledBehind(e, d, Begun(cur) + ran, |Begun(cur)|, ds[i], i) {
      CompiledLater(e, d, cur, ran, later[i - 1], i - 1);
    }
  }

  lemma CompiledLater<D(!new), S(!new), V(!new), R(!new)>(
      e: Engine<D, S, V, R>, d: D, cur: Option<S>, ran: seq<S>, state: D, i: nat)
    requires Sound(e) && CompiledBehind(e, RunCur(e, d, cur).db, ran, 1, state, i)
    ensures CompiledBehind(e, d, Begun(cur) + ran, |Begun(cur)|, state, i + 1)
  {
    RunCurIsRunEach(e, d, cur);
    RunEachAppend(e, d, Begun(cur), ran[..i]);
    assert (Begun(cur) + ran)[..i + |Begun(cur)|] == Begun(cur) + ran[..i];
    assert i == 0 ==> ran[..i] == [];
  }

  lemma PrefixBehind<S>(a: seq<S>, b: seq<S>, c: seq<S>)
    requires b <= c
    ensures a + b <= a + c
  {
    assert c == b + c[|b|..];
    assert a + c == a + b + c[|b|..];
  }

  /** Compiling never depends on what the statements before have done. */
  ghost predicate StateFree<D(!new), S(!new), V(!new), R(!new)>(e: Engine<D, S, V, R>) {
    forall d1, d2, t :: e.prepare(d1, t) == e.prepare(d2, t)
  }

  /** In this evaluation, every statement compiles ahead of the one before it to what it would compile to
      behind it. */
  ghost predicate AgreesAhead<D(!new), S(!new), V(!new), R(!new)>(
      e: Engine<D, S, V, R>, d: D, text: Text, cur: Option<S>, p: Params<V>)
    requires Sound(e)
    decreases |text|
  {
    var r := RunCur(e, d, cur);
    r.err.None? ==>
      && e.prepare(d, text) == e.prepare(r.db, text)
      && match e.prepare(d, text)
         case Compiled(s, rest) =>
           (var b := BindMany(e, s, p); b.Bound? ==> AgreesAhead(e, r.db, rest, Some(b.stmt), p))
         case _ => true
  }

  /** In this evaluation, whatever compiles ahead of the statement before it compiles to the same behind it.
      What fails to compile ahead may compile in turn. */
  ghost predicate AgreesWhereCompiled<D(!new), S(!new), V(!new), R(!new)>(
      e: Engine<D, S, V, R>, d: D, text: Text, cur: Option<S>, p: Params<V>)
    requires Sound(e)
    decreases |text|
  {
    var r := RunCur(e, d, cur);
    r.err.None? && !e.prepare(d, text).CompileError? ==>
      && e.prepare(d, text) == e.prepare(r.db, text)
      && match e.prepare(d, text)
         case Compiled(s, rest) =>
           (var b := BindMany(e, s, p); b.Bound? ==> AgreesWhereCompiled(e, r.db, rest, Some(b.stmt), p))
         case _ => true
  }

  lemma {:induction false} AgreesAheadIsEnough<D(!new), S(!new), V(!new), R(!new)>(
      e: Engine<D, S, V, R>, d: D, text: Text, cur: Option<S>, p: Params<V>)
    requires Sound(e) && AgreesAhead(e, d, text, cur, p)
    ensures AgreesWhereCompiled(e, d, text, cur, p)
    decreases |text|
  {
    var r := RunCur(e, d, cur);
    if e.prepare(d, text).Compiled? && r.err.None? {
      var b := BindMany(e, e.prepare(d, text).stmt, p);
      if b.Bound? {
        AgreesAheadIsEnough(e, r.db, e.prepare(d, text).rest, Some(b.stmt), p);
      }
    }
  }

  lemma {:induction false} StateFreeAgrees<D(!new), S(!new), V(!new), R(!new)>(
      e: Engine<D, S, V, R>, d: D, text: Text, cur: Option<S>, p: Params<V>)
    requires Sound(e) && StateFree(e)
    ensures AgreesAhead(e, d, text, cur, p)
    decreases |text|
  {
    var r := RunCur(e, d, cur);
    assert e.prepare(d, text) == e.prepare(r.db, text);
    if e.prepare(d, text).Compiled? && r.err.None? {
      var b := BindMany(e, e.prepare(d, text).stmt, p);
      if b.Bound? {
        StateFreeAgrees(e, r.db, e.prepare(d, text).rest, Some(b.stmt), p);
      }
    }
  }

  /** Looking one statement ahead skips nothing that matters: the statement in front of one that does not
      compile runs without an error and leaves the database as it is, unless an earlier error ends the
      evaluation first. */
  ghost predicate SkipsNothing<D(!new), S(!new), V(!new), R(!new)>(
      e: Engine<D, S, V, R>, d: D, text: Text, cur: Option<S>, p: Params<V>)
    requires Sound(e)
    decreases |text|
  {
    var r := RunCur(e, d, cur);
    match e.prepare(d, text)
    case CompileError(_) => r.err.None? && r.db == d
    case NothingLeft => true
    case Compiled(s, rest) =>
      r.err.Some? || (var b := BindMany(e, s, p); b.Bound? ==> SkipsNothing(e, r.db, rest, Some(b.stmt), p))
  }

  /** When what compiles ahead compiles in turn to the same: looking ahead makes no difference (same
      database, same rows, same error) when it skips nothing, and only then, unless evaluating one statement
      after the other ends in a compile error as well. With such an error too, it makes no difference only
      then when what fails to compile ahead fails in turn. */
  lemma {:induction false} PipelineIsReference<D(!new), S(!new), V(!new), R(!new)>(
      e: Engine<D, S, V, R>, d: D, text: Text, p: Params<V>)
    requires Sound(e) && AgreesWhereCompiled(e, d, text, None, p)
    ensures var o := Pipeline(e, d, text, None, p);
            var same := (o.db, o.rows, o.status) == Reference(e, d, text, p, []);
            && (SkipsNothing(e, d, text, None, p) ==> same)
            && (!Reference(e, d, text, p, []).2.CompileFailed? || AgreesAhead(e, d, text, None, p) ==>
                  (same <==> SkipsNothing(e, d, text, None, p)))
  {
    if e.prepare(d, text).Compiled? {
      var b := BindMany(e, e.prepare(d, text).stmt, p);
      if b.Bound? {
        PipelineRunsCurrent(e, d, e.prepare(d, text).rest, b.stmt, p);
      }
    }
  }

  /** Evaluating one statement after the other, when `cur` is the next one to run. */
  function ReferenceFrom<D(!new), S(!new), V(!new), R(!new)>(
      e: Engine<D, S, V, R>, d: D, text: Text, cur: S, p: Params<V>): (D, seq<R>, Status)
    requires Sound(e)
  {
    var r := RunAll(e, d, cur);
    if r.err.Some? then (r.db, [], RunFailed(r.err.value)) else Reference(e, r.db, text, p, r.rows)
  }

  lemma {:induction false} PipelineRunsCurrent<D(!new), S(!new), V(!new), R(!new)>(
      e: Engine<D, S, V, R>, d: D, text: Text, cur: S, p: Params<V>)
    requires Sound(e) && AgreesWhereCompiled(e, d, text, Some(cur), p)
    ensures var o := Pipeline(e, d, text, Some(cur), p);
            var ref := ReferenceFrom(e, d, text, cur, p);
            var same := (o.db, o.rows, o.status) == ref;
            && (SkipsNothing(e, d, text, Some(cur), p) ==> same)
            && (!ref.2.CompileFailed? || AgreesAhead(e, d, text, Some(cur), p) ==>
                  (same <==> SkipsNothing(e, d, text, Some(cur), p)))
    decreases |text|
  {
    var r := RunAll(e, d, cur);
    if e.prepare(d, text).Compiled? && r.err.None? {
      var b := BindMany(e, e.prepare(d, text).stmt, p);
      if b.Bound? {
        PipelineRunsCurrent(e, r.db, e.prepare(d, text).rest, b.stmt, p);
      }
    }
  }

  /** An evaluation that reports no compile error has skipped nothing, whatever its engine. */
  lemma {:induction false} OnlyCompileErrorsSkip<D(!new), S(!new), V(!new), R(!new)>(
      e: Engine<D, S, V, R>, d: D, text: Text, cur: Option<S>, p: Params<V>)
    requires Sound(e) && !Pipeline(e, d, text, cur, p).status.CompileFailed?
    ensures SkipsNothing(e, d, text, cur, p)
    decreases |text|
  {
    if e.prepare(d, text).Compiled? {
      PipelineMiddle(e, d, text, cur, p);
      var r := RunCur(e, d, cur);
      var b := BindMany(e, e.prepare(d, text).stmt, p);
      if r.err.None? && b.Bound? {
        OnlyCompileErrorsSkip(e, r.db, e.prepare(d, text).rest, Some(b.stmt), p);
      }
    }
  }

  /** A compile error reported for statement k+1 hides that statement k was never run, and it may be an
      error only because statement k was never run: two statements of which the second needs the table
      that the first creates succeed one after the other, but their evaluation fails with nothing run. The
      second fails to compile ahead, so the first is skipped; it compiles when the table is there before. */
  lemma LookaheadDiffers()
    ensures var e, text := TableEngine(), [0, 0];
            && Reference(e, false, text, NoParams, []) == (true, [], Success)
            && Pipeline(e, false, text, None, NoParams)
               == Outcome(false, [], CompileFailed(EngineError([1])), 1, [])
            && AgreesWhereCompiled(e, false, text, None, NoParams)
            && !SkipsNothing(e, false, text, None, NoParams)
            && !AgreesAhead(e, false, text, None, NoParams)
            && AgreesAhead(e, true, text, None, NoParams)
  {
    var e := TableEngine();
    var text: Text := [0, 0];
    assert e.prepare(false, text) == Compiled(true, [0]);
    assert e.prepare(true, [0]) == Compiled(false, []);
    assert e.prepare(true, []) == NothingLeft;
    assert RunAll(e, false, true) == Run(true, [], None);
    assert RunAll(e, true, false) == Run(true, [], None);
    LookaheadAgreesWithTable(e);
    assert Reference(e, true, [], NoParams, []) == (true, [], Success);
    assert Reference(e, true, [0], NoParams, []) == (true, [], Success);
    assert Pipeline(e, false, [0], Some(true), NoParams) == Outcome(false, [], CompileFailed(EngineError([1])), 0, []);
  }

  lemma LookaheadAgreesWithTable(e: Engine<bool, bool, int, int>)
    requires e == TableEngine()
    ensures AgreesWhereCompiled(e, false, [0, 0], None, NoParams) && !SkipsNothing(e, false, [0, 0], None, NoParams)
    ensures !AgreesAhead(e, false, [0, 0], None, NoParams)
    ensures AgreesAhead(e, true, [0, 0], None, NoParams)
  {
    var text: Text := [0, 0];
    assert text[1..] == [0] && text[1..][1..] == [];
    assert RunAll(e, true, true) == Run(true, [], None);
    assert RunAll(e, true, false) == Run(true, [], None);
    assert AgreesAhead(e, true, [], Some(false), NoParams);
    assert AgreesAhead(e, true, [0], Some(true), NoParams);
    assert RunAll(e, false, true) == Run(true, [], None);
    assert !AgreesAhead(e, false, [0], Some(true), NoParams);
    assert AgreesWhereCompiled(e, false, [0], Some(true), NoParams);
    assert !SkipsNothing(e, false, [0], Some(true), NoParams);
  }

  /** A database that is a table or no table. A script of two bytes creates it, then fills it; the filling
      compiles only when the table is there. */
  function TableEngine(): (e: Engine<bool, bool, int, int>)
    ensures Sound(e)
  {
    Engine(
      (d: bool, t: Text) => if |t| == 2 then Compiled(true, t[1..])
                            else if |t| == 1 then if d then Compiled(false, []) else CompileError(EngineError([1]))
                            else NothingLeft,
      (s: bool) => 0,
      (s: bool, name: Text) => 0,
      (s: bool, i: int, v: int) => BindError(EngineError([2])),
      (d: bool, s: bool) => Finished(true),
      (d: bool, s: bool) => 0)
  }

  // ---------- Statement handles ----------

  datatype Event = Opened(h: nat) | Used(h: nat) | Closed(h: nat)

  /** What happened to statement handles, the latest event last. */
  datatype Ledger = Start | Then(before: Ledger, event: Event)

  /** How many handles were opened. */
  function Opens(l: Ledger): nat {
    match l
    case Start => 0
    case Then(before, e) => Opens(before) + if e.Opened? then 1 else 0
  }

  /** The handles that are open. */
  function Open(l: Ledger): set<nat> {
    match l
    case Start => {}
    case Then(before, e) =>
      if e.Opened? then Open(before) + {e.h} else if e.Used? then Open(before) else Open(before) - {e.h}
  }

  /** Every handle is opened under the next number, it is used and closed while it is open, and no more
      than two are open at a time. */
  predicate Disciplined(l: Ledger) {
    match l
    case Start => true
    case Then(before, e) =>
      && Disciplined(before)
      && |Open(l)| <= 2
      && if e.Opened? then e.h == Opens(before) else e.h in Open(before)
  }

  /** The events of one handle, in order. */
  function Life(l: Ledger, h: nat): seq<Event> {
    match l
    case Start => []
    case Then(before, e) => if e.h == h then Life(before, h) + [e] else Life(before, h)
  }

  lemma {:induction false} OpenWereOpened(l: Ledger)
    requires Disciplined(l)
    ensures forall h | h in Open(l) :: h < Opens(l)
    ensures |Open(l)| <= 2
  {
    if l.Then? {
      OpenWereOpened(l.before);
    }
  }

  lemma {:induction false} UnopenedIsUnused(l: Ledger, h: nat)
    requires Disciplined(l) && h >= Opens(l)
    ensures Life(l, h) == []
  {
    if l.Then? {
      UnopenedIsUnused(l.before, h);
      OpenWereOpened(l.before);
    }
  }

  /** The life of every handle: it is opened first, only used after that, and unless it is still open it is
      closed last, once. */
  lemma {:induction false} HandleLife(l: Ledger, h: nat)
    requires Disciplined(l) && h < Opens(l)
    ensures var s := Life(l, h);
            var end := if h in Open(l) then |s| else |s| - 1;
            && 1 <= end
            && s[0] == Opened(h)
            && (forall k | 0 < k < end :: s[k] == Used(h))
            && (h !in Open(l) ==> s[end] == Closed(h))
  {
    if l.Then? {
      if h < Opens(l.before) {
        HandleLife(l.before, h);
      } else {
        UnopenedIsUnused(l.before, h);
      }
    }
  }

  // ---------- The connection ----------

  datatype Result<+R> = Evaluated(rows: seq<R>) | Panicked(err: Error)

  class Connection<D(!new, ==), S(!new), V(!new), R(!new)> {
    const engine: Engine<D, S, V, R>
    var db: D
    var closed: bool
    /** How often the engine was told to close. */
    var closes: nat
    var stmts: map<nat, S>
    var next: nat
    /** What happened to statement handles in the current evaluation, and the statements run in it. */
    ghost var events: Ledger
    ghost var ran: seq<S>

    ghost predicate Valid()
      reads this
    {
      && Sound(engine)
      && Disciplined(events)
      && stmts.Keys == Open(events)
      && next == Opens(events)
      && closes == (if closed then 1 else 0)
    }

    constructor (engine: Engine<D, S, V, R>, db: D)
      requires Sound(engine)
      ensures Valid() && !closed && stmts == map[] && this.db == db && this.engine == engine
    {
      this.engine, this.db := engine, db;
      closed, closes := false, 0;
      stmts, next := map[], 0;
      events, ran := Start, [];
    }

    /** Closing is done once; closing again does nothing. */
    method Close()
      requires Valid()
      modifies this`closed, this`closes
      ensures Valid() && closed && closes == 1
    {
      if !closed {
        closed := true;
        closes := closes + 1;
      }
    }

    method Prepare(text: Text) returns (r: Compile<S>, h: Option<nat>)
      requires Valid() && |stmts| < 2
      modifies this`stmts, this`next, this`events
      ensures Valid() && r == engine.prepare(db, text)
      ensures if r.Compiled? then h.Some? && h.value !in old(stmts) && stmts == old(stmts)[h.value := r.stmt]
              else h == None && stmts == old(stmts)
    {
      r, h := engine.prepare(db, text), None;
      if r.Compiled? {
        OpenWereOpened(events);
        assert |Open(events)| == |stmts.Keys| == |stmts|;
        CardAdd(Open(events), next);
        events := Then(events, Opened(next));
        stmts := stmts[next := r.stmt];
        h := Some(next);
        next := next + 1;
      }
    }

    lemma CardAdd(s: set<nat>, h: nat)
      ensures |s + {h}| <= |s| + 1
    {
      if h in s {
        assert s + {h} == s;
      }
    }

    method Finalize(h: nat)
      requires Valid() && h in stmts
      modifies this`stmts, this`events
      ensures Valid() && stmts == old(stmts) - {h}
    {
      OpenWereOpened(events);
      CardSub(Open(events), h);
      events := Then(events, Closed(h));
      stmts := stmts - {h};
    }

    lemma CardSub(s: set<nat>, h: nat)
      ensures |s - {h}| <= |s|
    {
      if h in s {
        assert s == (s - {h}) + {h};
      }
    }

    method Use(h: nat)
      requires Valid() && h in stmts
      modifies this`events
      ensures Valid()
    {
      OpenWereOpened(events);
      events := Then(events, Used(h));
    }

    /** Binds the parameters of a script to a statement. */
    method BindAll(h: nat, p: Params<V>) returns (err: Option<Error>)
      requires Valid() && h in stmts
      modifies this`stmts, this`events
      ensures Valid() && stmts.Keys == old(stmts).Keys
      ensures match BindMany(engine, old(stmts)[h], p)
              case Bound(s) => err == None && stmts[h] == s
              case BindError(msg) => err == Some(msg)
    {
      match p
      case NoParams =>
        err := None;
      case Indexed(values) =>
        if |values| > engine.paramCount(stmts[h]) + 1 {
          return Some(InvalidIndex);
        }
        err := BindIndexed(h, values);
      case Dictionary(slots) =>
        err := BindDictionary(h, slots);
      case Invalid =>
        err := Some(InvalidType);
    }

    /** Binds one value, which changes the statement. */
    method Bind1(h: nat, index: int, value: V) returns (err: Option<Error>)
      requires Valid() && h in stmts
      modifies this`stmts, this`events
      ensures Valid() && stmts.Keys == old(stmts).Keys
      ensures match engine.bind1(old(stmts)[h], index, value)
              case Bound(s) => err == None && stmts[h] == s
              case BindError(msg) => err == Some(msg)
    {
      Use(h);
      err := None;
      match engine.bind1(stmts[h], index, value)
      case Bound(s) => stmts := stmts[h := s];
      case BindError(msg) => err := Some(msg);
    }

    method BindIndexed(h: nat, values: seq<V>) returns (err: Option<Error>)
      requires Valid() && h in stmts
      modifies this`stmts, this`events
      ensures Valid() && stmts.Keys == old(stmts).Keys
      ensures match BindFrom(engine, old(stmts)[h], values, 0)
              case Bound(s) => err == None && stmts[h] == s
              case BindError(msg) => err == Some(msg)
    {
      ghost var keys, whole := stmts.Keys, BindFrom(engine, stmts[h], values, 0);
      var i := 0;
      while i < |values|
        invariant i <= |values| && Valid() && h in stmts && stmts.Keys == keys
        invariant BindFrom(engine, stmts[h], values, i) == whole
      {
        err := Bind1(h, i + 1, values[i]);
        if err.Some? {
          return;
        }
        i := i + 1;
      }
      err := None;
    }

    method BindDictionary(h: nat, slots: seq<(Key, V)>) returns (err: Option<Error>)
      requires Valid() && h in stmts
      modifies this`stmts, this`events
      ensures Valid() && stmts.Keys == old(stmts).Keys
      ensures match BindSlots(engine, old(stmts)[h], slots, engine.paramCount(old(stmts)[h]), 0)
              case Bound(s) => err == None && stmts[h] == s
              case BindError(msg) => err == Some(msg)
    {
      var limit := engine.paramCount(stmts[h]);
      ghost var keys, whole := stmts.Keys, BindSlots(engine, stmts[h], slots, limit, 0);
      var i := 0;
      while i < |slots|
        invariant i <= |slots| && Valid() && h in stmts && stmts.Keys == keys
        invariant BindSlots(engine, stmts[h], slots, limit, i) == whole
      {
        if !slots[i].0.NilKey? {
          var index := IndexOf(engine, stmts[h], slots[i].0);
          if index <= 0 || index > limit {
            return Some(InvalidIndex);
          }
          err := Bind1(h, index, slots[i].1);
          if err.Some? {
            return;
          }
        }
        i := i + 1;
      }
      err := None;
    }

    /** Steps a statement to its end, and collects its rows. */
    method ExecuteCollect(h: nat) returns (rows: seq<R>, err: Option<Error>)
      requires Valid() && h in stmts
      modifies this`db, this`stmts, this`events, this`ran
      ensures Valid() && stmts.Keys == old(stmts).Keys
      ensures forall k | k in stmts && k != h :: stmts[k] == old(stmts)[k]
      ensures Run(db, rows, err) == RunAll(engine, old(db), old(stmts)[h])
      ensures ran == old(ran) + [old(stmts)[h]]
    {
      ran := ran + [stmts[h]];
      rows, err := [], None;
      ghost var keys, others, whole := stmts.Keys, stmts - {h}, RunAll(engine, db, stmts[h]);
      var stepping := true;
      assert [] + whole.rows == whole.rows;
      while stepping
        invariant Valid() && h in stmts && stmts.Keys == keys && stmts - {h} == others
        invariant ran == old(ran) + [old(stmts)[h]]
        invariant if stepping then err == None && Remains(whole, rows, RunAll(engine, db, stmts[h]))
                  else whole == Run(db, rows, err)
        decreases stepping, engine.left(db, stmts[h])
      {
        ghost var rest := RunAll(engine, db, stmts[h]);
        var row, failed;
        stepping, row, failed := StepOnce(h);
        if row.Some? {
          RowCollected(whole, rows, rest, row.value, RunAll(engine, db, stmts[h]));
          rows := rows + [row.value];
        } else {
          assert rows + [] == rows;
          err := failed;
        }
      }
      assert forall k | k in stmts && k != h :: (stmts - {h})[k] == stmts[k];
    }

    ghost predicate Remains(whole: Run<D, R>, rows: seq<R>, rest: Run<D, R>) {
      whole == Run(rest.db, rows + rest.rows, rest.err)
    }

    lemma RowCollected(whole: Run<D, R>, rows: seq<R>, rest: Run<D, R>, row: R, rest': Run<D, R>)
      requires Remains(whole, rows, rest) && rest == Run(rest'.db, [row] + rest'.rows, rest'.err)
      ensures Remains(whole, rows + [row], rest')
    {
      assert rows + ([row] + rest'.rows) == rows + [row] + rest'.rows;
    }

    /** One step of a statement. */
    method StepOnce(h: nat) returns (more: bool, row: Option<R>, err: Option<Error>)
      requires Valid() && h in stmts
      modifies this`db, this`stmts, this`events
      ensures Valid() && h in stmts && stmts.Keys == old(stmts).Keys && stmts - {h} == old(stmts) - {h}
      ensures var run := RunAll(engine, old(db), old(stmts)[h]);
              if more then
                && row.Some? && err == None && engine.left(db, stmts[h]) < engine.left(old(db), old(stmts)[h])
                && var rest := RunAll(engine, db, stmts[h]);
                   run == Run(rest.db, [row.value] + rest.rows, rest.err)
              else
                row == None && run == Run(db, [], err)
    {
      Use(h);
      more, row, err := false, None, None;
      match engine.step(db, stmts[h])
      case Row(d, s, r) =>
        db := d;
        stmts := stmts[h := s];
        more, row := true, Some(r);
      case Finished(d) =>
        db := d;
      case StepError(d, msg) =>
        db := d;
        err := Some(msg);
    }

    /** Steps a statement to its end without collecting rows. */
    method Execute(h: nat) returns (err: Option<Error>)
      requires Valid() && h in stmts
      modifies this`db, this`stmts, this`events, this`ran
      ensures Valid() && stmts.Keys == old(stmts).Keys
      ensures forall k | k in stmts && k != h :: stmts[k] == old(stmts)[k]
      ensures var r := RunAll(engine, old(db), old(stmts)[h]); db == r.db && err == r.err
      ensures ran == old(ran) + [old(stmts)[h]]
    {
      ran := ran + [stmts[h]];
      err := None;
      ghost var keys, others, whole := stmts.Keys, stmts - {h}, RunAll(engine, db, stmts[h]);
      var stepping := true;
      while stepping
        invariant Valid() && h in stmts && stmts.Keys == keys && stmts - {h} == others
        invariant ran == old(ran) + [old(stmts)[h]]
        invariant if stepping
                  then err == None && (var rest := RunAll(engine, db, stmts[h]);
                                       whole.db == rest.db && whole.err == rest.err)
                  else whole.db == db && whole.err == err
        decreases stepping, engine.left(db, stmts[h])
      {
        var row, failed;
        stepping, row, failed := StepOnce(h);
        if !stepping {
          err := failed;
        }
      }
      assert forall k | k in stmts && k != h :: (stmts - {h})[k] == stmts[k];
    }

    /** Evaluates a script. Every statement handle it opens is finalized exactly once (see `HandleLife`),
        whatever the exit. */
    method Eval(query: Text, p: Params<V>) returns (r: Result<R>)
      requires Valid() && stmts == map[]
      modifies this`db, this`stmts, this`next, this`events, this`ran
      ensures Valid() && stmts == map[] && Open(events) == {}
      ensures if closed then r == Panicked(DatabaseClosed) && db == old(db) && ran == []
              else if 0 in query then r == Panicked(EmbeddedNul) && db == old(db) && ran == []
              else
                var o := Pipeline(engine, old(db), query, None, p);
                && db == o.db && ran == o.ran
                && r == if o.status.Success? then Evaluated(o.rows) else Panicked(o.status.err)
    {
      events, next, ran := Start, 0, [];
      if closed {
        return Panicked(DatabaseClosed);
      }
      if 0 in query {
        return Panicked(EmbeddedNul);
      }
      assert stmts.Keys == {};
      r := EvalAll(query, p);
      assert stmts.Keys == {};
      assert [] + Pipeline(engine, old(db), query, None, p).ran == Pipeline(engine, old(db), query, None, p).ran;
    }

    /** The loop over the statements of a script. */
    method EvalAll(query: Text, p: Params<V>) returns (r: Result<R>)
      requires Valid() && Holds(None)
      modifies this`db, this`stmts, this`next, this`events, this`ran
      ensures Valid() && Holds(None) && Ended(Pipeline(engine, old(db), query, None, p), old(ran), r)
    {
      ghost var whole, before := Pipeline(engine, db, query, None, p), ran;
      var stmt: Option<nat>, c, going := None, query, true;
      r := Evaluated([]);
      while going
        invariant Valid() && Holds(stmt)
        invariant if going then Continues(whole, before, stmt, c, p) else stmt == None && Ended(whole, before, r)
        decreases going, |c|
      {
        ghost var ran0, o := ran, Pipeline(engine, db, c, Current(stmt), p);
        stmt, c, going, r := Turn(stmt, c, p);
        Chain(whole, before, o, ran0);
      }
    }

    lemma Chain(whole: Outcome<D, S, R>, before: seq<S>, o: Outcome<D, S, R>, ran0: seq<S>)
      requires (whole.db, whole.rows, whole.status) == (o.db, o.rows, o.status) && ran0 + o.ran == before + whole.ran
      ensures forall r :: Ended(o, ran0, r) ==> Ended(whole, before, r)
      ensures forall stmt, c, p :: Continues(o, ran0, stmt, c, p) ==> Continues(whole, before, stmt, c, p)
    {
    }

    ghost function Current(stmt: Option<nat>): Option<S>
      requires stmt.Some? ==> stmt.value in stmts
      reads this
    {
      if stmt.Some? then Some(stmts[stmt.value]) else None
    }

    ghost predicate Holds(stmt: Option<nat>)
      reads this
    {
      stmts.Keys == if stmt.Some? then {stmt.value} else {}
    }

    /** The evaluation has ended as `o` says, of which the statements in `before` are not part. */
    ghost predicate Ended(o: Outcome<D, S, R>, before: seq<S>, r: Result<R>)
      reads this
    {
      && db == o.db && ran == before + o.ran
      && r == if o.status.Success? then Evaluated(o.rows) else Panicked(o.status.err)
    }

    /** What is still to be evaluated leads to the same end. */
    ghost predicate Continues(o: Outcome<D, S, R>, before: seq<S>, stmt: Option<nat>, c: Text, p: Params<V>)
      reads this
    {
      && Sound(engine) && (stmt.Some? ==> stmt.value in stmts)
      && var rest := Pipeline(engine, db, c, Current(stmt), p);
         && (rest.db, rest.rows, rest.status) == (o.db, o.rows, o.status)
         && ran + rest.ran == before + o.ran
    }

    /** One turn of the loop: the next statement is compiled, the current one is run, the next one is bound,
        and the two are rotated. */
    method Turn(stmt0: Option<nat>, c0: Text, p: Params<V>)
      returns (stmt: Option<nat>, c: Text, going: bool, r: Result<R>)
      requires Valid() && Holds(stmt0)
      modifies this`db, this`stmts, this`next, this`events, this`ran
      ensures Valid() && Holds(stmt)
      ensures var o := Pipeline(engine, old(db), c0, old(Current(stmt0)), p);
              if going then |c| < |c0| && Continues(o, old(ran), stmt, c, p)
              else stmt == None && Ended(o, old(ran), r)
    {
      var compiled, next' := Prepare(c0);
      assert Current(stmt0) == old(Current(stmt0));
      if compiled.CompileError? {
        r := ErrorTurn(stmt0, c0, p, compiled.msg);
        stmt, c, going := None, c0, false;
      } else if next'.None? {
        r := LastTurn(stmt0, c0, p);
        stmt, c, going := None, c0, false;
      } else {
        stmt, r := MiddleTurn(stmt0, c0, next'.value, p);
        c, going := compiled.rest, stmt.Some?;
      }
    }

    /** The next statement does not compile: the current one is finalized without being run. */
    method ErrorTurn(stmt: Option<nat>, ghost c0: Text, ghost p: Params<V>, err: Error) returns (r: Result<R>)
      requires Valid() && Holds(stmt) && engine.prepare(db, c0) == CompileError(err)
      modifies this`stmts, this`events
      ensures Valid() && Holds(None)
      ensures Ended(Pipeline(engine, old(db), c0, old(Current(stmt)), p), old(ran), r)
    {
      assert ran + [] == ran;
      Release(stmt);
      r := Panicked(err);
    }

    /** No statement is left to compile: the current one is run, and its rows are the result. */
    method LastTurn(stmt: Option<nat>, ghost c0: Text, ghost p: Params<V>) returns (r: Result<R>)
      requires Valid() && Holds(stmt) && engine.prepare(db, c0).NothingLeft?
      modifies this`db, this`stmts, this`events, this`ran
      ensures Valid() && Holds(None)
      ensures Ended(Pipeline(engine, old(db), c0, old(Current(stmt)), p), old(ran), r)
    {
      assert ran + [] == ran;
      var rows, err := RunCurrent(stmt, true);
      Release(stmt);
      r := if err.Some? then Panicked(err.value) else Evaluated(rows);
    }

    /** A further statement was compiled: the current one is run, and the further one is bound and becomes
        the current one. */
    method MiddleTurn(stmt: Option<nat>, ghost c0: Text, next': nat, p: Params<V>) returns (now: Option<nat>, r: Result<R>)
      requires Valid() && next' in stmts && (stmt.Some? ==> stmt.value in stmts && stmt.value != next')
      requires stmts.Keys == {next'} + if stmt.Some? then {stmt.value} else {}
      requires engine.prepare(db, c0).Compiled? && engine.prepare(db, c0).stmt == stmts[next']
      modifies this`db, this`stmts, this`events, this`ran
      ensures Valid() && Holds(now)
      ensures var o := Pipeline(engine, old(db), c0, old(Current(stmt)), p);
              if now.Some? then Continues(o, old(ran), now, engine.prepare(old(db), c0).rest, p)
              else Ended(o, old(ran), r)
    {
      ghost var cur, before, rest := Current(stmt), ran, engine.prepare(db, c0).rest;
      PipelineMiddle(engine, db, c0, cur, p);
      now, r := RunAndBind(stmt, next', p);
      if now.Some? {
        ghost var o' := Pipeline(engine, db, rest, Some(stmts[next']), p);
        Join(before, Begun(cur), o'.ran);
      } else {
        Join(before, Begun(cur), []);
      }
    }

    lemma Join(a: seq<S>, b: seq<S>, c: seq<S>)
      ensures a + (b + c) == a + b + c && b + [] == b
    {
    }

    method RunAndBind(stmt: Option<nat>, next': nat, p: Params<V>) returns (now: Option<nat>, r: Result<R>)
      requires Valid() && next' in stmts && (stmt.Some? ==> stmt.value in stmts && stmt.value != next')
      requires stmts.Keys == {next'} + if stmt.Some? then {stmt.value} else {}
      modifies this`db, this`stmts, this`events, this`ran
      ensures Valid() && Holds(now) && ran == old(ran) + Begun(old(Current(stmt)))
      ensures var run := RunCur(engine, old(db), old(Current(stmt)));
              var bind := BindMany(engine, old(stmts)[next'], p);
              && db == run.db
              && if run.err.Some? then now == None && r == Panicked(run.err.value)
                 else if bind.BindError? then now == None && r == Panicked(bind.msg)
                 else now == Some(next') && stmts[next'] == bind.stmt
    {
      ghost var s := stmts[next'];
      var rows, err := RunCurrent(stmt, false);
      assert stmts[next'] == s;
      assert stmts.Keys == {next'} + if stmt.Some? then {stmt.value} else {};
      if err.None? {
        now, r := BindAndRotate(stmt, next', p);
      } else {
        now, r := Rotate(stmt, next', err);
      }
    }

    method BindAndRotate(stmt: Option<nat>, next': nat, p: Params<V>) returns (now: Option<nat>, r: Result<R>)
      requires Valid() && next' in stmts && (stmt.Some? ==> stmt.value in stmts && stmt.value != next')
      requires stmts.Keys == {next'} + if stmt.Some? then {stmt.value} else {}
      modifies this`stmts, this`events
      ensures Valid() && Holds(now)
      ensures var bind := BindMany(engine, old(stmts)[next'], p);
              if bind.BindError? then now == None && r == Panicked(bind.msg)
              else now == Some(next') && stmts[next'] == bind.stmt
    {
      var err := BindAll(next', p);
      assert stmts.Keys == {next'} + if stmt.Some? then {stmt.value} else {};
      now, r := Rotate(stmt, next', err);
    }

    /** The end of a turn: the current statement is finalized and the further one takes its place, unless
        an error ends the evaluation and finalizes both. */
    method Rotate(stmt: Option<nat>, next': nat, err: Option<Error>) returns (now: Option<nat>, r: Result<R>)
      requires Valid() && next' in stmts && (stmt.Some? ==> stmt.value in stmts && stmt.value != next')
      requires stmts.Keys == {next'} + if stmt.Some? then {stmt.value} else {}
      modifies this`stmts, this`events
      ensures Valid() && Holds(now)
      ensures if err.Some? then now == None && r == Panicked(err.value)
              else now == Some(next') && stmts[next'] == old(stmts)[next']
    {
      Release(stmt);
      assert stmts.Keys == {next'};
      now, r := Some(next'), Evaluated([]);
      if err.Some? {
        Release(Some(next'));
        now, r := None, Panicked(err.value);
      }
    }

    /** Runs the current statement, if there is one; only the last one's rows are collected. */
    method RunCurrent(stmt: Option<nat>, last: bool) returns (rows: seq<R>, err: Option<Error>)
      requires Valid() && (stmt.Some? ==> stmt.value in stmts)
      modifies this`db, this`stmts, this`events, this`ran
      ensures Valid() && stmts.Keys == old(stmts).Keys
      ensures forall k | k in stmts && stmt != Some(k) :: stmts[k] == old(stmts)[k]
      ensures var run := RunCur(engine, old(db), old(Current(stmt)));
              && db == run.db && err == run.err && ran == old(ran) + Begun(old(Current(stmt)))
              && (last ==> rows == run.rows)
    {
      assert ran + [] == ran;
      rows, err := [], None;
      if stmt.Some? {
        if last {
          rows, err := ExecuteCollect(stmt.value);
        } else {
          err := Execute(stmt.value);
        }
      }
    }

    method Release(stmt: Option<nat>)
      requires Valid() && (stmt.Some? ==> stmt.value in stmts)
      modifies this`stmts, this`events
      ensures Valid() && stmts == if stmt.Some? then old(stmts) - {stmt.value} else old(stmts)
    {
      if stmt.Some? {
        Finalize(stmt.value);
      }
    }
  }
}

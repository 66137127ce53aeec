/**
 Resuming waiting executions from several processes at once.

 The shared database holds one row per execution; every process has its own registry of active
 executions. Timers, webhooks and finishing children start resume attempts at any time and in any
 number. An attempt advances by one event per stretch between two awaits of the original, and the
 only thing that keeps two attempts apart is the conditional update in `Commit`.
 */
module ResumeProtocol {
  import opened Wrappers
  import opened R = ExecutionRegistry
  import opened RegistryLaws

  type Data = string
  datatype StackItem = StackItem(node: string, data: Data)

  /** `nodeExecutionStack`, with the epoch in which a running execution wrote it. Copies keep the
      stamp, so it tells how old data are wherever they travel. */
  datatype Stack = Stack(items: seq<StackItem>, stamp: nat)

  /** A child's output as the data of the first item. */
  function WithHead(stack: Stack, d: Data): Stack
    requires stack.items != []
  {
    stack.(items := stack.items[0 := stack.items[0].(data := d)])
  }

  /** `epoch` counts how often the row has entered status 'waiting'. */
  datatype Row = Row(status: Status, finished: bool, stack: Stack, epoch: nat)

  datatype Cause = Fresh | Timer | Child(output: Option<Data>)

  datatype Stage =
    | Updating                                // a finished child is about to read its parent
    | Writing(stack: Stack, readIn: nat)      // ... and holds the new stack it will write back
    | Loading
    | Loaded(stack: Stack)
    | Reserving(stack: Stack, r: nat)         // throttled
    | Reserved(stack: Stack, r: nat)
    | Committed(stack: Stack, r: nat)         // the database row is 'running'
    | Entered(k: nat)                         // the record is in the registry
    | Lost(r: nat)                            // ExecutionAlreadyResumingError
    | Failed

  datatype Attempt = Attempt(
    proc: nat,
    id: ExecutionId,
    cause: Cause,
    stage: Stage,
    wroteIn: Option<nat>,      // epoch in which its own update of the parent was stored
    loadedIn: Option<nat>)     // epoch whose waiting row it loaded

  datatype Win = Win(attempt: nat, id: ExecutionId, epoch: nat, stack: Stack)

  datatype State = State(
    db: map<ExecutionId, Row>,
    procs: seq<Registry>,
    attempts: seq<Attempt>,
    wins: seq<Win>,                              // history: successful conditional updates
    bases: map<(ExecutionId, nat), Stack>)       // history: the stack each epoch began with

  datatype Step =
    | Spawn(p: nat, id: ExecutionId, cause: Cause, items: seq<StackItem>)
    | ReadParent(a: nat)
    | WriteParent(a: nat)
    | Load(a: nat)
    | Begin(a: nat)
    | Throttle(a: nat)
    | Abort(a: nat)
    | Commit(a: nat)
    | Enter(a: nat, now: int)
    | Persist(id: ExecutionId, status: Status, finished: bool, items: seq<StackItem>)
    | Here(p: nat, e: Event)

  // ---------------------------------------------------------------- well-formedness

  function Ticket(att: Attempt): Option<nat> {
    match att.stage
    case Reserving(_, r) => Some(r)
    case Reserved(_, r) => Some(r)
    case Committed(_, r) => Some(r)
    case _ => None
  }

  /** What the stage of an attempt says about its process. */
  predicate Fits(att: Attempt, reg: Registry) {
    match att.stage
    case Reserving(_, r) => r < |reg.reservations| && reg.reservations[r] == Idle && Unowned(reg, r)
    case Reserved(_, r) => r < |reg.reservations| && reg.reservations[r] == Held && Unowned(reg, r)
    case Committed(_, r) => r < |reg.reservations| && reg.reservations[r] == Held && Unowned(reg, r)
    case Lost(r) => r < |reg.reservations| && reg.reservations[r] == Released
    case Entered(k) => k < |reg.records| && reg.records[k].id == att.id
    case _ => true
  }

  predicate TicketsDiffer(s: State) {
    forall a, b | 0 <= a < b < |s.attempts| && s.attempts[a].proc == s.attempts[b].proc
        && Ticket(s.attempts[a]).Some? ::
      Ticket(s.attempts[a]) != Ticket(s.attempts[b])
  }

  predicate Loads(stage: Stage) {
    !stage.Updating? && !stage.Writing? && !stage.Loading? && !stage.Failed?
  }

  predicate Valid(s: State) {
    && (forall p :: 0 <= p < |s.procs| ==> Inv(s.procs[p]))
    && (forall a :: 0 <= a < |s.attempts| ==>
          && s.attempts[a].proc < |s.procs|
          && Fits(s.attempts[a], s.procs[s.attempts[a].proc])
          && (s.attempts[a].cause.Fresh? || Loads(s.attempts[a].stage) ==> s.attempts[a].id in s.db))
    && TicketsDiffer(s)
  }

  predicate Enabled(s: State, e: Step) {
    match e
    case Spawn(p, id, cause, _) => p < |s.procs| && (cause.Fresh? ==> id !in s.db)
    case ReadParent(a) => a < |s.attempts| && s.attempts[a].stage.Updating? && s.attempts[a].cause.Child?
    case WriteParent(a) => a < |s.attempts| && s.attempts[a].stage.Writing?
    case Load(a) => a < |s.attempts| && s.attempts[a].stage.Loading?
    case Begin(a) => a < |s.attempts| && s.attempts[a].stage.Loaded?
    case Throttle(a) => a < |s.attempts| && s.attempts[a].stage.Reserving?
    case Abort(a) => a < |s.attempts| && (s.attempts[a].stage.Reserving? || s.attempts[a].stage.Reserved?)
    case Commit(a) => a < |s.attempts| && s.attempts[a].stage.Reserved?
    case Enter(a, _) => a < |s.attempts| && s.attempts[a].stage.Committed?
    case Persist(id, _, _, _) => id in s.db
    case Here(p, e) => p < |s.procs| && (Local(e) || e.Finally?) && R.Enabled(s.procs[p], e)
  }

  // ---------------------------------------------------------------- the steps

  /** Attempt `a` becomes `att` while its process takes the registry step `e`. */
  function Advance(s: State, a: nat, att: Attempt, e: Option<Event>): State
    requires a < |s.attempts| && s.attempts[a].proc < |s.procs|
    requires e.Some? ==>
      R.Valid(s.procs[s.attempts[a].proc]) && R.Enabled(s.procs[s.attempts[a].proc], e.value)
  {
    var p := s.attempts[a].proc;
    s.(attempts := s.attempts[a := att],
       procs := if e.None? then s.procs else s.procs[p := Next(s.procs[p], e.value)])
  }

  /** `updateParentExecutionWithChildResults`, up to its read. */
  function AfterReading(s: State, att: Attempt): Stage
    requires att.cause.Child?
  {
    if att.cause.output.None? then Loading
    else if att.id !in s.db || s.db[att.id].status != Waiting || s.db[att.id].stack.items == [] then Loading
    else
      var row := s.db[att.id];
      Writing(WithHead(row.stack, att.cause.output.value), row.epoch)
  }

  function Spawned(p: nat, id: ExecutionId, cause: Cause, items: seq<StackItem>): (att: Attempt)
    ensures Ticket(att).None? && att.proc == p && att.id == id && att.cause == cause
  {
    Attempt(p, id, cause,
            match cause case Fresh => Loaded(Stack(items, 0)) case Timer => Loading case Child(_) => Updating,
            None, None)
  }

  /** A fresh execution also gets its row here (`createNewExecution`). */
  function StepSpawn(s: State, p: nat, id: ExecutionId, cause: Cause, items: seq<StackItem>): State {
    s.(db := if cause.Fresh? then s.db[id := Row(New, false, Stack(items, 0), 0)] else s.db,
       attempts := s.attempts + [Spawned(p, id, cause, items)])
  }

  function StepWriteParent(s: State, a: nat): State
    requires Valid(s) && Enabled(s, WriteParent(a))
  {
    var att := s.attempts[a];
    if att.id !in s.db then Advance(s, a, att.(stage := Loading), None)
    else
      var row := s.db[att.id];
      Advance(s, a, att.(stage := Loading, wroteIn := Some(row.epoch)), None)
        .(db := s.db[att.id := row.(stack := att.stage.stack)])
  }

  function StepLoad(s: State, a: nat): State
    requires Valid(s) && Enabled(s, Load(a))
  {
    var att := s.attempts[a];
    if att.id !in s.db || s.db[att.id].finished then Advance(s, a, att.(stage := Failed), None)
    else
      var row := s.db[att.id];
      Advance(s, a, att.(stage := Loaded(row.stack),
                         loadedIn := if row.status == Waiting then Some(row.epoch) else None), None)
  }

  /** The steps inside `add` other than the database one: where they take the attempt ... */
  function InAdd(s: State, e: Step): Attempt
    requires Valid(s) && Enabled(s, e) && (e.Begin? || e.Throttle? || e.Abort? || e.Enter?)
  {
    var att := s.attempts[e.a];
    match e
    case Begin(_) => att.(stage := Reserving(att.stage.stack, |s.procs[att.proc].reservations|))
    case Throttle(_) => att.(stage := Reserved(att.stage.stack, att.stage.r))
    case Abort(_) => att.(stage := Failed)
    case Enter(_, _) => att.(stage := Entered(|s.procs[att.proc].records|))
  }

  /** ... and what they do to the registry of its process. */
  function InRegistry(s: State, e: Step): (h: Event)
    requires Valid(s) && Enabled(s, e) && (e.Begin? || e.Throttle? || e.Abort? || e.Enter?)
    ensures R.Enabled(s.procs[s.attempts[e.a].proc], h)
  {
    var att := s.attempts[e.a];
    match e
    case Begin(_) => OpenReservation
    case Throttle(_) => Acquire(att.stage.r)
    case Abort(_) => Abandon(att.stage.r)
    case Enter(_, now) => Register(att.id, att.stage.r, now)
  }

  predicate Wins(s: State, a: nat)
    requires a < |s.attempts|
  {
    s.attempts[a].id in s.db && s.db[s.attempts[a].id].status == Waiting
  }

  /** A fresh execution is set running unconditionally; a resume is stored "only if waiting". */
  function StepCommit(s: State, a: nat): State
    requires Valid(s) && Enabled(s, Commit(a))
  {
    var att := s.attempts[a];
    if att.cause.Fresh? then
      Advance(s, a, att.(stage := Committed(att.stage.stack, att.stage.r)), None)
        .(db := s.db[att.id := s.db[att.id].(status := Running)])
    else if Wins(s, a) then
      var row := s.db[att.id];
      Advance(s, a, att.(stage := Committed(att.stage.stack, att.stage.r)), None)
        .(db := s.db[att.id := row.(status := Running, stack := att.stage.stack)],
          wins := s.wins + [Win(a, att.id, row.epoch, att.stage.stack)])
    else
      Advance(s, a, att.(stage := Lost(att.stage.r)), Some(Abandon(att.stage.r)))
  }

  /** A whole-row write by a running execution, a stop or a crash recovery, from any process. */
  function StepPersist(s: State, id: ExecutionId, status: Status, finished: bool, items: seq<StackItem>): State
    requires id in s.db
  {
    var epoch := s.db[id].epoch + if status == Waiting then 1 else 0;
    s.(db := s.db[id := Row(status, finished, Stack(items, epoch), epoch)],
       bases := if status == Waiting then s.bases[(id, epoch) := Stack(items, epoch)] else s.bases)
  }

  function Apply(s: State, e: Step): State
    requires Valid(s) && Enabled(s, e)
  {
    match e
    case Spawn(p, id, cause, items) => StepSpawn(s, p, id, cause, items)
    case ReadParent(a) => Advance(s, a, s.attempts[a].(stage := AfterReading(s, s.attempts[a])), None)
    case WriteParent(a) => StepWriteParent(s, a)
    case Load(a) => StepLoad(s, a)
    case Begin(a) => Advance(s, a, InAdd(s, e), Some(InRegistry(s, e)))
    case Throttle(a) => Advance(s, a, InAdd(s, e), Some(InRegistry(s, e)))
    case Abort(a) => Advance(s, a, InAdd(s, e), Some(InRegistry(s, e)))
    case Commit(a) => StepCommit(s, a)
    case Enter(a, now) => Advance(s, a, InAdd(s, e), Some(InRegistry(s, e)))
    case Persist(id, status, finished, items) => StepPersist(s, id, status, finished, items)
    case Here(p, e) => s.(procs := s.procs[p := Next(s.procs[p], e)])
  }

  // ---------------------------------------------------------------- tickets

  /** The reservation a registry step works on. */
  function Touches(e: Event): Option<nat> {
    match e
    case Acquire(r) => Some(r)
    case Abandon(r) => Some(r)
    case Register(_, r, _) => Some(r)
    case _ => None
  }

  lemma RegisterStillFits(reg: Registry, id: ExecutionId, r: nat, now: int, att: Attempt)
    requires Inv(reg) && R.Enabled(reg, Register(id, r, now)) && Fits(att, reg) && Ticket(att) != Some(r)
    ensures Fits(att, Next(reg, Register(id, r, now)))
  {
    var t := Next(reg, Register(id, r, now));
    assert t.records == reg.records + [t.records[|reg.records|]];
  }

  lemma FinallyStillFits(reg: Registry, k: nat, att: Attempt)
    requires Inv(reg) && R.Enabled(reg, Finally(k)) && Fits(att, reg)
    ensures Fits(att, Next(reg, Finally(k)))
  {
    var t := Next(reg, Finally(k));
    assert t.records == reg.records[k := reg.records[k].(finallyRan := true)];
  }

  lemma LocalStillFits(reg: Registry, e: Event, att: Attempt)
    requires Inv(reg) && R.Enabled(reg, e) && Local(e) && Fits(att, reg)
    ensures Fits(att, Next(reg, e))
  {
    LocalStepsHold(reg, e);
  }

  lemma OthersStillFit(reg: Registry, e: Event, att: Attempt)
    requires Inv(reg) && R.Enabled(reg, e) && Fits(att, reg)
    requires Ticket(att).Some? ==> Ticket(att) != Touches(e)
    ensures Fits(att, Next(reg, e))
  {
    match e
    case Register(id, r, now) => RegisterStillFits(reg, id, r, now, att);
    case Finally(k) => FinallyStillFits(reg, k, att);
    case _ => if Local(e) { LocalStillFits(reg, e, att); }
  }

  lemma AdvanceKeepsValid(s: State, a: nat, att: Attempt, e: Option<Event>)
    requires Valid(s) && a < |s.attempts|
    requires att.proc == s.attempts[a].proc && att.id == s.attempts[a].id && att.cause == s.attempts[a].cause
    requires Loads(att.stage) ==> att.id in s.db
    requires e.Some? ==> R.Enabled(s.procs[att.proc], e.value)
    requires e.Some? && Touches(e.value).Some? ==> Touches(e.value) == Ticket(s.attempts[a])
    requires Ticket(att).Some? ==>
      Ticket(att) == Ticket(s.attempts[a]) || Ticket(att).value == |s.procs[att.proc].reservations|
    requires Fits(att, if e.None? then s.procs[att.proc] else Next(s.procs[att.proc], e.value))
    ensures Valid(Advance(s, a, att, e))
  {
    var p, t := att.proc, Advance(s, a, att, e);
    if e.Some? { StepKeepsInv(s.procs[p], e.value); }
    forall b | 0 <= b < |s.attempts| && b != a
      ensures Fits(t.attempts[b], t.procs[t.attempts[b].proc])
      ensures t.attempts[b].proc == p && Ticket(att).Some? ==> Ticket(t.attempts[b]) != Ticket(att)
    {
      assert t.attempts[b] == s.attempts[b];
      if s.attempts[b].proc == p && e.Some? {
        OthersStillFit(s.procs[p], e.value, s.attempts[b]);
      }
    }
  }

  lemma SpawnKeepsValid(s: State, e: Step)
    requires Valid(s) && Enabled(s, e) && e.Spawn?
    ensures Valid(Apply(s, e))
  {
    var t := Apply(s, e);
    assert t.attempts[..|s.attempts|] == s.attempts;
    forall a | 0 <= a < |t.attempts| ensures Fits(t.attempts[a], t.procs[t.attempts[a].proc]) {
      if a < |s.attempts| { assert t.attempts[a] == s.attempts[a]; }
    }
  }

  lemma HereKeepsValid(s: State, p: nat, e: Event)
    requires Valid(s) && Enabled(s, Here(p, e))
    ensures Valid(Apply(s, Here(p, e)))
  {
    StepKeepsInv(s.procs[p], e);
    forall a | 0 <= a < |s.attempts| && s.attempts[a].proc == p ensures Fits(s.attempts[a], Next(s.procs[p], e)) {
      OthersStillFit(s.procs[p], e, s.attempts[a]);
    }
  }

  lemma CommitKeepsValid(s: State, a: nat)
    requires Valid(s) && Enabled(s, Commit(a))
    ensures Valid(Apply(s, Commit(a)))
  {
    var att := s.attempts[a];
    if att.cause.Fresh? || Wins(s, a) {
      AdvanceKeepsValid(s, a, att.(stage := Committed(att.stage.stack, att.stage.r)), None);
    } else {
      AdvanceKeepsValid(s, a, att.(stage := Lost(att.stage.r)), Some(Abandon(att.stage.r)));
    }
  }

  lemma InAddKeepsValid(s: State, e: Step)
    requires Valid(s) && Enabled(s, e) && (e.Begin? || e.Throttle? || e.Abort? || e.Enter?)
    ensures Valid(Advance(s, e.a, InAdd(s, e), Some(InRegistry(s, e))))
  {
    AdvanceKeepsValid(s, e.a, InAdd(s, e), Some(InRegistry(s, e)));
  }

  lemma MoveKeepsValid(s: State, e: Step)
    requires Valid(s) && Enabled(s, e) && (e.ReadParent? || e.WriteParent? || e.Load?)
    ensures Valid(Apply(s, e))
  {
    AdvanceKeepsValid(s, e.a, Apply(s, e).attempts[e.a], None);
  }

  lemma StepKeepsValid(s: State, e: Step)
    requires Valid(s) && Enabled(s, e)
    ensures Valid(Apply(s, e))
  {
    match e
    case Spawn(_, _, _, _) => SpawnKeepsValid(s, e);
    case Commit(a) => CommitKeepsValid(s, a);
    case Persist(_, _, _, _) =>
    case Here(p, h) => HereKeepsValid(s, p, h);
    case _ =>
      if e.ReadParent? || e.WriteParent? || e.Load? { MoveKeepsValid(s, e); } else { InAddKeepsValid(s, e); }
  }

  function Do(s: State, e: Step): (t: State)
    requires Valid(s) && Enabled(s, e)
    ensures Valid(t)
  {
    StepKeepsValid(s, e);
    Apply(s, e)
  }

  // ---------------------------------------------------------------- runs

  /** Processes start with empty registries; the database may hold any rows, waiting ones included. */
  predicate Initial(s: State) {
    && s.attempts == [] && s.wins == []
    && (forall p :: 0 <= p < |s.procs| ==> s.procs[p] == EMPTY)
    && (forall id :: id in s.db && s.db[id].status == Waiting ==>
          (id, s.db[id].epoch) in s.bases && s.bases[(id, s.db[id].epoch)] == s.db[id].stack)
    && (forall key :: key in s.bases ==>
          key.0 in s.db && key.1 <= s.db[key.0].epoch && s.bases[key].stamp == key.1)
    && (forall id :: id in s.db ==> s.db[id].stack.stamp <= s.db[id].epoch)
  }

  predicate IsRun(s: State, es: seq<Step>)
    requires Valid(s)
    decreases |es|
  {
    es == [] || (Enabled(s, es[0]) && IsRun(Do(s, es[0]), es[1..]))
  }

  function After(s: State, es: seq<Step>): (t: State)
    requires Valid(s) && IsRun(s, es)
    ensures Valid(t)
    decreases |es|
  {
    if es == [] then s else After(Do(s, es[0]), es[1..])
  }

  lemma InitialIsValid(s: State)
    requires Initial(s)
    ensures Valid(s)
  {
    forall p | 0 <= p < |s.procs| ensures Inv(s.procs[p]) {
      assert s.procs[p].reservations == [];
    }
  }

  lemma Cons(s: State, e: Step, t: State, es: seq<Step>)
    requires Valid(s) && Valid(t)
    ensures Enabled(s, e) && t == Do(s, e) && IsRun(t, es) ==> IsRun(s, [e] + es) && After(s, [e] + es) == After(t, es)
  {
    assert ([e] + es)[1..] == es;
  }

  predicate InTwo(s: State, a: seq<Step>, t: State, b: seq<Step>)
    requires Valid(s) && Valid(t) && IsRun(t, b)
  {
    IsRun(s, a + b) && After(s, a + b) == After(t, b)
  }

  lemma Prepend(s: State, e: Step, next: State, a: seq<Step>, t: State, b: seq<Step>)
    requires Valid(s) && Valid(next) && Valid(t) && IsRun(t, b) && InTwo(next, a, t, b)
    ensures Enabled(s, e) && next == Do(s, e) ==> InTwo(s, [e] + a, t, b)
  {
    assert [e] + (a + b) == ([e] + a) + b;
    Cons(s, e, next, a + b);
  }

  /** A run of two parts, the first of which ends in `t`. */
  lemma {:induction false} Concat(s: State, a: seq<Step>, t: State, b: seq<Step>)
    requires Valid(s) && Valid(t) && IsRun(t, b)
    ensures IsRun(s, a) && After(s, a) == t ==> InTwo(s, a, t, b)
    decreases |a|
  {
    if a == [] {
      assert a + b == b;
    } else if Enabled(s, a[0]) {
      Concat(Do(s, a[0]), a[1..], t, b);
      if IsRun(s, a) && After(s, a) == t {
        Prepend(s, a[0], Do(s, a[0]), a[1..], t, b);
        assert a == [a[0]] + a[1..];
      }
    }
  }
}

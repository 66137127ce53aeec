/**
 The in-process registry of active executions: `ActiveExecutions` as a value.

 A `Record` is one `IExecutingWorkflowData` object. Records, capacity reservations and response
 promises live in append-only heaps and are named by their index, so two closures that hold "the
 same object" hold the same index. Each event below is one stretch of code that JavaScript runs
 without an `await`.
 */
module ExecutionRegistry {
  import opened Wrappers

  type ExecutionId = string

  datatype Status = New | Running | Waiting | Success | Error | Canceled | Crashed

  /** A `ConcurrencyCapacityReservation`: never acquired, acquired, or given back. */
  datatype Reservation = Idle | Held | Released

  datatype Record = Record(
    id: ExecutionId,
    status: Status,
    startedAt: int,
    settled: bool,           // postExecutePromise has been resolved or rejected
    finallyRan: bool,        // the `finally` callback of that promise has run
    reservation: nat,        // captured by the `finally` callback
    response: Option<nat>)   // responsePromise, if any

  datatype Registry = Registry(
    active: map<ExecutionId, nat>,
    records: seq<Record>,
    reservations: seq<Reservation>,
    reserved: nat,           // calls of reserve() that went through
    released: nat,           // calls of release() that gave capacity back
    answered: set<nat>)      // response promises already resolved or rejected

  const EMPTY := Registry(map[], [], [], 0, 0, {})

  datatype Event =
    | OpenReservation
    | Acquire(r: nat)
    | Abandon(r: nat)
    | Register(id: ExecutionId, r: nat, now: int)
    | AttachResponse(id: ExecutionId, promise: nat)
    | ResolveResponse(id: ExecutionId)            // by a node of the run, at any time
    | ResolveExecutionResponse(id: ExecutionId)
    | SetStatus(id: ExecutionId, status: Status)
    | Finalize(id: ExecutionId)
    | Stop(id: ExecutionId)
    | Drop(id: ExecutionId)
    | Finally(k: nat)

  // ---------------------------------------------------------------- well-formedness

  predicate Valid(s: Registry) {
    && (forall id :: id in s.active ==> s.active[id] < |s.records| && s.records[s.active[id]].id == id)
    && (forall k :: 0 <= k < |s.records| ==> s.records[k].reservation < |s.reservations|)
  }

  predicate Unowned(s: Registry, r: nat) {
    forall k :: 0 <= k < |s.records| ==> s.records[k].reservation != r
  }

  predicate Enabled(s: Registry, e: Event) {
    match e
    case Acquire(r) => r < |s.reservations| && s.reservations[r] == Idle
    case Abandon(r) => r < |s.reservations| && Unowned(s, r)
    case Register(_, r, _) => r < |s.reservations| && s.reservations[r] == Held && Unowned(s, r)
    case Finally(k) => k < |s.records| && s.records[k].settled && !s.records[k].finallyRan
    case _ => true
  }

  // ---------------------------------------------------------------- the steps

  /** Overwrites record `k` in place. */
  function Put(s: Registry, k: nat, rec: Record): (t: Registry)
    requires Valid(s) && k < |s.records|
    requires rec.id == s.records[k].id && rec.reservation == s.records[k].reservation
    ensures Valid(t)
  {
    s.(records := s.records[k := rec])
  }

  /** `delete this.activeExecutions[id]` */
  function Remove(s: Registry, id: ExecutionId): (t: Registry)
    requires Valid(s)
    ensures Valid(t) && t.active.Keys == s.active.Keys - {id}
  {
    s.(active := s.active - {id})
  }

  function Answer(s: Registry, k: nat): (t: Registry)
    requires Valid(s) && k < |s.records|
    ensures Valid(t)
  {
    s.(answered := s.answered + match s.records[k].response case None => {} case Some(p) => {p})
  }

  function Settle(s: Registry, k: nat): (t: Registry)
    requires Valid(s) && k < |s.records|
    ensures Valid(t)
  {
    Put(s, k, s.records[k].(settled := true))
  }

  function AcquireCapacity(s: Registry, r: nat): (t: Registry)
    requires Valid(s) && r < |s.reservations|
    ensures Valid(t)
  {
    s.(reservations := s.reservations[r := Held], reserved := s.reserved + 1)
  }

  /** `release()` does nothing unless the reservation holds capacity. */
  function Release(s: Registry, r: nat): (t: Registry)
    requires Valid(s) && r < |s.reservations|
    ensures Valid(t)
  {
    if s.reservations[r] != Held then s
    else s.(reservations := s.reservations[r := Released], released := s.released + 1)
  }

  /** The tail of `add`, after its last await: the new record takes over what a resumed one carried. */
  function AddRecord(s: Registry, id: ExecutionId, r: nat, now: int): (t: Registry)
    requires Valid(s) && r < |s.reservations|
    ensures Valid(t)
  {
    var rec :=
      if id in s.active then
        var previous := s.records[s.active[id]];
        Record(id, Running, previous.startedAt, false, false, r, previous.response)
      else
        Record(id, Running, now, false, false, r, None);
    s.(records := s.records + [rec], active := s.active[id := |s.records|])
  }

  function StopAt(s: Registry, id: ExecutionId): (t: Registry)
    requires Valid(s) && id in s.active
    ensures Valid(t)
  {
    var s1 := Answer(s, s.active[id]);
    if s.records[s.active[id]].status == Waiting then Remove(s1, id) else Settle(s1, s.active[id])
  }

  function FinallyAt(s: Registry, k: nat): (t: Registry)
    requires Valid(s) && k < |s.records|
    ensures Valid(t)
  {
    var rec := s.records[k];
    var s1 := Put(Release(s, rec.reservation), k, rec.(finallyRan := true));
    if rec.status == Waiting then s1 else Remove(s1, rec.id)
  }

  function Next(s: Registry, e: Event): (t: Registry)
    requires Valid(s) && Enabled(s, e)
    ensures Valid(t)
  {
    match e
    case OpenReservation => s.(reservations := s.reservations + [Idle])
    case Acquire(r) => AcquireCapacity(s, r)
    case Abandon(r) => Release(s, r)
    case Register(id, r, now) => AddRecord(s, id, r, now)
    case AttachResponse(id, p) =>
      if id !in s.active then s else Put(s, s.active[id], s.records[s.active[id]].(response := Some(p)))
    case ResolveResponse(id) => if id !in s.active then s else Answer(s, s.active[id])
    case ResolveExecutionResponse(id) =>
      if id !in s.active || s.records[s.active[id]].status == Waiting then s else Answer(s, s.active[id])
    case SetStatus(id, st) =>
      if id !in s.active then s else Put(s, s.active[id], s.records[s.active[id]].(status := st))
    case Finalize(id) => if id !in s.active then s else Settle(s, s.active[id])
    case Stop(id) => if id !in s.active then s else StopAt(s, id)
    case Drop(id) =>
      if id in s.active && s.records[s.active[id]].status in {Waiting, New} then Remove(s, id) else s
    case Finally(k) => FinallyAt(s, k)
  }

  // ---------------------------------------------------------------- runs

  predicate IsRun(s: Registry, es: seq<Event>)
    requires Valid(s)
    decreases |es|
  {
    es == [] || (Enabled(s, es[0]) && IsRun(Next(s, es[0]), es[1..]))
  }

  function After(s: Registry, es: seq<Event>): (t: Registry)
    requires Valid(s) && IsRun(s, es)
    ensures Valid(t)
    decreases |es|
  {
    if es == [] then s else After(Next(s, es[0]), es[1..])
  }

  // ---------------------------------------------------------------- ownership and conservation

  /** The two counters are the calls that took and the calls that gave back capacity. */
  predicate Balanced(s: Registry) {
    && s.released == multiset(s.reservations)[Released]
    && s.reserved == multiset(s.reservations)[Released] + multiset(s.reservations)[Held]
  }

  /** Every record owns its own reservation, held until its `finally` and given back by it. */
  predicate Owning(s: Registry)
    requires Valid(s)
  {
    && (forall k :: 0 <= k < |s.records| ==>
          s.reservations[s.records[k].reservation] == if s.records[k].finallyRan then Released else Held)
    && (forall k :: 0 <= k < |s.records| && s.records[k].finallyRan ==> s.records[k].settled)
    && (forall j, k :: 0 <= j < k < |s.records| ==> s.records[j].reservation != s.records[k].reservation)
  }

  predicate Inv(s: Registry) {
    Valid(s) && Owning(s) && Balanced(s)
  }

  /** Records may change anything but their reservation and their `finally`. */
  predicate SameHolding(s: Registry, t: Registry) {
    && t.reservations == s.reservations && t.reserved == s.reserved && t.released == s.released
    && |t.records| == |s.records|
    && forall k :: 0 <= k < |s.records| ==>
         && t.records[k].id == s.records[k].id
         && t.records[k].reservation == s.records[k].reservation
         && t.records[k].finallyRan == s.records[k].finallyRan
         && (s.records[k].settled ==> t.records[k].settled)
  }

  predicate Local(e: Event) {
    || e.AttachResponse? || e.ResolveResponse? || e.ResolveExecutionResponse?
    || e.SetStatus? || e.Finalize? || e.Stop? || e.Drop?
  }

  lemma LocalStepsHold(s: Registry, e: Event)
    requires Valid(s) && Local(e)
    ensures SameHolding(s, Next(s, e))
  {
  }

  lemma ReserveKeepsInv(s: Registry, e: Event)
    requires Inv(s) && Enabled(s, e)
    requires e.OpenReservation? || e.Acquire? || e.Abandon?
    ensures Inv(Next(s, e))
  {
    var t := Next(s, e);
    assert t.records == s.records;
    if e.OpenReservation? {
      assert t.reservations == s.reservations + [Idle];
    } else {
      assert forall k :: 0 <= k < |s.records| ==> s.records[k].reservation != e.r;
    }
  }

  lemma RegisterKeepsInv(s: Registry, id: ExecutionId, r: nat, now: int)
    requires Inv(s) && Enabled(s, Register(id, r, now))
    ensures Inv(AddRecord(s, id, r, now))
  {
    var t := AddRecord(s, id, r, now);
    assert t.reservations == s.reservations;
    assert t.records == s.records + [t.records[|s.records|]];
  }

  lemma FinallyKeepsInv(s: Registry, k: nat)
    requires Inv(s) && Enabled(s, Finally(k))
    ensures Inv(FinallyAt(s, k))
  {
    var t := FinallyAt(s, k);
    var r := s.records[k].reservation;
    assert t.reservations == s.reservations[r := Released];
    assert t.records == s.records[k := s.records[k].(finallyRan := true)];
  }

  lemma StepKeepsInv(s: Registry, e: Event)
    requires Inv(s) && Enabled(s, e)
    ensures Inv(Next(s, e))
  {
    match e
    case Register(id, r, now) => RegisterKeepsInv(s, id, r, now);
    case Finally(k) => FinallyKeepsInv(s, k);
    case _ => if Local(e) { LocalStepsHold(s, e); } else { ReserveKeepsInv(s, e); }
  }

  lemma {:induction false} RunKeepsInv(s: Registry, es: seq<Event>)
    requires Inv(s) && IsRun(s, es)
    ensures Inv(After(s, es))
    decreases |es|
  {
    if es != [] {
      StepKeepsInv(s, es[0]);
      RunKeepsInv(Next(s, es[0]), es[1..]);
    }
  }
}

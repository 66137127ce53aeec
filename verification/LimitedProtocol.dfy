/**
 The resume protocol under a concurrency limit: in every process an `add` call enqueues itself in the
 process's `ConcurrencyQueue` when it begins and goes on once the queue has let it in, and every
 reservation that gives capacity back lets the next one in.

 All executions are taken to be of one limited mode. A call that is let in goes on in a turn of its
 own, as the code after an `await` does.
 */
module LimitedProtocol {
  import opened Wrappers
  import opened R = ExecutionRegistry
  import opened RegistryLaws
  import opened ResumeProtocol
  import opened ResumeLaws
  import Q = ConcurrencyQueue

  datatype System = System(
    protocol: State,
    queues: seq<Q.Queue>,                      // of each process
    granted: seq<multiset<ExecutionId>>)       // let in, the `add` call has not gone on yet

  datatype Turn =
    | Move(e: Step)
    | RemoveQueued(p: nat, id: ExecutionId)    // a stop finds the execution in the queue

  // ---------------------------------------------------------------- the turns

  /** The registry event that a step of the protocol is in process `p`. */
  function EventIn(s: State, e: Step, p: nat): (h: Option<R.Event>)
    requires ResumeProtocol.Valid(s) && ResumeProtocol.Enabled(s, e) && p < |s.procs|
    ensures h.Some? ==> R.Enabled(s.procs[p], h.value)
  {
    match e
    case Spawn(_, _, _, _) => None
    case ReadParent(_) => None
    case WriteParent(_) => None
    case Load(_) => None
    case Persist(_, _, _, _) => None
    case Here(q, h) => if q == p then Some(h) else None
    case Commit(a) =>
      var att := s.attempts[a];
      if att.proc == p && !att.cause.Fresh? && !Wins(s, a) then Some(Abandon(att.stage.r)) else None
    case _ => if s.attempts[e.a].proc == p then Some(InRegistry(s, e)) else None
  }

  /** `reserve` enqueues, `release` dequeues if it gives capacity back. */
  function Request(s: State, e: Step, p: nat): Option<Q.Event>
    requires ResumeProtocol.Valid(s) && ResumeProtocol.Enabled(s, e) && p < |s.procs|
  {
    match EventIn(s, e, p)
    case None => None
    case Some(h) =>
      if h.OpenReservation? then Some(Q.Enqueue(s.attempts[e.a].id))
      else if R.Next(s.procs[p], h).released > s.procs[p].released then Some(Q.Dequeue)
      else None
  }

  function Served(q: Q.Queue, request: Option<Q.Event>): Q.Queue {
    if request.None? then q else Q.Next(q, request.value)
  }

  function NewlyLetIn(q: Q.Queue, r: Q.Queue): multiset<ExecutionId> {
    if |q.admitted| <= |r.admitted| then multiset(r.admitted[|q.admitted|..]) else multiset{}
  }

  predicate SameProcesses(y: System) {
    |y.queues| == |y.protocol.procs| && |y.granted| == |y.protocol.procs|
  }

  predicate Enabled(y: System, t: Turn)
    requires ResumeProtocol.Valid(y.protocol) && SameProcesses(y)
  {
    match t
    case RemoveQueued(p, _) => p < |y.queues|
    case Move(e) =>
      && ResumeProtocol.Enabled(y.protocol, e)
      && (e.Throttle? ==> y.protocol.attempts[e.a].id in y.granted[y.protocol.attempts[e.a].proc])
      && (e.Abort? ==> y.protocol.attempts[e.a].stage.Reserved?)     // a throttled call cannot fail
  }

  function GrantTaken(s: State, e: Step, p: nat): multiset<ExecutionId>
    requires ResumeProtocol.Valid(s) && ResumeProtocol.Enabled(s, e)
  {
    if e.Throttle? && s.attempts[e.a].proc == p then multiset{s.attempts[e.a].id} else multiset{}
  }

  lemma KeepsProcesses(s: State, e: Step)
    requires ResumeProtocol.Valid(s) && ResumeProtocol.Enabled(s, e)
    ensures |Apply(s, e).procs| == |s.procs|
  {
  }

  function Moved(y: System, e: Step): (z: System)
    requires ResumeProtocol.Valid(y.protocol) && SameProcesses(y) && ResumeProtocol.Enabled(y.protocol, e)
    ensures ResumeProtocol.Valid(z.protocol) && SameProcesses(z) && |z.queues| == |y.queues|
  {
    var s := y.protocol;
    KeepsProcesses(s, e);
    var queues := seq(|y.queues|, p requires 0 <= p < |y.queues| => Served(y.queues[p], Request(s, e, p)));
    var granted := seq(|y.queues|, p requires 0 <= p < |y.queues| =>
      y.granted[p] - GrantTaken(s, e, p) + NewlyLetIn(y.queues[p], Served(y.queues[p], Request(s, e, p))));
    System(Do(s, e), queues, granted)
  }

  function Next(y: System, t: Turn): (z: System)
    requires ResumeProtocol.Valid(y.protocol) && SameProcesses(y) && Enabled(y, t)
    ensures ResumeProtocol.Valid(z.protocol) && SameProcesses(z) && |z.queues| == |y.queues|
  {
    match t
    case Move(e) => Moved(y, e)
    case RemoveQueued(p, id) =>
      var q := Q.Removed(y.queues[p], id);
      y.(queues := y.queues[p := q], granted := y.granted[p := y.granted[p] + NewlyLetIn(y.queues[p], q)])
  }

  // ---------------------------------------------------------------- the limit over whole runs

  /** The queue of a process counts what its registry counts: what has finished has released, what has
      been let in has reserved or is about to. */
  predicate Linked(reg: Registry, q: Q.Queue, granted: multiset<ExecutionId>, limit: nat) {
    && Q.Counted(q, limit)
    && q.finished == reg.released
    && |q.admitted| == reg.reserved + |granted|
  }

  predicate Limited(y: System, limit: nat) {
    && ResumeProtocol.Valid(y.protocol) && SameProcesses(y)
    && forall p :: 0 <= p < |y.queues| ==> Linked(y.protocol.procs[p], y.queues[p], y.granted[p], limit)
  }

  predicate WithinLimit(y: System, limit: nat) {
    forall p :: 0 <= p < |y.queues| ==> Q.Running(y.queues[p]) <= limit
  }

  lemma CommitIsTheStep(s: State, a: nat, p: nat)
    requires ResumeProtocol.Valid(s) && ResumeProtocol.Enabled(s, Commit(a)) && p < |s.procs|
    ensures var h := EventIn(s, Commit(a), p);
            |StepCommit(s, a).procs| == |s.procs| &&
            StepCommit(s, a).procs[p] == if h.None? then s.procs[p] else R.Next(s.procs[p], h.value)
  {
  }

  lemma EventInIsTheStep(s: State, e: Step, p: nat)
    requires ResumeProtocol.Valid(s) && ResumeProtocol.Enabled(s, e) && p < |s.procs|
    ensures var h := EventIn(s, e, p);
            |Apply(s, e).procs| == |s.procs| &&
            Apply(s, e).procs[p] == if h.None? then s.procs[p] else R.Next(s.procs[p], h.value)
  {
    match e
    case Commit(a) => CommitIsTheStep(s, a, p);
    case _ =>
  }

  lemma EventInKinds(s: State, e: Step, p: nat)
    requires ResumeProtocol.Valid(s) && ResumeProtocol.Enabled(s, e) && p < |s.procs|
    ensures var h := EventIn(s, e, p);
            && (h.Some? && h.value.OpenReservation? ==> e.Begin?)
            && (h.Some? && h.value.Acquire? <==> e.Throttle? && s.attempts[e.a].proc == p)
  {
  }

  /** Capacity is given back one at a time, and only when some is held. */
  lemma Counters(reg: Registry, h: R.Event)
    requires Inv(reg) && R.Enabled(reg, h)
    ensures var t := R.Next(reg, h);
            && t.reserved == reg.reserved + (if h.Acquire? then 1 else 0)
            && reg.released <= t.released <= reg.released + 1
            && (h.OpenReservation? || h.Acquire? ==> t.released == reg.released)
            && (t.released > reg.released ==> reg.released < reg.reserved)
  {
    StepKeepsInv(reg, h);
    if Local(h) { LocalStepsHold(reg, h); }
  }

  lemma LetInGrowsByOne(q: Q.Queue, e: Q.Event)
    ensures q.admitted <= Q.Next(q, e).admitted && |NewlyLetIn(q, Q.Next(q, e))| <= 1
    ensures |Q.Next(q, e).admitted| == |q.admitted| + |NewlyLetIn(q, Q.Next(q, e))|
    ensures Q.Next(q, e).finished == q.finished + if e.Dequeue? then 1 else 0
  {
  }

  lemma ServingKeepsLinked(q: Q.Queue, request: Option<Q.Event>, reg: Registry, t: Registry,
                           granted: multiset<ExecutionId>, taken: multiset<ExecutionId>, limit: nat)
    requires Linked(reg, q, granted, limit) && taken <= granted
    requires t.reserved == reg.reserved + |taken|
    requires t.released == reg.released + if request == Some(Q.Dequeue) then 1 else 0
    requires request.Some? ==> Q.Enabled(q, request.value) && !request.value.Remove?
    ensures var r := Served(q, request);
            && Linked(t, r, granted - taken + NewlyLetIn(q, r), limit)
            && (Q.Running(q) <= limit ==> Q.Running(r) <= limit)
  {
    assert |granted - taken| == |granted| - |taken|;
    if request.Some? {
      Q.StepKeepsCounted(q, request.value, limit);
      if Q.Running(q) <= limit { Q.ExceedsTheLimitExactlyWhen(q, request.value, limit); }
      LetInGrowsByOne(q, request.value);
    }
  }

  /** A reservation acquired uses up a grant, and one given back is one `dequeue`. */
  lemma RequestsMatchCounters(s: State, e: Step, p: nat)
    requires ResumeProtocol.Valid(s) && ResumeProtocol.Enabled(s, e) && p < |s.procs| == |Apply(s, e).procs|
    ensures var reg, t, request := s.procs[p], Apply(s, e).procs[p], Request(s, e, p);
            && t.reserved == reg.reserved + |GrantTaken(s, e, p)|
            && t.released == reg.released + (if request == Some(Q.Dequeue) then 1 else 0)
            && (request.Some? ==> !request.value.Remove?)
            && (request == Some(Q.Dequeue) ==> reg.released < reg.reserved)
  {
    EventInIsTheStep(s, e, p);
    EventInKinds(s, e, p);
    if EventIn(s, e, p).Some? { Counters(s.procs[p], EventIn(s, e, p).value); }
  }

  lemma MoveKeepsLinked(y: System, e: Step, p: nat, limit: nat)
    requires Limited(y, limit) && Enabled(y, Move(e)) && p < |y.queues|
    ensures var z := Moved(y, e);
            && Linked(z.protocol.procs[p], z.queues[p], z.granted[p], limit)
            && (Q.Running(y.queues[p]) <= limit ==> Q.Running(z.queues[p]) <= limit)
  {
    var s, q, granted := y.protocol, y.queues[p], y.granted[p];
    KeepsProcesses(s, e);
    RequestsMatchCounters(s, e, p);
    assert Linked(s.procs[p], q, granted, limit);
    var request, taken := Request(s, e, p), GrantTaken(s, e, p);
    ServingKeepsLinked(q, request, s.procs[p], Apply(s, e).procs[p], granted, taken, limit);
  }

  lemma RemovalKeepsLinked(y: System, p: nat, id: ExecutionId, limit: nat)
    requires Limited(y, limit) && p < |y.queues|
    ensures Limited(Next(y, RemoveQueued(p, id)), limit)
  {
    Q.StepKeepsCounted(y.queues[p], Q.Remove(id), limit);
    LetInGrowsByOne(y.queues[p], Q.Remove(id));
  }

  lemma TurnKeepsLimited(y: System, t: Turn, limit: nat)
    requires Limited(y, limit) && Enabled(y, t)
    ensures Limited(Next(y, t), limit)
  {
    match t
    case RemoveQueued(p, id) => RemovalKeepsLinked(y, p, id, limit);
    case Move(e) =>
      var z := Moved(y, e);
      forall p | 0 <= p < |y.queues| ensures Linked(z.protocol.procs[p], z.queues[p], z.granted[p], limit) {
        MoveKeepsLinked(y, e, p, limit);
      }
  }

  predicate RemovesOneOfSeveral(y: System, t: Turn) {
    t.RemoveQueued? && t.p < |y.queues| && t.id in y.queues[t.p].waiting && |y.queues[t.p].waiting| > 1
  }

  /** From a state within the limit, a turn exceeds it if and only if it removes one of several queued
      executions: no interleaving of begins, resumes, failures, losses and callbacks does. */
  lemma ExceedsExactlyWhen(y: System, t: Turn, limit: nat)
    requires Limited(y, limit) && WithinLimit(y, limit) && Enabled(y, t)
    ensures WithinLimit(Next(y, t), limit) <==> !RemovesOneOfSeveral(y, t)
  {
    match t
    case RemoveQueued(p, id) =>
      Q.ExceedsTheLimitExactlyWhen(y.queues[p], Q.Remove(id), limit);
      assert Next(y, t).queues[p] == Q.Next(y.queues[p], Q.Remove(id));
    case Move(e) =>
      forall p | 0 <= p < |y.queues| ensures Q.Running(Moved(y, e).queues[p]) <= limit {
        MoveKeepsLinked(y, e, p, limit);
      }
  }

  predicate IsRun(y: System, ts: seq<Turn>)
    requires ResumeProtocol.Valid(y.protocol) && SameProcesses(y)
    decreases |ts|
  {
    ts == [] || (Enabled(y, ts[0]) && IsRun(Next(y, ts[0]), ts[1..]))
  }

  function After(y: System, ts: seq<Turn>): (z: System)
    requires ResumeProtocol.Valid(y.protocol) && SameProcesses(y) && IsRun(y, ts)
    ensures ResumeProtocol.Valid(z.protocol) && SameProcesses(z) && |z.queues| == |y.queues|
    decreases |ts|
  {
    if ts == [] then y else After(Next(y, ts[0]), ts[1..])
  }

  predicate RemovesNoneOfSeveral(y: System, ts: seq<Turn>)
    requires ResumeProtocol.Valid(y.protocol) && SameProcesses(y) && IsRun(y, ts)
    decreases |ts|
  {
    ts == [] || (!RemovesOneOfSeveral(y, ts[0]) && RemovesNoneOfSeveral(Next(y, ts[0]), ts[1..]))
  }

  lemma {:induction false} RunKeepsTheLimit(y: System, ts: seq<Turn>, limit: nat)
    requires Limited(y, limit) && WithinLimit(y, limit) && IsRun(y, ts) && RemovesNoneOfSeveral(y, ts)
    ensures Limited(After(y, ts), limit) && WithinLimit(After(y, ts), limit)
    decreases |ts|
  {
    if ts != [] {
      TurnKeepsLimited(y, ts[0], limit);
      ExceedsExactlyWhen(y, ts[0], limit);
      RunKeepsTheLimit(Next(y, ts[0]), ts[1..], limit);
    }
  }

  function HeldIn(reg: Registry): nat {
    multiset(reg.reservations)[Held]
  }

  predicate Start(y: System, limit: nat) {
    && Initial(y.protocol) && SameProcesses(y)
    && (forall p :: 0 <= p < |y.queues| ==> y.queues[p] == Q.Queue(limit, [], [], 0) && y.granted[p] == multiset{})
  }

  /** From a cold start, with any number of processes and attempts: the reservations held in a process,
      together with the calls about to take theirs, never exceed the limit, and nobody waits in its
      queue while they are fewer. */
  lemma HeldNeverExceedsTheLimit(y: System, ts: seq<Turn>, limit: nat)
    requires Start(y, limit) && ResumeProtocol.Valid(y.protocol) && IsRun(y, ts) && RemovesNoneOfSeveral(y, ts)
    ensures var z := After(y, ts);
            forall p :: 0 <= p < |z.queues| ==>
              && HeldIn(z.protocol.procs[p]) + |z.granted[p]| <= limit
              && (z.queues[p].waiting != [] ==> HeldIn(z.protocol.procs[p]) + |z.granted[p]| == limit)
  {
    RunKeepsTheLimit(y, ts, limit);
    var z := After(y, ts);
    forall p | 0 <= p < |z.queues| ensures Q.Running(z.queues[p]) == HeldIn(z.protocol.procs[p]) + |z.granted[p]| {
      assert Inv(z.protocol.procs[p]) && Linked(z.protocol.procs[p], z.queues[p], z.granted[p], limit);
    }
  }

  // ---------------------------------------------------------------- what a leak does to the others

  lemma {:induction false} HeldAtLeast(reservations: seq<Reservation>, held: set<nat>)
    requires forall r :: r in held ==> r < |reservations| && reservations[r] == Held
    ensures multiset(reservations)[Held] >= |held|
    decreases |reservations|
  {
    if reservations != [] {
      var last := |reservations| - 1;
      assert reservations == reservations[..last] + [reservations[last]];
      HeldAtLeast(reservations[..last], held - {last});
      if last in held { assert |held - {last}| == |held| - 1; }
    } else {
      assert held == {};
    }
  }

  predicate Orphans(reg: Registry, records: set<nat>)
    requires R.Valid(reg)
  {
    forall k :: k in records ==> Orphan(reg, k)
  }

  lemma {:induction false} ReservationsOf(reg: Registry, records: set<nat>) returns (held: set<nat>)
    requires Inv(reg) && Orphans(reg, records)
    ensures |held| == |records|
    ensures forall r :: r in held ==> exists k :: k in records && Orphan(reg, k) && reg.records[k].reservation == r
    decreases |records|
  {
    held := {};
    if records != {} {
      var k :| k in records;
      var rest := ReservationsOf(reg, records - {k});
      assert reg.records[k].reservation !in rest;
      held := rest + {reg.records[k].reservation};
    }
  }

  lemma OrphansHold(reg: Registry, records: set<nat>)
    requires Inv(reg) && Orphans(reg, records)
    ensures HeldIn(reg) >= |records|
  {
    var held := ReservationsOf(reg, records);
    HeldAtLeast(reg.reservations, held);
  }

  lemma OrphansStay(y: System, t: Turn, p: nat, records: set<nat>, limit: nat)
    requires Limited(y, limit) && Enabled(y, t) && p < |y.queues| && Orphans(y.protocol.procs[p], records)
    ensures Orphans(Next(y, t).protocol.procs[p], records)
  {
    if t.Move? {
      EventInIsTheStep(y.protocol, t.e, p);
      var h := EventIn(y.protocol, t.e, p);
      forall k | k in records && h.Some? ensures Orphan(R.Next(y.protocol.procs[p], h.value), k) {
        OrphanStep(y.protocol.procs[p], h.value, k);
      }
    }
  }

  /** All of the limit is held by orphans, so nobody else holds any or is about to. */
  lemma Jammed(y: System, p: nat, records: set<nat>, limit: nat)
    requires Limited(y, limit) && WithinLimit(y, limit) && p < |y.queues|
    requires Orphans(y.protocol.procs[p], records) && |records| >= limit
    ensures y.granted[p] == multiset{} && Q.Running(y.queues[p]) == limit
  {
    OrphansHold(y.protocol.procs[p], records);
    assert Inv(y.protocol.procs[p]) && Linked(y.protocol.procs[p], y.queues[p], y.granted[p], limit);
  }

  lemma AdmittedOnlyGrows(y: System, t: Turn, p: nat)
    requires ResumeProtocol.Valid(y.protocol) && SameProcesses(y) && Enabled(y, t) && p < |y.queues|
    ensures y.queues[p].admitted <= Next(y, t).queues[p].admitted
  {
    match t
    case RemoveQueued(_, id) => LetInGrowsByOne(y.queues[p], Q.Remove(id));
    case Move(e) =>
      if Request(y.protocol, e, p).Some? { LetInGrowsByOne(y.queues[p], Request(y.protocol, e, p).value); }
  }

  lemma ReservingNeedsAGrant(y: System, t: Turn, p: nat)
    requires ResumeProtocol.Valid(y.protocol) && SameProcesses(y) && Enabled(y, t) && p < |y.queues|
    requires y.granted[p] == multiset{}
    ensures Next(y, t).protocol.procs[p].reserved == y.protocol.procs[p].reserved
  {
    if t.Move? {
      EventInIsTheStep(y.protocol, t.e, p);
      EventInKinds(y.protocol, t.e, p);
      var h := EventIn(y.protocol, t.e, p);
      if h.Some? { Counters(y.protocol.procs[p], h.value); }
    }
  }

  lemma NobodyIsLetIn(y: System, t: Turn, p: nat, records: set<nat>, limit: nat)
    requires Limited(y, limit) && WithinLimit(y, limit) && Enabled(y, t) && !RemovesOneOfSeveral(y, t)
    requires p < |y.queues| && Orphans(y.protocol.procs[p], records) && |records| >= limit
    ensures var z := Next(y, t);
            && Limited(z, limit) && WithinLimit(z, limit) && Orphans(z.protocol.procs[p], records)
            && z.queues[p].admitted == y.queues[p].admitted
  {
    var z := Next(y, t);
    TurnKeepsLimited(y, t, limit);
    ExceedsExactlyWhen(y, t, limit);
    OrphansStay(y, t, p, records, limit);
    Jammed(y, p, records, limit);
    Jammed(z, p, records, limit);
    ReservingNeedsAGrant(y, t, p);
    AdmittedOnlyGrows(y, t, p);
    assert Linked(y.protocol.procs[p], y.queues[p], y.granted[p], limit);
    assert Linked(z.protocol.procs[p], z.queues[p], z.granted[p], limit);
  }

  predicate Throttled(y: System, p: nat, a: nat) {
    a < |y.protocol.attempts| && y.protocol.attempts[a].proc == p && y.protocol.attempts[a].stage.Reserving?
  }

  lemma ThrottledStays(y: System, t: Turn, p: nat, a: nat)
    requires ResumeProtocol.Valid(y.protocol) && SameProcesses(y) && Enabled(y, t) && p < |y.queues|
    requires y.granted[p] == multiset{} && Throttled(y, p, a)
    ensures Throttled(Next(y, t), p, a) && Next(y, t).protocol.attempts[a] == y.protocol.attempts[a]
  {
    if t.Move? { StepMovesOneAttempt(y.protocol, t.e); }
  }

  lemma StopOrphans(reg: Registry, k: nat)
    requires Inv(reg) && Current(reg, k) && !reg.records[k].settled && reg.records[k].status == Waiting
    ensures Orphan(R.Next(reg, Stop(reg.records[k].id)), k)
  {
    OrphanedExactlyWhen(reg, Stop(reg.records[k].id), k);
  }

  /** Each stop between the report of a wait and the end of that run takes one more from the limit. */
  lemma StopTakesFromTheLimit(y: System, p: nat, k: nat, records: set<nat>, limit: nat)
    requires Limited(y, limit) && p < |y.queues| && Orphans(y.protocol.procs[p], records)
    requires Current(y.protocol.procs[p], k) && !y.protocol.procs[p].records[k].settled
    requires y.protocol.procs[p].records[k].status == Waiting
    ensures var stop := Move(Here(p, Stop(y.protocol.procs[p].records[k].id)));
            && Enabled(y, stop)
            && Orphans(Next(y, stop).protocol.procs[p], records + {k})
            && |records + {k}| == |records| + 1
  {
    var reg := y.protocol.procs[p];
    OrphansStay(y, Move(Here(p, Stop(reg.records[k].id))), p, records, limit);
    StopOrphans(reg, k);
  }

  /** Once records whose `finally` can never run hold the whole limit of a process, no call is let in
      there any more and no throttled one ever goes on, whatever the process and the others do. */
  lemma {:induction false} LeaksBlockTheProcess(y: System, ts: seq<Turn>, p: nat, records: set<nat>, limit: nat)
    requires Limited(y, limit) && WithinLimit(y, limit) && IsRun(y, ts) && RemovesNoneOfSeveral(y, ts)
    requires p < |y.queues| && Orphans(y.protocol.procs[p], records) && |records| >= limit
    ensures var z := After(y, ts);
            && z.queues[p].admitted == y.queues[p].admitted
            && forall a :: Throttled(y, p, a) ==> Throttled(z, p, a)
    decreases |ts|
  {
    if ts != [] {
      var t := ts[0];
      NobodyIsLetIn(y, t, p, records, limit);
      Jammed(y, p, records, limit);
      forall a | Throttled(y, p, a) ensures Throttled(Next(y, t), p, a) {
        ThrottledStays(y, t, p, a);
      }
      LeaksBlockTheProcess(Next(y, t), ts[1..], p, records, limit);
    }
  }
}

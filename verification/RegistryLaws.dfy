/** What every run of the registry of active executions keeps, loses and can never get back. */
module RegistryLaws {
  import opened Wrappers
  import opened ExecutionRegistry

  // ---------------------------------------------------------------- capacity

  /** Reservations taken minus reservations given back are exactly the ones still held, and each of
      those is held by one `add` in progress or by one record whose `finally` has not run. */
  lemma {:induction false} CapacityIsConserved(es: seq<Event>)
    requires IsRun(EMPTY, es)
    ensures var t := After(EMPTY, es);
            && t.reserved - t.released == multiset(t.reservations)[Held]
            && (forall k :: 0 <= k < |t.records| ==>
                  (t.records[k].finallyRan <==> t.reservations[t.records[k].reservation] == Released))
            && (forall j, k :: 0 <= j < k < |t.records| ==> t.records[j].reservation != t.records[k].reservation)
  {
    RunKeepsInv(EMPTY, es);
  }

  lemma ReleasedStays(s: Registry, e: Event, r: nat)
    requires Inv(s) && Enabled(s, e)
    requires r < |s.reservations| && s.reservations[r] == Released
    ensures r < |Next(s, e).reservations| && Next(s, e).reservations[r] == Released
  {
    if Local(e) { LocalStepsHold(s, e); }
  }

  /** A reservation gives its capacity back at most once: nothing takes it out of `Released`, and
      the counter moves only together with a reservation entering that state. */
  lemma {:induction false} ReleasedOnce(s: Registry, es: seq<Event>, r: nat)
    requires Inv(s) && IsRun(s, es)
    requires r < |s.reservations| && s.reservations[r] == Released
    ensures r < |After(s, es).reservations| && After(s, es).reservations[r] == Released
    decreases |es|
  {
    if es != [] {
      StepKeepsInv(s, es[0]);
      ReleasedStays(s, es[0], r);
      ReleasedOnce(Next(s, es[0]), es[1..], r);
    }
  }

  /** Records whose `finally` is still to come. */
  function Pending(records: seq<Record>): nat {
    if records == [] then 0
    else Pending(records[..|records| - 1]) + if records[|records| - 1].finallyRan then 0 else 1
  }

  lemma {:induction false} PendingUpdate(records: seq<Record>, k: nat, rec: Record)
    requires k < |records|
    ensures Pending(records[k := rec]) ==
            Pending(records) - (if records[k].finallyRan then 0 else 1) + (if rec.finallyRan then 0 else 1)
    decreases |records|
  {
    var last := |records| - 1;
    if k == last {
      assert records[k := rec][..last] == records[..last];
    } else {
      assert records[k := rec][..last] == records[..last][k := rec];
      PendingUpdate(records[..last], k, rec);
    }
  }

  lemma {:induction false} PendingSame(before: seq<Record>, now: seq<Record>)
    requires |before| == |now|
    requires forall k :: 0 <= k < |before| ==> now[k].finallyRan == before[k].finallyRan
    ensures Pending(now) == Pending(before)
    decreases |before|
  {
    if before != [] {
      PendingSame(before[..|before| - 1], now[..|now| - 1]);
    }
  }

  /** Capacity taken by `add` calls that have not registered a record yet. */
  function InProgress(s: Registry): int {
    s.reserved - s.released - Pending(s.records)
  }

  function Taken(s: Registry, e: Event): int
    requires Valid(s) && Enabled(s, e)
  {
    match e
    case Acquire(_) => 1
    case Abandon(r) => if s.reservations[r] == Held then -1 else 0
    case Register(_, _, _) => -1
    case _ => 0
  }

  /** Only the three steps of `add` change what calls in progress hold: `finally` returns exactly
      what its own record held, and no other call takes or returns anything. */
  lemma InProgressStep(s: Registry, e: Event)
    requires Inv(s) && Enabled(s, e)
    ensures InProgress(Next(s, e)) == InProgress(s) + Taken(s, e)
  {
    var t := Next(s, e);
    match e
    case Register(id, r, now) => assert t.records[..|t.records| - 1] == s.records;
    case Finally(k) =>
      assert t.records == s.records[k := s.records[k].(finallyRan := true)];
      PendingUpdate(s.records, k, t.records[k]);
    case _ =>
      if Local(e) {
        LocalStepsHold(s, e);
        PendingSame(s.records, t.records);
      }
  }

  // ---------------------------------------------------------------- orphaned records

  predicate Current(s: Registry, k: nat)
    requires Valid(s)
  {
    k < |s.records| && s.records[k].id in s.active && s.active[s.records[k].id] == k
  }

  /** Its promise is pending and no call by id can reach it. */
  predicate Orphan(s: Registry, k: nat)
    requires Valid(s)
  {
    k < |s.records| && !s.records[k].settled && !Current(s, k)
  }

  /** The four ways to lose sight of a record whose promise is still pending. */
  predicate LosesSightOf(s: Registry, e: Event, k: nat)
    requires Valid(s) && Enabled(s, e) && k < |s.records|
  {
    && Current(s, k) && !s.records[k].settled
    && match e
       case Register(id, _, _) => id == s.records[k].id
       case Stop(id) => id == s.records[k].id && s.records[k].status == Waiting
       case Drop(id) => id == s.records[k].id && s.records[k].status in {Waiting, New}
       case Finally(j) => s.records[j].id == s.records[k].id && s.records[j].status != Waiting
       case _ => false
  }

  lemma LocalOrphansExactlyWhen(s: Registry, e: Event, k: nat)
    requires Inv(s) && Local(e)
    requires k < |s.records| && !Orphan(s, k)
    ensures Orphan(Next(s, e), k) <==> LosesSightOf(s, e, k)
  {
  }

  lemma OrphanedExactlyWhen(s: Registry, e: Event, k: nat)
    requires Inv(s) && Enabled(s, e)
    requires k < |s.records| && !Orphan(s, k)
    ensures Orphan(Next(s, e), k) <==> LosesSightOf(s, e, k)
  {
    var t := Next(s, e);
    match e
    case Register(id, r, now) => assert t.records == s.records + [t.records[|s.records|]];
    case Finally(j) => assert t.records == s.records[j := s.records[j].(finallyRan := true)];
    case _ => if Local(e) { LocalOrphansExactlyWhen(s, e, k); }
  }

  lemma OrphanStep(s: Registry, e: Event, k: nat)
    requires Inv(s) && Enabled(s, e) && Orphan(s, k)
    ensures Orphan(Next(s, e), k) && Next(s, e).records[k].reservation == s.records[k].reservation
  {
    var t := Next(s, e);
    match e
    case Register(id, r, now) => assert t.records == s.records + [t.records[|s.records|]];
    case Finally(j) => assert t.records == s.records[j := s.records[j].(finallyRan := true)];
    case _ =>
  }

  /** Capacity held by an orphan is never given back, whatever happens later. */
  lemma {:induction false} OrphanForever(s: Registry, es: seq<Event>, k: nat)
    requires Inv(s) && IsRun(s, es) && Orphan(s, k)
    ensures Orphan(After(s, es), k)
    ensures var t := After(s, es);
            && t.records[k].reservation == s.records[k].reservation
            && t.reservations[t.records[k].reservation] == Held
    decreases |es|
  {
    if es == [] {
    } else {
      OrphanStep(s, es[0], k);
      StepKeepsInv(s, es[0]);
      OrphanForever(Next(s, es[0]), es[1..], k);
    }
  }

  predicate NoOrphans(s: Registry)
    requires Valid(s)
  {
    forall k :: 0 <= k < |s.records| ==> !Orphan(s, k)
  }

  predicate KeepsSight(s: Registry, es: seq<Event>)
    requires Valid(s) && IsRun(s, es)
    decreases |es|
  {
    es == [] ||
    (&& (forall k :: 0 <= k < |s.records| ==> !LosesSightOf(s, es[0], k))
     && KeepsSight(Next(s, es[0]), es[1..]))
  }

  lemma RecordsOnlyGrow(s: Registry, e: Event)
    requires Valid(s) && Enabled(s, e)
    ensures |s.records| <= |Next(s, e).records|
    ensures e.Register? ==> |Next(s, e).records| == |s.records| + 1 && Current(Next(s, e), |s.records|)
    ensures !e.Register? ==> |Next(s, e).records| == |s.records|
  {
  }

  /** A run leaks capacity if and only if one of its steps lost sight of a pending record. */
  lemma {:induction false} LeaksExactlyWhen(s: Registry, es: seq<Event>)
    requires Inv(s) && IsRun(s, es) && NoOrphans(s)
    ensures NoOrphans(After(s, es)) <==> KeepsSight(s, es)
    decreases |es|
  {
    if es != [] {
      var e, t := es[0], Next(s, es[0]);
      StepKeepsInv(s, e);
      RecordsOnlyGrow(s, e);
      forall k | 0 <= k < |s.records| ensures Orphan(t, k) <==> LosesSightOf(s, e, k) {
        OrphanedExactlyWhen(s, e, k);
      }
      if k :| 0 <= k < |s.records| && LosesSightOf(s, e, k) {
        OrphanForever(t, es[1..], k);
      } else {
        assert NoOrphans(t);
        LeaksExactlyWhen(t, es[1..]);
      }
    }
  }

  // ---------------------------------------------------------------- runs that do leak

  lemma Cons(s: Registry, e: Event, es: seq<Event>)
    requires Valid(s) && Enabled(s, e) && IsRun(Next(s, e), es)
    ensures IsRun(s, [e] + es) && After(s, [e] + es) == After(Next(s, e), es)
  {
    assert ([e] + es)[1..] == es;
  }

  /** One execution, started and registered, whose node has just put it to wait. */
  function WaitingRun(id: ExecutionId, start: int): seq<Event> {
    [OpenReservation] + ([Acquire(0)] + ([Register(id, 0, start)] + ([SetStatus(id, Waiting)] + [])))
  }

  function PutToWait(id: ExecutionId, start: int): Registry {
    Registry(map[id := 0], [Record(id, Waiting, start, false, false, 0, None)], [Held], 1, 0, {})
  }

  lemma WaitingRunReaches(id: ExecutionId, start: int)
    ensures IsRun(EMPTY, WaitingRun(id, start)) && After(EMPTY, WaitingRun(id, start)) == PutToWait(id, start)
  {
    var s1 := Next(EMPTY, OpenReservation);
    var s2 := Next(s1, Acquire(0));
    var s3 := Next(s2, Register(id, 0, start));
    assert s3 == Registry(map[id := 0], [Record(id, Running, start, false, false, 0, None)], [Held], 1, 0, {});
    assert Next(s3, SetStatus(id, Waiting)) == PutToWait(id, start);
    Cons(s3, SetStatus(id, Waiting), []);
    Cons(s2, Register(id, 0, start), [SetStatus(id, Waiting)] + []);
    Cons(s1, Acquire(0), [Register(id, 0, start)] + ([SetStatus(id, Waiting)] + []));
    Cons(EMPTY, OpenReservation, [Acquire(0)] + ([Register(id, 0, start)] + ([SetStatus(id, Waiting)] + [])));
  }

  /** Stopping an execution between `setStatus('waiting')` and its finalization, from any state such as
      `PutToWait`, drops the entry with its promise pending: the finalization that follows finds nothing,
      the capacity stays taken. */
  lemma StopBeforeFinalizationLeaks(s: Registry, k: nat)
    requires Inv(s) && Current(s, k) && !s.records[k].settled && s.records[k].status == Waiting
    ensures var id := s.records[k].id;
            var t := Next(s, Stop(id));
            && Orphan(t, k) && t.reservations[t.records[k].reservation] == Held
            && Next(t, Finalize(id)) == t
  {
    var stop := Stop(s.records[k].id);
    StepKeepsInv(s, stop);
    OrphanForever(Next(s, stop), [], k);
  }

  /** The finalization of the run of record `k` finds the record `own`, and so does the callback. */
  predicate TakenOver(t: Registry, k: nat, own: nat, id: ExecutionId)
    requires Valid(t)
  {
    var u := Next(t, Finalize(id));
    && Orphan(u, k) && u.reservations[u.records[k].reservation] == Held
    && own < |u.records| && u.records[own].settled && u.records[own].status == Running
    && Enabled(u, Finally(own)) && id !in Next(u, Finally(own)).active
  }

  lemma FinalizationIsTaken(t: Registry, k: nat, own: nat)
    requires Inv(t) && Orphan(t, k) && Current(t, own)
    requires t.records[own].status == Running && !t.records[own].finallyRan
    ensures TakenOver(t, k, own, t.records[own].id)
  {
    var finalize := Finalize(t.records[own].id);
    OrphanStep(t, finalize, k);
    StepKeepsInv(t, finalize);
  }

  /** A resume that registers before the waiting run is finalized takes that finalization for itself: the
      resumed run is settled while it runs, the callback that follows removes it from the map, and the
      capacity of the first run stays taken. */
  lemma ResumeBeforeFinalizationLeaks(s: Registry, k: nat, r: nat, now: int)
    requires Inv(s) && Current(s, k) && !s.records[k].settled
    requires Enabled(s, Register(s.records[k].id, r, now))
    ensures var id := s.records[k].id;
            var t := Next(s, Register(id, r, now));
            Orphan(t, k) && TakenOver(t, k, |s.records|, id)
  {
    var register := Register(s.records[k].id, r, now);
    OrphanedExactlyWhen(s, register, k);
    StepKeepsInv(s, register);
    FinalizationIsTaken(Next(s, register), k, |s.records|);
  }

  // ---------------------------------------------------------------- what survives a resume

  predicate Stays(s: Registry, es: seq<Event>, id: ExecutionId)
    requires Valid(s) && IsRun(s, es)
    decreases |es|
  {
    id in s.active && (es == [] || Stays(Next(s, es[0]), es[1..], id))
  }

  /** What the record of `id` hands on. */
  predicate Kept(s: Registry, t: Registry, e: Event, id: ExecutionId)
    requires Valid(s) && Valid(t) && id in s.active && id in t.active
  {
    var was, now := s.records[s.active[id]], t.records[t.active[id]];
    && now.startedAt == was.startedAt
    && (!(e.AttachResponse? && e.id == id) ==> now.response == was.response)
  }

  lemma StartSurvivesLocal(s: Registry, e: Event, id: ExecutionId)
    requires Valid(s) && Local(e) && id in s.active && id in Next(s, e).active
    ensures Kept(s, Next(s, e), e, id)
  {
    assert Next(s, e).active[id] == s.active[id];
    if e.id != id { assert Next(s, e).records[s.active[id]] == s.records[s.active[id]]; }
  }

  lemma StartSurvivesStep(s: Registry, e: Event, id: ExecutionId)
    requires Valid(s) && Enabled(s, e) && id in s.active && id in Next(s, e).active
    ensures Kept(s, Next(s, e), e, id)
  {
    var t := Next(s, e);
    if Local(e) {
      StartSurvivesLocal(s, e, id);
    } else if e.Register? {
      assert t.records[..|s.records|] == s.records;
    } else if e.Finally? {
      assert t.active[id] == s.active[id] && t.records == s.records[e.k := s.records[e.k].(finallyRan := true)];
    }
  }

  /** As long as an id stays in the map, however often it waits and is resumed, `startedAt` is that
      of its first `add` and the caller's response promise is the one attached last. */
  lemma {:induction false} StartSurvivesResumes(s: Registry, es: seq<Event>, id: ExecutionId)
    requires Valid(s) && IsRun(s, es) && Stays(s, es, id)
    ensures id in After(s, es).active
    ensures var was, now := s.records[s.active[id]], After(s, es).records[After(s, es).active[id]];
            && now.startedAt == was.startedAt
            && ((forall e :: e in es ==> !(e.AttachResponse? && e.id == id)) ==> now.response == was.response)
    decreases |es|
  {
    if es != [] {
      StartSurvivesStep(s, es[0], id);
      StartSurvivesResumes(Next(s, es[0]), es[1..], id);
    }
  }

  // ---------------------------------------------------------------- settled is final

  predicate CallOn(e: Event, id: ExecutionId) {
    (e.Stop? || e.Finalize? || e.ResolveResponse? || e.ResolveExecutionResponse?) && e.id == id
  }

  predicate Over(s: Registry, id: ExecutionId)
    requires Valid(s)
  {
    id in s.active ==> s.records[s.active[id]].settled && s.records[s.active[id]].status != Waiting
  }

  /** Once an execution has settled outside waiting, stopping it, finalizing it and resolving it
      again can at most answer its response promise. */
  lemma {:induction false} SettledIsFinal(s: Registry, es: seq<Event>, id: ExecutionId)
    requires Valid(s) && Over(s, id)
    requires forall e :: e in es ==> CallOn(e, id)
    ensures IsRun(s, es) && After(s, es) == s.(answered := After(s, es).answered)
    ensures id !in s.active ==> After(s, es) == s
    decreases |es|
  {
    if es != [] {
      assert CallOn(es[0], id);
      var t := Next(s, es[0]);
      assert t == s.(answered := t.answered) by {
        if id in s.active {
          var k := s.active[id];
          assert s.records[k := s.records[k].(settled := true)] == s.records;
        }
      }
      SettledIsFinal(t, es[1..], id);
    }
  }
}

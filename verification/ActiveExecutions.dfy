/** The `ActiveExecutions` service: its methods update the registry in place. */
module ActiveExecutions {
  import opened Wrappers
  import opened ExecutionRegistry
  import opened FinallyLaws
  import opened RegistryLaws

  /** How the awaited calls inside `add` turn out. */
  datatype Outcome = CreateFails | ReserveFails | UpdateThrows | UpdateRefused | Succeeds

  datatype AddResult = Added(id: ExecutionId) | AlreadyResuming(id: ExecutionId) | Failed

  class ActiveExecutions {
    var activeExecutions: map<ExecutionId, nat>
    var records: seq<Record>
    var reservations: seq<Reservation>
    var reserved: nat
    var released: nat
    var answered: set<nat>
    const regularMode: bool

    function State(): Registry
      reads this
    {
      Registry(activeExecutions, records, reservations, reserved, released, answered)
    }

    constructor (regularMode: bool)
      ensures State() == EMPTY && this.regularMode == regularMode && Inv(State())
    {
      this.regularMode := regularMode;
      activeExecutions, records, reservations := map[], [], [];
      reserved, released, answered := 0, 0, {};
    }

    method ReleaseReservation(r: nat)
      requires Valid(State()) && r < |reservations|
      modifies `reservations, `released
      ensures State() == Release(old(State()), r)
    {
      if reservations[r] == Held {
        reservations := reservations[r := Released];
        released := released + 1;
      }
    }

    method OpenReservation() returns (r: nat)
      requires Inv(State())
      modifies `reservations
      ensures State() == Next(old(State()), Event.OpenReservation) && Inv(State())
      ensures r == old(|reservations|) && r < |reservations| && reservations[r] == Idle && Unowned(State(), r)
    {
      StepKeepsInv(State(), Event.OpenReservation);
      r := |reservations|;
      reservations := reservations + [Idle];
    }

    method Reserve(r: nat)
      requires Inv(State()) && Enabled(State(), Acquire(r)) && Unowned(State(), r)
      modifies `reservations, `reserved
      ensures State() == Next(old(State()), Acquire(r)) && Inv(State())
      ensures reservations[r] == Held && Unowned(State(), r)
    {
      StepKeepsInv(State(), Acquire(r));
      reservations := reservations[r := Held];
      reserved := reserved + 1;
    }

    /** The `catch` branch of `add`. */
    method AbandonAdd(r: nat)
      requires Inv(State()) && Enabled(State(), Abandon(r))
      modifies `reservations, `released
      ensures State() == Next(old(State()), Abandon(r)) && Inv(State())
    {
      StepKeepsInv(State(), Abandon(r));
      ReleaseReservation(r);
    }

    /** What `add` does after its last await. */
    method RegisterExecution(id: ExecutionId, r: nat, now: int)
      requires Inv(State()) && Enabled(State(), Register(id, r, now))
      modifies `activeExecutions, `records
      ensures State() == Next(old(State()), Register(id, r, now)) && Inv(State())
    {
      StepKeepsInv(State(), Register(id, r, now));
      var startedAt, response := now, None;
      if id in activeExecutions {
        startedAt := records[activeExecutions[id]].startedAt;
        response := records[activeExecutions[id]].response;
      }
      activeExecutions := activeExecutions[id := |records|];
      records := records + [Record(id, Running, startedAt, false, false, r, response)];
    }

    /** `add` with nothing interleaved: a failing call leaves map and records alone and holds no
        capacity, a succeeding one holds exactly one reservation, owned by the new record. */
    method Add(maybeId: Option<ExecutionId>, newId: ExecutionId, outcome: Outcome, now: int) returns (result: AddResult)
      requires Inv(State())
      requires outcome == CreateFails ==> maybeId.None?
      requires outcome == UpdateRefused ==> maybeId.Some?
      modifies this
      ensures Inv(State())
      ensures result.Added? <==> outcome == Succeeds
      ensures result.AlreadyResuming? <==> outcome == UpdateRefused
      ensures !result.Added? ==>
        && activeExecutions == old(activeExecutions) && records == old(records)
        && reserved - released == old(reserved) - old(released)
      ensures result.Added? ==>
        && result.id == (if maybeId.Some? then maybeId.value else newId)
        && |records| == old(|records|) + 1 && records[..old(|records|)] == old(records)
        && activeExecutions == old(activeExecutions)[result.id := old(|records|)]
        && records[old(|records|)] ==
             (if result.id in old(activeExecutions) then
                var resumed := old(records)[old(activeExecutions)[result.id]];
                Record(result.id, Running, resumed.startedAt, false, false, old(|reservations|), resumed.response)
              else
                Record(result.id, Running, now, false, false, old(|reservations|), None))
        && reserved - released == old(reserved) - old(released) + 1
    {
      var r := OpenReservation();
      if outcome == CreateFails || outcome == ReserveFails {
        AbandonAdd(r);
        return Failed;
      }
      Reserve(r);
      if outcome == UpdateThrows || outcome == UpdateRefused {
        AbandonAdd(r);
        return if outcome == UpdateThrows then Failed else AlreadyResuming(maybeId.value);
      }
      var id := if maybeId.Some? then maybeId.value else newId;
      RegisterExecution(id, r, now);
      return Added(id);
    }

    /** The `finally` callback that `add` hung on the promise of record `k`. */
    method RunFinally(k: nat)
      requires Inv(State()) && Enabled(State(), Finally(k))
      modifies this
      ensures State() == Next(old(State()), Finally(k)) && Inv(State())
    {
      StepKeepsInv(State(), Finally(k));
      ReleaseReservation(records[k].reservation);
      if records[k].status != Waiting {
        activeExecutions := activeExecutions - {records[k].id};
      }
      records := records[k := records[k].(finallyRan := true)];
    }

    method AttachResponsePromise(id: ExecutionId, promise: nat) returns (found: bool)
      requires Valid(State())
      modifies `records
      ensures found == (id in activeExecutions)
      ensures State() == Next(old(State()), AttachResponse(id, promise))
    {
      found := id in activeExecutions;
      if found {
        records := records[activeExecutions[id] := records[activeExecutions[id]].(response := Some(promise))];
      }
    }

    method SetStatus(id: ExecutionId, status: Status) returns (found: bool)
      requires Valid(State())
      modifies `records
      ensures found == (id in activeExecutions)
      ensures State() == Next(old(State()), Event.SetStatus(id, status))
    {
      found := id in activeExecutions;
      if found {
        records := records[activeExecutions[id] := records[activeExecutions[id]].(status := status)];
      }
    }

    method StopExecution(id: ExecutionId)
      requires Valid(State())
      modifies `activeExecutions, `records, `answered
      ensures State() == Next(old(State()), Stop(id))
    {
      if id !in activeExecutions { return; }
      var k := activeExecutions[id];
      if records[k].response.Some? {
        answered := answered + {records[k].response.value};
      }
      if records[k].status == Waiting {
        activeExecutions := activeExecutions - {id};
      } else {
        records := records[k := records[k].(settled := true)];
      }
    }

    method FinalizeExecution(id: ExecutionId)
      requires Valid(State())
      modifies `records
      ensures State() == Next(old(State()), Finalize(id))
    {
      if id !in activeExecutions { return; }
      records := records[activeExecutions[id] := records[activeExecutions[id]].(settled := true)];
    }

    method ResolveResponsePromise(id: ExecutionId)
      requires Valid(State())
      modifies `answered
      ensures State() == Next(old(State()), ResolveResponse(id))
    {
      if id in activeExecutions && records[activeExecutions[id]].response.Some? {
        answered := answered + {records[activeExecutions[id]].response.value};
      }
    }

    method ResolveExecutionResponsePromise(id: ExecutionId)
      requires Valid(State())
      modifies `answered
      ensures State() == Next(old(State()), ResolveExecutionResponse(id))
    {
      if id !in activeExecutions { return; }
      var k := activeExecutions[id];
      if records[k].status != Waiting && records[k].response.Some? {
        answered := answered + {records[k].response.value};
      }
    }

    /** The synchronous part of `shutdown`, visiting the keys in any order. Every entry read is still
        there, and every entry present at the call is dropped, cancelled, or left to settle. */
    method Shutdown(cancelAll: bool)
      requires Valid(State())
      modifies `activeExecutions, `records, `answered
      ensures Valid(State()) && Progress(old(State()), State(), {}, regularMode && cancelAll)
    {
      ghost var start := State();
      var ids := activeExecutions.Keys;
      while ids != {}
        invariant Valid(State()) && Progress(start, State(), ids, regularMode && cancelAll)
        invariant ids <= start.active.Keys
        decreases |ids|
      {
        var id :| id in ids;
        ghost var before := State();
        assert Untouched(start, before, id);
        ShutdownOne(id, cancelAll);
        ProgressStep(start, before, State(), ids, id, regularMode && cancelAll);
        ids := ids - {id};
      }
    }

    /** One turn of the loop of `shutdown`. */
    method ShutdownOne(id: ExecutionId, cancelAll: bool)
      requires Valid(State()) && id in activeExecutions
      modifies `activeExecutions, `records, `answered
      ensures Valid(State()) && Turn(old(State()), State(), id, regularMode && cancelAll)
    {
      var status := records[activeExecutions[id]].status;
      if regularMode && cancelAll {
        StopExecution(id);
      } else if status == Waiting || status == New {
        activeExecutions := activeExecutions - {id};
      }
    }
  }

  predicate OnlyTouches(s: Registry, t: Registry, id: ExecutionId)
    requires Valid(s) && id in s.active
  {
    && (t.active == s.active || t.active == s.active - {id})
    && |t.records| == |s.records|
    && forall k :: 0 <= k < |s.records| && k != s.active[id] ==> t.records[k] == s.records[k]
  }

  predicate Turn(s: Registry, t: Registry, id: ExecutionId, cancelled: bool)
    requires Valid(s) && Valid(t) && id in s.active
  {
    && SameHolding(s, t) && OnlyTouches(s, t, id) && Visited(s, t, id, cancelled)
    && (!cancelled ==> t.records == s.records)
  }

  /** The entries still to visit are as they were, the others have been dealt with. */
  predicate Progress(s: Registry, t: Registry, ids: set<ExecutionId>, cancelled: bool)
    requires Valid(s) && Valid(t)
  {
    && t.active.Keys <= s.active.Keys
    && SameHolding(s, t)
    && (!cancelled ==> t.records == s.records)
    && forall id :: id in s.active ==> if id in ids then Untouched(s, t, id) else Visited(s, t, id, cancelled)
  }

  /** A cancelling shutdown leaves only settled, non-waiting entries, so that the callbacks already
      due empty the map (`FinallyLaws.ShutdownDrains`). */
  lemma ShutdownCancels(s: Registry, t: Registry)
    requires Inv(s) && FinallyPending(s) && Valid(t) && Progress(s, t, {}, true)
    ensures Inv(t) && Cancelled(t)
  {
    forall id | id in t.active ensures Due(t.records[t.active[id]]) {
      assert Visited(s, t, id, true);
    }
  }

  /** A shutdown that does not cancel leaves only entries whose run is still going, each with its
      callback to come, as the polling loop needs (`FinallyLaws.EntriesLeaveWithTheirFinally`). */
  lemma ShutdownLeavesRunning(s: Registry, t: Registry)
    requires Inv(s) && FinallyPending(s) && Valid(t) && Progress(s, t, {}, false)
    ensures FinallyLaws.Running(t)
    ensures DueAreCurrent(s) && (forall id :: id in s.active ==> s.records[s.active[id]].status != New) ==>
              DueAreCurrent(t)
  {
    forall id | id in t.active
      ensures t.records[t.active[id]].status != Waiting && !t.records[t.active[id]].finallyRan
    {
      assert Visited(s, t, id, false);
    }
    if DueAreCurrent(s) && (forall id :: id in s.active ==> s.records[s.active[id]].status != New) {
      forall k | 0 <= k < |t.records| && Due(t.records[k]) ensures Current(t, k) {
        assert Current(s, k);
        assert Visited(s, t, t.records[k].id, false);
      }
    }
  }

  lemma ProgressStep(s: Registry, t: Registry, u: Registry, ids: set<ExecutionId>, id: ExecutionId, cancelled: bool)
    requires Valid(s) && Valid(t) && Valid(u) && Progress(s, t, ids, cancelled)
    requires id in ids && id in s.active && id in t.active
    requires Turn(t, u, id, cancelled)
    ensures Progress(s, u, ids - {id}, cancelled)
  {
    assert Untouched(s, t, id);
    forall other | other in s.active
      ensures if other in ids - {id} then Untouched(s, u, other) else Visited(s, u, other, cancelled)
    {
      if other != id {
        OthersKeep(t, u, id, other);
        assert if other in ids then Untouched(s, t, other) else Visited(s, t, other, cancelled);
      }
    }
  }

  predicate Untouched(s: Registry, t: Registry, id: ExecutionId)
    requires Valid(s) && Valid(t)
  {
    && id in s.active && id in t.active && t.active[id] == s.active[id]
    && t.records[t.active[id]] == s.records[s.active[id]]
  }

  /** What the shutdown loop makes of the entry `id`. */
  predicate Visited(s: Registry, t: Registry, id: ExecutionId, cancelled: bool)
    requires Valid(s) && Valid(t) && id in s.active
  {
    var was := s.records[s.active[id]];
    if cancelled then
      if was.status == Waiting then id !in t.active
      else id in t.active && t.active[id] == s.active[id] && t.records[t.active[id]] == was.(settled := true)
    else
      if was.status in {Waiting, New} then id !in t.active else Untouched(s, t, id)
  }

  /** One turn of the loop touches the entry and the record of its own id only. */
  lemma OthersKeep(s: Registry, t: Registry, id: ExecutionId, other: ExecutionId)
    requires Valid(s) && Valid(t) && id in s.active && other != id
    requires OnlyTouches(s, t, id)
    ensures other in s.active <==> other in t.active
    ensures other in s.active ==> Untouched(s, t, other)
  {
    if other in s.active {
      assert s.records[s.active[other]].id == other;
    }
  }
}

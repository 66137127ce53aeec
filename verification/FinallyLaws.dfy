/** What the late `finally` callbacks of `ActiveExecutions.add` do to the map: when they remove the
    entry of another record, when they leave none behind, and how `shutdown` waits for them. */
module FinallyLaws {
  import opened ExecutionRegistry
  import opened RegistryLaws

  // ---------------------------------------------------------------- late callbacks

  /** Its callback is still to run and will delete the entry of its id. */
  predicate Due(rec: Record) {
    rec.settled && !rec.finallyRan && rec.status != Waiting
  }

  predicate DueAreCurrent(s: Registry)
    requires Valid(s)
  {
    forall k :: 0 <= k < |s.records| && Due(s.records[k]) ==> Current(s, k)
  }

  /** Registering over, or dropping, a record whose callback is due. */
  predicate Displaces(s: Registry, e: Event)
    requires Valid(s)
  {
    match e
    case Register(id, _, _) => id in s.active && Due(s.records[s.active[id]])
    case Drop(id) => id in s.active && s.records[s.active[id]].status == New && Due(s.records[s.active[id]])
    case _ => false
  }

  /** A callback deletes the entry of another record if and only if it is due and its own record is
      no longer in the map. */
  lemma FinallyEvictsExactlyWhen(s: Registry, k: nat, id: ExecutionId)
    requires Valid(s) && Enabled(s, Finally(k)) && id in s.active && s.active[id] != k
    ensures id !in Next(s, Finally(k)).active <==> Due(s.records[k]) && s.records[k].id == id
  {
  }

  lemma RegisterKeepsDueCurrent(s: Registry, id: ExecutionId, r: nat, now: int)
    requires Valid(s) && DueAreCurrent(s) && Enabled(s, Register(id, r, now))
    ensures DueAreCurrent(AddRecord(s, id, r, now)) <==> !Displaces(s, Register(id, r, now))
  {
    var t := AddRecord(s, id, r, now);
    assert t.records == s.records + [t.records[|s.records|]];
    if Displaces(s, Register(id, r, now)) {
      var k := s.active[id];
      assert Due(t.records[k]) && !Current(t, k);
    } else {
      forall k | 0 <= k < |s.records| && Due(s.records[k]) ensures Current(t, k) {
        assert Current(s, k);
      }
    }
  }

  lemma FinallyKeepsDueCurrent(s: Registry, j: nat)
    requires Valid(s) && DueAreCurrent(s) && Enabled(s, Finally(j))
    ensures DueAreCurrent(FinallyAt(s, j))
  {
    var t := FinallyAt(s, j);
    assert t.records == s.records[j := s.records[j].(finallyRan := true)];
    forall k | 0 <= k < |s.records| && Due(t.records[k]) ensures Current(t, k) {
      assert k != j && Current(s, k);
      if Due(s.records[j]) { assert Current(s, j); }
    }
  }

  lemma DropKeepsDueCurrent(s: Registry, id: ExecutionId)
    requires Valid(s) && DueAreCurrent(s)
    ensures DueAreCurrent(Next(s, Drop(id))) <==> !Displaces(s, Drop(id))
  {
    var t := Next(s, Drop(id));
    if Displaces(s, Drop(id)) {
      assert Due(t.records[s.active[id]]) && !Current(t, s.active[id]);
    }
  }

  lemma OtherStepsKeepDueCurrent(s: Registry, e: Event)
    requires Valid(s) && DueAreCurrent(s) && Local(e) && !e.Drop?
    ensures DueAreCurrent(Next(s, e))
  {
    var t := Next(s, e);
    if e.id in s.active {
      var k := s.active[e.id];
      assert forall j :: 0 <= j < |s.records| && j != k ==> t.records[j] == s.records[j];
      assert forall j :: 0 <= j < |s.records| && Current(s, j) && j != k ==> Current(t, j);
    }
  }

  lemma KeepsDueCurrentExactlyWhen(s: Registry, e: Event)
    requires Valid(s) && DueAreCurrent(s) && Enabled(s, e)
    ensures DueAreCurrent(Next(s, e)) <==> !Displaces(s, e)
  {
    match e
    case Register(id, r, now) => RegisterKeepsDueCurrent(s, id, r, now);
    case Finally(j) => FinallyKeepsDueCurrent(s, j);
    case Drop(id) => DropKeepsDueCurrent(s, id);
    case _ => if Local(e) { OtherStepsKeepDueCurrent(s, e); }
  }

  predicate DisplacesNone(s: Registry, es: seq<Event>)
    requires Valid(s) && IsRun(s, es)
    decreases |es|
  {
    es == [] || (!Displaces(s, es[0]) && DisplacesNone(Next(s, es[0]), es[1..]))
  }

  /** Over any number of wait/resume cycles, with stops, drops and reported statuses at any moment: as
      long as no record is replaced or dropped while its callback is due, a callback deletes the entry
      of its own record or none. */
  lemma {:induction false} LateFinallyNeverEvicts(s: Registry, es: seq<Event>)
    requires Valid(s) && DueAreCurrent(s) && IsRun(s, es) && DisplacesNone(s, es)
    ensures var t := After(s, es);
            && DueAreCurrent(t)
            && forall k :: 0 <= k < |t.records| && Enabled(t, Finally(k)) ==>
                 if t.records[k].status == Waiting then Next(t, Finally(k)).active == t.active
                 else Current(t, k) && Next(t, Finally(k)).active == t.active - {t.records[k].id}
    decreases |es|
  {
    if es != [] {
      KeepsDueCurrentExactlyWhen(s, es[0]);
      LateFinallyNeverEvicts(Next(s, es[0]), es[1..]);
    } else {
      forall k | 0 <= k < |s.records| && Enabled(s, Finally(k)) && s.records[k].status != Waiting
        ensures Current(s, k)
      {
        assert Due(s.records[k]);
      }
    }
  }

  /** Otherwise the callback of the replaced record deletes the entry of its replacement. */
  lemma DisplacedEvicts(s: Registry, id: ExecutionId, r: nat, now: int)
    requires Valid(s) && Enabled(s, Register(id, r, now)) && Displaces(s, Register(id, r, now))
    ensures var k, t := s.active[id], Next(s, Register(id, r, now));
            && t.active[id] == |s.records| && Enabled(t, Finally(k))
            && id !in Next(t, Finally(k)).active
  {
    var t := Next(s, Register(id, r, now));
    assert t.records == s.records + [t.records[|s.records|]];
    FinallyEvictsExactlyWhen(t, s.active[id], id);
  }

  // ---------------------------------------------------------------- the disciplined life cycle

  /** A finished record stays findable only while it waits. */
  predicate FinallyPending(s: Registry)
    requires Valid(s)
  {
    forall id :: id in s.active && s.records[s.active[id]].finallyRan ==> s.records[s.active[id]].status == Waiting
  }

  /** A run that is over reports a status. */
  predicate ReportsLate(s: Registry, e: Event)
    requires Valid(s)
  {
    e.SetStatus? && e.status != Waiting && e.id in s.active && s.records[s.active[e.id]].finallyRan
  }

  lemma KeepsFinallyPendingExactlyWhen(s: Registry, e: Event)
    requires Valid(s) && FinallyPending(s) && Enabled(s, e)
    ensures FinallyPending(Next(s, e)) <==> !ReportsLate(s, e)
  {
    match e
    case Register(id, r, now) => RegisterKeepsFinallyPending(s, id, r, now);
    case Finally(j) => FinallyKeepsFinallyPending(s, j);
    case SetStatus(id, _) => if ReportsLate(s, e) { assert id in Next(s, e).active; }
    case _ =>
  }

  lemma RegisterKeepsFinallyPending(s: Registry, id: ExecutionId, r: nat, now: int)
    requires Valid(s) && FinallyPending(s) && Enabled(s, Register(id, r, now))
    ensures FinallyPending(AddRecord(s, id, r, now))
  {
    var t := AddRecord(s, id, r, now);
    assert t.records == s.records + [t.records[|s.records|]];
  }

  lemma FinallyKeepsFinallyPending(s: Registry, j: nat)
    requires Valid(s) && FinallyPending(s) && Enabled(s, Finally(j))
    ensures FinallyPending(FinallyAt(s, j))
  {
    var t := FinallyAt(s, j);
    assert t.records == s.records[j := s.records[j].(finallyRan := true)];
  }

  /** A resume registers only over a finalized record whose callback is not due, a stop or drop of an
      entry that it removes comes after its finalization, and no status is reported after the end. */
  predicate Careful(s: Registry, e: Event)
    requires Valid(s)
  {
    match e
    case Register(id, _, _) =>
      id in s.active ==> s.records[s.active[id]].settled && !Due(s.records[s.active[id]])
    case Stop(id) => id in s.active && s.records[s.active[id]].status == Waiting ==> s.records[s.active[id]].settled
    case Drop(id) =>
      id in s.active && s.records[s.active[id]].status in {Waiting, New} ==>
        s.records[s.active[id]].settled && !Due(s.records[s.active[id]])
    case SetStatus(_, _) => !ReportsLate(s, e)
    case _ => true
  }

  predicate IsCarefulRun(s: Registry, es: seq<Event>)
    requires Valid(s) && IsRun(s, es)
    decreases |es|
  {
    es == [] || (Careful(s, es[0]) && IsCarefulRun(Next(s, es[0]), es[1..]))
  }

  predicate Tidy(s: Registry)
    requires Valid(s)
  {
    NoOrphans(s) && DueAreCurrent(s) && FinallyPending(s)
  }

  lemma CarefulKeepsSight(s: Registry, e: Event, k: nat)
    requires Valid(s) && DueAreCurrent(s) && Enabled(s, e) && Careful(s, e) && k < |s.records|
    ensures !LosesSightOf(s, e, k)
  {
    if e.Finally? && Due(s.records[e.k]) { assert Current(s, e.k); }
  }

  lemma CarefulStepKeepsTidy(s: Registry, e: Event)
    requires Inv(s) && Tidy(s) && Enabled(s, e) && Careful(s, e)
    ensures Tidy(Next(s, e))
  {
    KeepsDueCurrentExactlyWhen(s, e);
    KeepsFinallyPendingExactlyWhen(s, e);
    NoOrphanIsMade(s, e);
  }

  lemma NoOrphanIsMade(s: Registry, e: Event)
    requires Inv(s) && NoOrphans(s) && DueAreCurrent(s) && Enabled(s, e) && Careful(s, e)
    ensures NoOrphans(Next(s, e))
  {
    RecordsOnlyGrow(s, e);
    forall k | 0 <= k < |s.records| ensures !Orphan(Next(s, e), k) {
      CarefulKeepsSight(s, e, k);
      OrphanedExactlyWhen(s, e, k);
    }
  }

  /** In such runs no capacity is ever out of reach, and what the callbacks find is their own. */
  lemma {:induction false} CarefulRunKeepsTidy(s: Registry, es: seq<Event>)
    requires Inv(s) && Tidy(s) && IsRun(s, es) && IsCarefulRun(s, es)
    ensures Inv(After(s, es)) && Tidy(After(s, es))
    decreases |es|
  {
    if es != [] {
      CarefulStepKeepsTidy(s, es[0]);
      StepKeepsInv(s, es[0]);
      CarefulRunKeepsTidy(Next(s, es[0]), es[1..]);
    }
  }

  // ---------------------------------------------------------------- draining at shutdown

  /** Every `finally` that is due has run. */
  predicate Quiescent(s: Registry) {
    forall k :: 0 <= k < |s.records| && s.records[k].settled ==> s.records[k].finallyRan
  }

  /** What a cancelling shutdown leaves: entries that only wait for their callback. */
  predicate Cancelled(s: Registry)
    requires Valid(s)
  {
    forall id :: id in s.active ==> Due(s.records[s.active[id]])
  }

  /** A new execution, or one that starts to wait: what keeps the polling loop going. */
  predicate Prolongs(s: Registry, e: Event) {
    e.Register? || (e.SetStatus? && e.status == Waiting && e.id in s.active)
  }

  lemma StaysCancelledExactlyWhen(s: Registry, e: Event)
    requires Valid(s) && Cancelled(s) && Enabled(s, e)
    ensures Cancelled(Next(s, e)) <==> !Prolongs(s, e)
  {
    var t := Next(s, e);
    match e
    case Register(id, r, now) => assert id in t.active && !Due(t.records[t.active[id]]);
    case Finally(j) => assert t.records == s.records[j := s.records[j].(finallyRan := true)];
    case SetStatus(id, _) => if id in s.active { assert id in t.active; }
    case _ =>
  }

  predicate Winding(e: Event) {
    !e.Register? && !(e.SetStatus? && e.status == Waiting)
  }

  /** Once everything in the map has been cancelled, and whatever else is called except for a new
      execution or a new wait, the map is empty when the due callbacks have run, in any order: the
      polling loop of `shutdown` ends. */
  lemma {:induction false} ShutdownDrains(s: Registry, es: seq<Event>)
    requires Valid(s) && Cancelled(s) && IsRun(s, es)
    requires forall i :: 0 <= i < |es| ==> Winding(es[i])
    ensures Cancelled(After(s, es))
    ensures Quiescent(After(s, es)) ==> After(s, es).active == map[]
    decreases |es|
  {
    if es == [] {
      if s.active != map[] {
        var id :| id in s.active;
        assert Due(s.records[s.active[id]]);
      }
    } else {
      StaysCancelledExactlyWhen(s, es[0]);
      ShutdownDrains(Next(s, es[0]), es[1..]);
    }
  }

  /** What a shutdown that does not cancel leaves: entries of runs that are still going. */
  predicate Running(s: Registry)
    requires Valid(s)
  {
    forall id :: id in s.active ==> s.records[s.active[id]].status != Waiting && !s.records[s.active[id]].finallyRan
  }

  /** Of the entries of `s`, those remain in `t` whose callback has not run. */
  predicate Remaining(s: Registry, t: Registry)
    requires Valid(s) && Valid(t)
  {
    && |s.records| <= |t.records| && t.active.Keys <= s.active.Keys
    && forall id :: id in s.active ==>
         && (id in t.active <==> !t.records[s.active[id]].finallyRan)
         && (id in t.active ==> t.active[id] == s.active[id])
  }

  /** The callback of a record in the map removes its entry; that of a waiting one, removed before or
      replaced, changes no entry. */
  lemma FinallyRemoves(t: Registry, j: nat)
    requires Valid(t) && Running(t) && DueAreCurrent(t) && Enabled(t, Finally(j))
    ensures var u := FinallyAt(t, j);
            && u.records == t.records[j := t.records[j].(finallyRan := true)]
            && u.active == (if Current(t, j) then t.active - {t.records[j].id} else t.active)
  {
    if Due(t.records[j]) { assert Current(t, j); }
  }

  lemma RemovalRemains(s: Registry, t: Registry, u: Registry, j: nat)
    requires Valid(s) && Valid(t) && Valid(u) && Running(t) && Remaining(s, t) && j < |t.records|
    requires !t.records[j].finallyRan && u.records == t.records[j := t.records[j].(finallyRan := true)]
    requires u.active == (if Current(t, j) then t.active - {t.records[j].id} else t.active)
    ensures Running(u) && Remaining(s, u)
  {
    forall id | id in s.active
      ensures id in u.active <==> !u.records[s.active[id]].finallyRan
      ensures id in u.active ==> u.active[id] == s.active[id]
    {
      if id in t.active && s.active[id] == j { assert Current(t, j); }
    }
  }

  /** The other steps change no entry and no callback. */
  predicate SameEntries(t: Registry, u: Registry) {
    && u.active == t.active && |t.records| <= |u.records|
    && forall k :: 0 <= k < |t.records| ==> u.records[k].finallyRan == t.records[k].finallyRan
  }

  lemma WindingKeepsEntries(t: Registry, e: Event)
    requires Valid(t) && Running(t) && Enabled(t, e) && Winding(e) && !e.Drop? && !e.Finally?
    ensures SameEntries(t, Next(t, e)) && Running(Next(t, e))
  {
    if Local(e) { LocalStepsHold(t, e); } else { assert e.OpenReservation? || e.Acquire? || e.Abandon?; }
  }

  lemma SameEntriesRemain(s: Registry, t: Registry, u: Registry)
    requires Valid(s) && Valid(t) && Valid(u) && Remaining(s, t) && SameEntries(t, u)
    ensures Remaining(s, u)
  {
  }

  /** Over any run without a new execution or a new wait, an entry leaves the map exactly with the
      callback of its record: the polling loop ends when the last of them has run, not before. */
  lemma {:induction false} EntriesLeaveWithTheirFinally(s: Registry, t: Registry, es: seq<Event>)
    requires Valid(s) && Valid(t) && Running(t) && DueAreCurrent(t) && Remaining(s, t) && IsRun(t, es)
    requires forall i :: 0 <= i < |es| ==> Winding(es[i]) && !es[i].Drop?
    ensures Remaining(s, After(t, es))
    ensures After(t, es).active == map[] <==>
            forall id :: id in s.active ==> After(t, es).records[s.active[id]].finallyRan
    decreases |es|
  {
    if es != [] {
      var e := es[0];
      KeepsDueCurrentExactlyWhen(t, e);
      if e.Finally? {
        FinallyRemoves(t, e.k);
        RemovalRemains(s, t, Next(t, e), e.k);
      } else {
        WindingKeepsEntries(t, e);
        SameEntriesRemain(s, t, Next(t, e));
      }
      EntriesLeaveWithTheirFinally(s, Next(t, e), es[1..]);
    } else {
      if t.active == map[] {
        forall id | id in s.active ensures t.records[s.active[id]].finallyRan {
          assert id !in t.active;
        }
      }
    }
  }
}

/** Which executions have an armed timer, over every run of a `WaitTracker`. */
module WaitTrackerLaws {
  import opened WaitTracker

  datatype Event =
    | Polled(rows: seq<Row>, now: int)
    | Fires(k: nat)
    | Started(id: ExecutionId)     // resumed without its timer, by a finished child
    | Stopped(id: ExecutionId)
    | TakeOver
    | StepDown

  const EMPTY := Tracker(map[], [], false)

  predicate Enabled(s: Tracker, e: Event) {
    e.Fires? ==> e.k < |s.timers| && s.timers[e.k].phase == Armed
  }

  function Next(s: Tracker, e: Event): (t: Tracker)
    requires Valid(s) && Enabled(s, e)
    ensures Valid(t)
  {
    match e
    case Polled(rows, now) => PollEach(s, rows, now)
    case Fires(k) => Fire(s, k)
    case Started(id) => Forget(s, id)
    case Stopped(id) => Stop(s, id)
    case TakeOver => s.(started := true)
    case StepDown => ClearAll(s)
  }

  predicate IsRun(s: Tracker, es: seq<Event>)
    requires Valid(s)
    decreases |es|
  {
    es == [] || (Enabled(s, es[0]) && IsRun(Next(s, es[0]), es[1..]))
  }

  function After(s: Tracker, es: seq<Event>): (t: Tracker)
    requires Valid(s) && IsRun(s, es)
    ensures Valid(t)
    decreases |es|
  {
    if es == [] then s else After(Next(s, es[0]), es[1..])
  }

  // ---------------------------------------------------------------- entries and armed timers

  /** Every entry has an armed timer, and every armed timer is that of an entry. */
  predicate OneTimerEach(s: Tracker)
    requires Valid(s)
  {
    forall k :: 0 <= k < |s.timers| ==> (Tracked(s, k) <==> s.timers[k].phase == Armed)
  }

  lemma AtMostOneArmed(s: Tracker, j: nat, k: nat)
    requires Valid(s) && OneTimerEach(s)
    requires j < |s.timers| && k < |s.timers| && s.timers[j].phase == s.timers[k].phase == Armed
    requires s.timers[j].id == s.timers[k].id
    ensures j == k
  {
    assert Tracked(s, j) && Tracked(s, k);
  }

  /** Stepping down with entries, or resuming an execution past its timer. */
  predicate Disturbs(s: Tracker, e: Event) {
    || (e.StepDown? && s.started && s.waiting != map[])
    || (e.Started? && e.id in s.waiting)
  }

  lemma PollKeepsOneTimerEach(s: Tracker, rows: seq<Row>, now: int)
    requires Valid(s) && OneTimerEach(s)
    ensures OneTimerEach(PollEach(s, rows, now))
  {
    var t := PollEach(s, rows, now);
    PollArmsExactlyTheMissing(s, rows, now);
    forall k | 0 <= k < |t.timers| ensures Tracked(t, k) <==> t.timers[k].phase == Armed {
      if k < |s.timers| {
        assert t.timers[k] == s.timers[k];
        if Tracked(t, k) && t.timers[k].id !in s.waiting {
          NewEntriesHaveNewTimers(s, rows, now, t.timers[k].id);
        }
      }
    }
  }

  /** An entry made by a poll holds a timer made by that poll. */
  lemma {:induction false} NewEntriesHaveNewTimers(s: Tracker, rows: seq<Row>, now: int, id: ExecutionId)
    requires Valid(s) && id !in s.waiting && id in PollEach(s, rows, now).waiting
    ensures PollEach(s, rows, now).waiting[id] >= |s.timers|
    decreases |rows|
  {
    var u := Poll(s, rows[0], now);
    if id in u.waiting {
      PollArmsExactlyTheMissing(u, rows[1..], now);
    } else {
      NewEntriesHaveNewTimers(u, rows[1..], now, id);
    }
  }

  lemma StepDownDisturbs(s: Tracker)
    requires Valid(s) && OneTimerEach(s)
    ensures OneTimerEach(ClearAll(s)) <==> !Disturbs(s, StepDown)
  {
    var t := ClearAll(s);
    if s.started && s.waiting != map[] {
      var id :| id in s.waiting;
      var k := s.waiting[id];
      assert Tracked(s, k) && Tracked(t, k) && t.timers[k].phase != Armed;
    } else {
      assert t == s || s.waiting == map[];
      assert forall k :: 0 <= k < |s.timers| ==> !Tracked(s, k) || t == s;
    }
  }

  lemma StartDisturbs(s: Tracker, id: ExecutionId)
    requires Valid(s) && OneTimerEach(s)
    ensures OneTimerEach(Forget(s, id)) <==> !Disturbs(s, Started(id))
  {
    var t := Forget(s, id);
    if id in s.waiting {
      var k := s.waiting[id];
      assert Tracked(s, k) && !Tracked(t, k);
    } else {
      assert t.waiting == s.waiting;
    }
  }

  /** "Entry if and only if armed timer" survives a step if and only if the step is not one of these
      two. */
  lemma KeepsOneTimerEachExactlyWhen(s: Tracker, e: Event)
    requires Valid(s) && OneTimerEach(s) && Enabled(s, e)
    ensures OneTimerEach(Next(s, e)) <==> !Disturbs(s, e)
  {
    match e
    case Polled(rows, now) => PollKeepsOneTimerEach(s, rows, now);
    case Fires(k) => assert Tracked(s, k);
    case Started(id) => StartDisturbs(s, id);
    case Stopped(id) => if id in s.waiting { assert Tracked(s, s.waiting[id]); }
    case TakeOver => assert forall k :: 0 <= k < |s.timers| ==> Tracked(Next(s, e), k) == Tracked(s, k);
    case StepDown => StepDownDisturbs(s);
  }

  predicate Undisturbed(s: Tracker, es: seq<Event>)
    requires Valid(s) && IsRun(s, es)
    decreases |es|
  {
    es == [] || (!Disturbs(s, es[0]) && Undisturbed(Next(s, es[0]), es[1..]))
  }

  lemma {:induction false} OneTimerEachThroughout(s: Tracker, es: seq<Event>)
    requires Valid(s) && OneTimerEach(s) && IsRun(s, es) && Undisturbed(s, es)
    ensures OneTimerEach(After(s, es))
    decreases |es|
  {
    if es != [] {
      KeepsOneTimerEachExactlyWhen(s, es[0]);
      OneTimerEachThroughout(Next(s, es[0]), es[1..]);
    }
  }

  // ---------------------------------------------------------------- what each step does to whom

  predicate Disarms(s: Tracker, e: Event, k: nat)
    requires Valid(s) && k < |s.timers|
  {
    match e
    case Fires(j) => j == k
    case Stopped(id) => s.timers[k].id == id && Tracked(s, k)
    case StepDown => s.started && Tracked(s, k)
    case _ => false
  }

  lemma TimersChangeExactlyWhen(s: Tracker, e: Event, k: nat)
    requires Valid(s) && Enabled(s, e) && k < |s.timers|
    ensures var was, t := s.timers[k], Next(s, e);
            && k < |t.timers| && t.timers[k].id == was.id && t.timers[k].delay == was.delay
            && (t.timers[k].phase == Armed <==> was.phase == Armed && !Disarms(s, e, k))
            && (t.timers[k].phase == Fired <==> was.phase == Fired || e == Fires(k))
  {
    if e.Polled? { PollExtends(s, e.rows, e.now); }
  }

  predicate Forgets(s: Tracker, e: Event, id: ExecutionId)
    requires Enabled(s, e)
  {
    e == Stopped(id) || e == Started(id) || (e.Fires? && s.timers[e.k].id == id)
  }

  lemma EntriesChangeExactlyWhen(s: Tracker, e: Event, id: ExecutionId)
    requires Valid(s) && Enabled(s, e)
    ensures var t := Next(s, e);
            && (id in t.waiting <==> (id in s.waiting && !Forgets(s, e, id)) || (e.Polled? && id in Ids(e.rows)))
            && (id in s.waiting && id in t.waiting ==> t.waiting[id] == s.waiting[id])
  {
    if e.Polled? { PollArmsExactlyTheMissing(s, e.rows, e.now); }
  }

  predicate Quiet(s: Tracker, id: ExecutionId) {
    forall k :: 0 <= k < |s.timers| && s.timers[k].id == id ==> s.timers[k].phase != Armed
  }

  predicate Lists(e: Event, id: ExecutionId) {
    e.Polled? && id in Ids(e.rows)
  }

  lemma StepKeepsQuiet(s: Tracker, e: Event, id: ExecutionId)
    requires Valid(s) && Enabled(s, e) && Quiet(s, id) && !Lists(e, id)
    ensures Quiet(Next(s, e), id)
  {
    var t := Next(s, e);
    if e.Polled? { PollArmsExactlyTheMissing(s, e.rows, e.now); }
    forall k | 0 <= k < |t.timers| && t.timers[k].id == id ensures t.timers[k].phase != Armed {
      if k < |s.timers| { TimersChangeExactlyWhen(s, e, k); }
    }
  }

  lemma {:induction false} RunKeepsQuiet(s: Tracker, es: seq<Event>, id: ExecutionId)
    requires Valid(s) && IsRun(s, es) && Quiet(s, id)
    requires forall e :: e in es ==> !Lists(e, id)
    ensures Quiet(After(s, es), id)
    decreases |es|
  {
    if es != [] {
      StepKeepsQuiet(s, es[0], id);
      RunKeepsQuiet(Next(s, es[0]), es[1..], id);
    }
  }

  /** A stopped execution is not resumed by any of its timers, over every run in which no poll lists it
      again. */
  lemma StoppedStaysQuiet(s: Tracker, es: seq<Event>, id: ExecutionId)
    requires Valid(s) && OneTimerEach(s) && IsRun(Next(s, Stopped(id)), es)
    requires forall e :: e in es ==> !Lists(e, id)
    ensures Quiet(After(Next(s, Stopped(id)), es), id)
  {
    var t := Next(s, Stopped(id));
    forall k | 0 <= k < |t.timers| && t.timers[k].id == id ensures t.timers[k].phase != Armed {
      TimersChangeExactlyWhen(s, Stopped(id), k);
    }
    RunKeepsQuiet(t, es, id);
  }

  // ---------------------------------------------------------------- stranded executions

  /** It has an entry, so no poll will set a timer, and no timer that is still to fire. */
  predicate Stranded(s: Tracker, id: ExecutionId) {
    id in s.waiting && Quiet(s, id)
  }

  /** Stepping down strands every execution whose timers all belong to its entry. */
  lemma StepDownStrandsExactly(s: Tracker, id: ExecutionId)
    requires Valid(s) && s.started
    ensures Stranded(Next(s, StepDown), id) <==>
            && id in s.waiting
            && forall k :: 0 <= k < |s.timers| && s.timers[k].id == id && s.timers[k].phase == Armed ==> Tracked(s, k)
  {
    var t := ClearAll(s);
    assert forall k :: 0 <= k < |s.timers| ==>
             t.timers[k].id == s.timers[k].id
             && (t.timers[k].phase == Armed <==> s.timers[k].phase == Armed && !Tracked(s, k));
  }

  lemma PollKeepsStranded(s: Tracker, rows: seq<Row>, now: int, id: ExecutionId)
    requires Valid(s) && Stranded(s, id)
    ensures Stranded(PollEach(s, rows, now), id)
  {
    var t := PollEach(s, rows, now);
    PollArmsExactlyTheMissing(s, rows, now);
    forall k | 0 <= k < |t.timers| && t.timers[k].id == id ensures t.timers[k].phase != Armed {
      if k < |s.timers| { assert t.timers[k] == s.timers[k]; }
    }
  }

  /** Taking the leadership back does not help, nor does any poll: a stranded execution is resumed by
      this tracker only after it has been stopped or started by hand. */
  lemma StaysStrandedExactlyWhen(s: Tracker, e: Event, id: ExecutionId)
    requires Valid(s) && Enabled(s, e) && Stranded(s, id)
    ensures Stranded(Next(s, e), id) <==> e != Started(id) && e != Stopped(id)
  {
    if e.Polled? { PollKeepsStranded(s, e.rows, e.now, id); }
  }

  lemma {:induction false} StrandedUntilTouched(s: Tracker, es: seq<Event>, id: ExecutionId)
    requires Valid(s) && IsRun(s, es) && Stranded(s, id)
    requires forall k :: 0 <= k < |es| ==> es[k] != Started(id) && es[k] != Stopped(id)
    ensures Stranded(After(s, es), id)
    decreases |es|
  {
    if es != [] {
      StaysStrandedExactlyWhen(s, es[0], id);
      StrandedUntilTouched(Next(s, es[0]), es[1..], id);
    }
  }

  /** A child that resumes its parent before the parent's timer fires leaves that timer armed; once
      the parent waits again it has two. */
  lemma TwoTimersForOne(id: ExecutionId, first: int, second: int)
    ensures var rows, again := [Row(id, first)], [Row(id, second)];
            var s := Next(Next(Next(EMPTY, Polled(rows, 0)), Started(id)), Polled(again, 0));
            s == Tracker(map[id := 1], [Timer(id, first, Armed), Timer(id, second, Armed)], false)
  {
    var rows, again := [Row(id, first)], [Row(id, second)];
    assert rows[1..] == [] && again[1..] == [];
    var s1 := Poll(EMPTY, rows[0], 0);
    assert PollEach(s1, rows[1..], 0) == s1;
    assert s1 == Tracker(map[id := 0], [Timer(id, first, Armed)], false);
    var s2 := Next(s1, Started(id));
    assert s2 == Tracker(map[], [Timer(id, first, Armed)], false);
    var s3 := Poll(s2, again[0], 0);
    assert PollEach(s3, again[1..], 0) == s3;
    assert s3 == Tracker(map[id := 1], [Timer(id, first, Armed), Timer(id, second, Armed)], false);
  }
}

/** What every interleaving of the resume protocol guarantees. */
module ResumeLaws {
  import opened Wrappers
  import opened R = ExecutionRegistry
  import opened RegistryLaws
  import opened ResumeProtocol

  // ---------------------------------------------------------------- one resume per epoch

  predicate WinsAreOver(s: State) {
    forall i :: 0 <= i < |s.wins| ==>
      && s.wins[i].id in s.db
      && s.wins[i].epoch <= s.db[s.wins[i].id].epoch
      && (s.wins[i].epoch == s.db[s.wins[i].id].epoch ==> s.db[s.wins[i].id].status != Waiting)
  }

  predicate OneWinPerEpoch(s: State) {
    forall i, j :: 0 <= i < j < |s.wins| ==>
      (s.wins[i].id, s.wins[i].epoch) != (s.wins[j].id, s.wins[j].epoch)
  }

  lemma CommitKeepsWins(s: State, a: nat)
    requires ResumeProtocol.Valid(s) && ResumeProtocol.Enabled(s, Commit(a))
    requires WinsAreOver(s) && OneWinPerEpoch(s)
    ensures WinsAreOver(Do(s, Commit(a))) && OneWinPerEpoch(Do(s, Commit(a)))
  {
    var t := Do(s, Commit(a));
    if t.wins != s.wins {
      assert t.wins == s.wins + [t.wins[|s.wins|]];
    }
  }

  /** No row starts waiting except in a new epoch. */
  predicate WaitsOnlyAnew(s: State, t: State) {
    forall id :: id in s.db ==>
      && id in t.db && t.db[id].epoch >= s.db[id].epoch
      && (t.db[id].epoch == s.db[id].epoch && t.db[id].status == Waiting ==> s.db[id].status == Waiting)
  }

  lemma QuietStepKeepsWins(s: State, t: State)
    requires WinsAreOver(s) && OneWinPerEpoch(s)
    requires t.wins == s.wins && WaitsOnlyAnew(s, t)
    ensures WinsAreOver(t) && OneWinPerEpoch(t)
  {
  }

  lemma StepKeepsWins(s: State, e: Step)
    requires ResumeProtocol.Valid(s) && ResumeProtocol.Enabled(s, e)
    requires WinsAreOver(s) && OneWinPerEpoch(s)
    ensures WinsAreOver(Do(s, e)) && OneWinPerEpoch(Do(s, e))
  {
    match e
    case Commit(a) => CommitKeepsWins(s, a);
    case _ => QuietStepKeepsWins(s, Do(s, e));
  }

  /** Whatever the processes, timers, orphaned timers and children do, and whatever else is written
      to the rows, each waiting epoch of an execution is resumed by at most one `add`. */
  lemma {:induction false} ResumedAtMostOnce(s: State, es: seq<Step>)
    requires ResumeProtocol.Valid(s) && ResumeProtocol.IsRun(s, es)
    requires WinsAreOver(s) && OneWinPerEpoch(s)
    ensures WinsAreOver(ResumeProtocol.After(s, es)) && OneWinPerEpoch(ResumeProtocol.After(s, es))
    decreases |es|
  {
    if es != [] {
      StepKeepsWins(s, es[0]);
      ResumedAtMostOnce(Do(s, es[0]), es[1..]);
    }
  }

  predicate Holds(att: Attempt, p: nat) {
    att.proc == p && (att.stage.Reserved? || att.stage.Committed?)
  }

  /** The conditional update refuses an attempt if and only if the row does not wait. */
  lemma LosesExactlyWhen(s: State, a: nat)
    requires ResumeProtocol.Valid(s) && ResumeProtocol.Enabled(s, Commit(a)) && !s.attempts[a].cause.Fresh?
    ensures Do(s, Commit(a)).attempts[a].stage.Lost? <==> !Wins(s, a)
  {
  }

  /** The steps a resume attempt takes itself, up to and including the one that fails it. */
  predicate StepOfALoser(s: State, e: Step, a: nat)
    requires ResumeProtocol.Valid(s) && ResumeProtocol.Enabled(s, e) && a < |s.attempts|
  {
    || e == Load(a) || e == Begin(a) || e == Throttle(a) || e == Abort(a)
    || (e == Commit(a) && Do(s, e).attempts[a].stage.Lost?)
  }

  function HeldBy(s: State, a: nat): int
    requires a < |s.attempts|
  {
    if Holds(s.attempts[a], s.attempts[a].proc) then 1 else 0
  }

  predicate NoTrace(s: State, t: State, a: nat)
    requires a < |s.attempts|
  {
    && t.db == s.db && t.bases == s.bases && t.wins == s.wins && |t.procs| == |s.procs|
    && |t.attempts| == |s.attempts| && t.attempts[a].proc == s.attempts[a].proc
    && (forall b :: 0 <= b < |s.attempts| && b != a ==> t.attempts[b] == s.attempts[b])
    && (forall q :: 0 <= q < |s.procs| ==>
          && t.procs[q].active == s.procs[q].active && t.procs[q].records == s.procs[q].records
          && t.procs[q].answered == s.procs[q].answered
          && t.procs[q].reserved - t.procs[q].released ==
             s.procs[q].reserved - s.procs[q].released
             + if q == s.attempts[a].proc then HeldBy(t, a) - HeldBy(s, a) else 0)
  }

  lemma ReservingLeavesNoTrace(reg: Registry, e: Event)
    requires R.Valid(reg) && R.Enabled(reg, e) && (e.OpenReservation? || e.Acquire? || e.Abandon?)
    ensures var t := Next(reg, e);
            && t.active == reg.active && t.records == reg.records && t.answered == reg.answered
            && t.reserved - t.released == reg.reserved - reg.released + Taken(reg, e)
  {
  }

  lemma AdvanceLeavesNoTrace(s: State, a: nat, att: Attempt, e: Option<Event>)
    requires a < |s.attempts| && att.proc == s.attempts[a].proc < |s.procs| && R.Valid(s.procs[att.proc])
    requires e.Some? ==>
      && R.Enabled(s.procs[att.proc], e.value)
      && (e.value.OpenReservation? || e.value.Acquire? || e.value.Abandon?)
    requires (if Holds(att, att.proc) then 1 else 0)
             == HeldBy(s, a) + if e.None? then 0 else Taken(s.procs[att.proc], e.value)
    ensures NoTrace(s, Advance(s, a, att, e), a)
  {
    if e.Some? { ReservingLeavesNoTrace(s.procs[att.proc], e.value); }
  }

  lemma RefusalLeavesNoTrace(s: State, a: nat)
    requires ResumeProtocol.Valid(s) && ResumeProtocol.Enabled(s, Commit(a)) && StepCommit(s, a).attempts[a].stage.Lost?
    ensures NoTrace(s, StepCommit(s, a), a)
  {
    var att := s.attempts[a];
    if !att.cause.Fresh? { LosesExactlyWhen(s, a); }
    AdvanceLeavesNoTrace(s, a, att.(stage := Lost(att.stage.r)), Some(Abandon(att.stage.r)));
  }

  /** Whether it fails before, in or after its reserve, and whatever goes on in between: no step of a
      losing attempt changes the database, a map or a record, and capacity changes by what the
      attempt itself takes or gives back. */
  lemma LosersLeaveNoTrace(s: State, e: Step, a: nat)
    requires ResumeProtocol.Valid(s) && ResumeProtocol.Enabled(s, e) && a < |s.attempts| && StepOfALoser(s, e, a)
    ensures NoTrace(s, Do(s, e), a)
  {
    var att := s.attempts[a];
    if e.Load? {
      AdvanceLeavesNoTrace(s, a, StepLoad(s, a).attempts[a], None);
    } else if e.Commit? {
      RefusalLeavesNoTrace(s, a);
    } else {
      AdvanceLeavesNoTrace(s, a, InAdd(s, e), Some(InRegistry(s, e)));
    }
  }

  lemma CommitMovesOneAttempt(s: State, a: nat)
    requires ResumeProtocol.Valid(s) && ResumeProtocol.Enabled(s, Commit(a))
    ensures |StepCommit(s, a).attempts| == |s.attempts|
    ensures forall b :: 0 <= b < |s.attempts| && b != a ==> StepCommit(s, a).attempts[b] == s.attempts[b]
  {
  }

  /** A step moves the attempt it names, and no other. */
  lemma StepMovesOneAttempt(s: State, e: Step)
    requires ResumeProtocol.Valid(s) && ResumeProtocol.Enabled(s, e)
    ensures var t := Apply(s, e);
            match e
            case Spawn(p, id, cause, items) => t.attempts == s.attempts + [Spawned(p, id, cause, items)]
            case Persist(_, _, _, _) => t.attempts == s.attempts
            case Here(_, _) => t.attempts == s.attempts
            case _ =>
              && |t.attempts| == |s.attempts|
              && forall b :: 0 <= b < |s.attempts| && b != e.a ==> t.attempts[b] == s.attempts[b]
  {
    if e.Commit? { CommitMovesOneAttempt(s, e.a); }
  }

  /** An attempt that has lost or failed holds no capacity and is over: no step moves it. */
  lemma LosersAreDone(s: State, e: Step, a: nat)
    requires ResumeProtocol.Valid(s) && ResumeProtocol.Enabled(s, e) && a < |s.attempts|
    requires s.attempts[a].stage.Lost? || s.attempts[a].stage.Failed?
    ensures HeldBy(s, a) == 0 && a < |Do(s, e).attempts| && Do(s, e).attempts[a] == s.attempts[a]
  {
    StepMovesOneAttempt(s, e);
  }

  // ---------------------------------------------------------------- capacity

  /** The `add` calls of process `p` past their reserve and not yet registered or failed. */
  function InFlight(attempts: seq<Attempt>, p: nat): nat {
    if attempts == [] then 0
    else InFlight(attempts[..|attempts| - 1], p) + if Holds(attempts[|attempts| - 1], p) then 1 else 0
  }

  lemma {:induction false} InFlightUpdate(attempts: seq<Attempt>, a: nat, att: Attempt, p: nat)
    requires a < |attempts|
    ensures InFlight(attempts[a := att], p) ==
            InFlight(attempts, p) - (if Holds(attempts[a], p) then 1 else 0) + (if Holds(att, p) then 1 else 0)
    decreases |attempts|
  {
    var last := |attempts| - 1;
    if a == last {
      assert attempts[a := att][..last] == attempts[..last];
    } else {
      assert attempts[a := att][..last] == attempts[..last][a := att];
      InFlightUpdate(attempts[..last], a, att, p);
    }
  }

  predicate Conserved(s: State) {
    forall p :: 0 <= p < |s.procs| ==>
      s.procs[p].reserved - s.procs[p].released == InFlight(s.attempts, p) + Pending(s.procs[p].records)
  }

  /** An attempt that moves between stages takes along what its registry step took or gave back. */
  lemma AdvanceConserves(s: State, a: nat, att: Attempt, e: Option<Event>)
    requires ResumeProtocol.Valid(s) && Conserved(s) && a < |s.attempts| && att.proc == s.attempts[a].proc
    requires e.Some? ==> R.Enabled(s.procs[att.proc], e.value)
    requires (if Holds(s.attempts[a], att.proc) then 1 else 0)
             + (if e.None? then 0 else Taken(s.procs[att.proc], e.value))
             == (if Holds(att, att.proc) then 1 else 0)
    ensures Conserved(Advance(s, a, att, e))
  {
    var t := Advance(s, a, att, e);
    forall p | 0 <= p < |s.procs|
      ensures t.procs[p].reserved - t.procs[p].released == InFlight(t.attempts, p) + Pending(t.procs[p].records)
    {
      InFlightUpdate(s.attempts, a, att, p);
      if p == att.proc && e.Some? {
        InProgressStep(s.procs[p], e.value);
      }
    }
  }

  lemma CommitConserves(s: State, a: nat)
    requires ResumeProtocol.Valid(s) && Conserved(s) && ResumeProtocol.Enabled(s, Commit(a))
    ensures Conserved(Do(s, Commit(a)))
  {
    var att := s.attempts[a];
    if att.cause.Fresh? || Wins(s, a) {
      AdvanceConserves(s, a, att.(stage := Committed(att.stage.stack, att.stage.r)), None);
    } else {
      AdvanceConserves(s, a, att.(stage := Lost(att.stage.r)), Some(Abandon(att.stage.r)));
    }
  }

  lemma SpawnConserves(s: State, e: Step)
    requires ResumeProtocol.Valid(s) && Conserved(s) && ResumeProtocol.Enabled(s, e) && e.Spawn?
    ensures Conserved(Do(s, e))
  {
    forall p: nat { InFlightAppend(s.attempts, Spawned(e.p, e.id, e.cause, e.items), p); }
  }

  lemma InFlightAppend(attempts: seq<Attempt>, att: Attempt, p: nat)
    ensures InFlight(attempts + [att], p) == InFlight(attempts, p) + if Holds(att, p) then 1 else 0
  {
    assert (attempts + [att])[..|attempts|] == attempts;
  }

  lemma HereConserves(s: State, p: nat, e: Event)
    requires ResumeProtocol.Valid(s) && Conserved(s) && ResumeProtocol.Enabled(s, Here(p, e))
    ensures Conserved(Do(s, Here(p, e)))
  {
    InProgressStep(s.procs[p], e);
    OneProcessConserves(s, Apply(s, Here(p, e)), p);
  }

  lemma OneProcessConserves(s: State, t: State, p: nat)
    requires Conserved(s) && t.attempts == s.attempts && p < |s.procs| == |t.procs|
    requires forall q :: 0 <= q < |s.procs| && q != p ==> t.procs[q] == s.procs[q]
    requires InProgress(t.procs[p]) == InProgress(s.procs[p])
    ensures Conserved(t)
  {
  }

  lemma StageConserves(s: State, t: State, a: nat, att: Attempt)
    requires Conserved(s) && a < |s.attempts|
    requires t.procs == s.procs && t.attempts == s.attempts[a := att]
    requires forall p :: 0 <= p < |s.procs| ==> Holds(att, p) == Holds(s.attempts[a], p)
    ensures Conserved(t)
  {
    forall p | 0 <= p < |s.procs| ensures InFlight(t.attempts, p) == InFlight(s.attempts, p) {
      InFlightUpdate(s.attempts, a, att, p);
    }
  }

  lemma MoveConserves(s: State, e: Step)
    requires ResumeProtocol.Valid(s) && Conserved(s) && ResumeProtocol.Enabled(s, e)
    requires e.ReadParent? || e.WriteParent? || e.Load?
    ensures Conserved(Do(s, e))
  {
    var t := Apply(s, e);
    assert t.procs == s.procs && t.attempts == s.attempts[e.a := t.attempts[e.a]] by { MovesOnly(s, e); }
    StageConserves(s, t, e.a, t.attempts[e.a]);
  }

  lemma MovesOnly(s: State, e: Step)
    requires ResumeProtocol.Valid(s) && ResumeProtocol.Enabled(s, e)
    requires e.ReadParent? || e.WriteParent? || e.Load?
    ensures Apply(s, e).procs == s.procs && |Apply(s, e).attempts| == |s.attempts|
    ensures Apply(s, e).attempts == s.attempts[e.a := Apply(s, e).attempts[e.a]]
  {
  }

  lemma InAddConserves(s: State, e: Step)
    requires ResumeProtocol.Valid(s) && Conserved(s) && ResumeProtocol.Enabled(s, e)
    requires e.Begin? || e.Throttle? || e.Abort? || e.Enter?
    ensures Conserved(Advance(s, e.a, InAdd(s, e), Some(InRegistry(s, e))))
  {
    AdvanceConserves(s, e.a, InAdd(s, e), Some(InRegistry(s, e)));
  }

  lemma StepConserves(s: State, e: Step)
    requires ResumeProtocol.Valid(s) && Conserved(s) && ResumeProtocol.Enabled(s, e)
    ensures Conserved(Do(s, e))
  {
    match e
    case Spawn(_, _, _, _) => SpawnConserves(s, e);
    case Commit(a) => CommitConserves(s, a);
    case Persist(id, status, finished, items) =>
      assert Do(s, e).procs == s.procs && Do(s, e).attempts == s.attempts;
    case Here(p, h) => HereConserves(s, p, h);
    case _ =>
      if e.ReadParent? || e.WriteParent? || e.Load? { MoveConserves(s, e); } else { InAddConserves(s, e); }
  }

  /** In every reachable state of every process, capacity taken minus capacity given back is the
      number of `add` calls past their reserve whose failure path or `finally` has not run. */
  lemma {:induction false} CapacityConserved(s: State, es: seq<Step>)
    requires ResumeProtocol.Valid(s) && ResumeProtocol.IsRun(s, es) && Conserved(s)
    ensures Conserved(ResumeProtocol.After(s, es))
    decreases |es|
  {
    if es != [] {
      StepConserves(s, es[0]);
      CapacityConserved(Do(s, es[0]), es[1..]);
    }
  }

  /** All of the above from a cold start, for any number of processes. */
  lemma {:induction false} EveryReachableState(s: State, es: seq<Step>)
    requires Initial(s) && ResumeProtocol.Valid(s) && ResumeProtocol.IsRun(s, es)
    ensures var t := ResumeProtocol.After(s, es);
            && OneWinPerEpoch(t)
            && Conserved(t)
            && (forall a :: 0 <= a < |t.attempts| && t.attempts[a].stage.Lost? ==>
                  t.procs[t.attempts[a].proc].reservations[t.attempts[a].stage.r] == Released)
  {
    ResumedAtMostOnce(s, es);
    CapacityConserved(s, es);
    var t := ResumeProtocol.After(s, es);
    forall a | 0 <= a < |t.attempts| && t.attempts[a].stage.Lost?
      ensures t.procs[t.attempts[a].proc].reservations[t.attempts[a].stage.r] == Released
    {
      assert Fits(t.attempts[a], t.procs[t.attempts[a].proc]);
    }
  }
}

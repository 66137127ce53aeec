/** Which epoch the data of a resumed execution come from, decided by the stamps that stacks carry:
    exactly when a winning resume runs with stale data, and exactly when a child's update makes a
    waiting row stale. */
module StaleData {
  import opened Wrappers
  import opened R = ExecutionRegistry
  import opened RegistryLaws
  import opened ResumeProtocol
  import opened ResumeLaws
  import opened ResumeData

  // ---------------------------------------------------------------- rows

  /** A waiting row holds its own epoch's data, and so does every update on its way to the row. */
  predicate Current(s: State, id: ExecutionId) {
    && (id in s.db && s.db[id].status == Waiting ==> s.db[id].stack.stamp == s.db[id].epoch)
    && (forall a :: 0 <= a < |s.attempts| && s.attempts[a].id == id && s.attempts[a].stage.Writing? ==>
          s.attempts[a].stage.stack.stamp == s.attempts[a].stage.readIn)
  }

  lemma WriteStaysCurrentExactlyWhen(s: State, a: nat, id: ExecutionId)
    requires ResumeProtocol.Valid(s) && Current(s, id) && ResumeProtocol.Enabled(s, WriteParent(a))
    ensures Current(Apply(s, WriteParent(a)), id) <==> Prompt(s, WriteParent(a), id)
  {
    var t := Apply(s, WriteParent(a));
    StepMovesOneAttempt(s, WriteParent(a));
    assert !t.attempts[a].stage.Writing?;
  }

  function StackOf(stage: Stage): Option<Stack> {
    match stage
    case Writing(stack, _) => Some(stack)
    case Loaded(stack) => Some(stack)
    case Reserving(stack, _) => Some(stack)
    case Reserved(stack, _) => Some(stack)
    case Committed(stack, _) => Some(stack)
    case _ => None
  }

  /** Inside `add` a stack is handed on, and rows are left alone except by `Commit`. */
  lemma InAddHandsOn(s: State, e: Step)
    requires ResumeProtocol.Valid(s) && ResumeProtocol.Enabled(s, e)
    requires e.Begin? || e.Throttle? || e.Abort? || e.Enter?
    ensures Apply(s, e).db == s.db
    ensures var was, now := s.attempts[e.a], Apply(s, e).attempts[e.a];
            && now.id == was.id && now.cause == was.cause
            && !Early(now.stage) && StackOf(now.stage) in {None, StackOf(was.stage)}
  {
    assert Apply(s, e) == Advance(s, e.a, InAdd(s, e), Some(InRegistry(s, e)));
  }

  lemma ReadStaysCurrent(s: State, a: nat, id: ExecutionId)
    requires ResumeProtocol.Valid(s) && Current(s, id) && ResumeProtocol.Enabled(s, ReadParent(a))
    ensures Current(Apply(s, ReadParent(a)), id)
  {
    StepMovesOneAttempt(s, ReadParent(a));
  }

  lemma LoadOrCommitStaysCurrent(s: State, e: Step, id: ExecutionId)
    requires ResumeProtocol.Valid(s) && Current(s, id) && ResumeProtocol.Enabled(s, e) && (e.Load? || e.Commit?)
    ensures Current(Apply(s, e), id)
  {
    StepMovesOneAttempt(s, e);
    assert !Apply(s, e).attempts[e.a].stage.Writing?;
  }

  lemma SpawnStaysCurrent(s: State, e: Step, id: ExecutionId)
    requires ResumeProtocol.Valid(s) && Current(s, id) && ResumeProtocol.Enabled(s, e) && e.Spawn?
    ensures Current(Apply(s, e), id)
  {
    assert Apply(s, e).attempts[..|s.attempts|] == s.attempts;
  }

  lemma OtherStepsStayCurrent(s: State, e: Step, id: ExecutionId)
    requires ResumeProtocol.Valid(s) && Current(s, id) && ResumeProtocol.Enabled(s, e) && !e.WriteParent?
    ensures Current(Apply(s, e), id)
  {
    if e.ReadParent? {
      ReadStaysCurrent(s, e.a, id);
    } else if e.Load? || e.Commit? {
      LoadOrCommitStaysCurrent(s, e, id);
    } else if e.Spawn? {
      SpawnStaysCurrent(s, e, id);
    } else if e.Begin? || e.Throttle? || e.Abort? || e.Enter? {
      StepMovesOneAttempt(s, e);
      InAddHandsOn(s, e);
    }
  }

  /** The data of a waiting row stop being its epoch's own if and only if a child stores an update
      that it had prepared in an earlier epoch. */
  lemma StaysCurrentExactlyWhen(s: State, e: Step, id: ExecutionId)
    requires ResumeProtocol.Valid(s) && Current(s, id) && ResumeProtocol.Enabled(s, e)
    ensures Current(Do(s, e), id) <==> Prompt(s, e, id)
  {
    if e.WriteParent? { WriteStaysCurrentExactlyWhen(s, e.a, id); } else { OtherStepsStayCurrent(s, e, id); }
  }

  predicate AlwaysCurrent(s: State, es: seq<Step>, id: ExecutionId)
    requires ResumeProtocol.Valid(s) && ResumeProtocol.IsRun(s, es)
    decreases |es|
  {
    Current(s, id) && (es == [] || AlwaysCurrent(Do(s, es[0]), es[1..], id))
  }

  lemma {:induction false} StaysAlwaysCurrentExactlyWhen(s: State, es: seq<Step>, id: ExecutionId)
    requires ResumeProtocol.Valid(s) && ResumeProtocol.IsRun(s, es) && Current(s, id)
    ensures AlwaysCurrent(s, es, id) <==> IsPromptRun(s, es, id)
    decreases |es|
  {
    if es != [] {
      StaysCurrentExactlyWhen(s, es[0], id);
      var t := Do(s, es[0]);
      if Current(t, id) {
        StaysAlwaysCurrentExactlyWhen(t, es[1..], id);
      } else {
        assert !AlwaysCurrent(t, es[1..], id);
      }
    }
  }

  lemma InitialIsCurrent(s: State, id: ExecutionId)
    requires Initial(s)
    ensures Current(s, id) && Bounded(s, id)
  {
  }

  /** Over every run from a cold start: a waiting row ever holds stale data if and only if some child
      is late. */
  lemma AlwaysCurrentExactlyWhen(s: State, es: seq<Step>, id: ExecutionId)
    requires Initial(s) && ResumeProtocol.Valid(s) && ResumeProtocol.IsRun(s, es)
    ensures AlwaysCurrent(s, es, id) <==> IsPromptRun(s, es, id)
  {
    InitialIsCurrent(s, id);
    StaysAlwaysCurrentExactlyWhen(s, es, id);
  }

  // ---------------------------------------------------------------- no data from the future

  predicate NotNewer(s: State, att: Attempt) {
    StackOf(att.stage).Some? ==> att.id in s.db && StackOf(att.stage).value.stamp <= s.db[att.id].epoch
  }

  predicate Bounded(s: State, id: ExecutionId) {
    && (id in s.db ==> s.db[id].stack.stamp <= s.db[id].epoch)
    && (forall a :: 0 <= a < |s.attempts| && s.attempts[a].id == id ==> NotNewer(s, s.attempts[a]))
  }

  /** `Persist(id, Waiting, ..)` opens an epoch of `id`, and nothing else does. */
  function Opens(e: Step, id: ExecutionId): nat {
    if e.Persist? && e.id == id && e.status == Waiting then 1 else 0
  }

  lemma StepOpens(s: State, e: Step, id: ExecutionId)
    requires ResumeProtocol.Valid(s) && ResumeProtocol.Enabled(s, e) && id in s.db
    ensures var t := Apply(s, e);
            && id in t.db && t.db[id].epoch == s.db[id].epoch + Opens(e, id)
            && (Opens(e, id) == 0 && t.db[id].status == Waiting ==> s.db[id].status == Waiting)
  {
    if e.Commit? { CommitOpensNone(s, e.a, id); }
  }

  lemma CommitOpensNone(s: State, a: nat, id: ExecutionId)
    requires ResumeProtocol.Valid(s) && ResumeProtocol.Enabled(s, Commit(a)) && id in s.db
    ensures var t := Apply(s, Commit(a));
            id in t.db && t.db[id].epoch == s.db[id].epoch && (t.db[id].status == Waiting ==> t.db[id] == s.db[id])
  {
  }

  lemma GrowingKeepsBounded(s: State, t: State, id: ExecutionId)
    requires Bounded(s, id)
    requires id in s.db ==> id in t.db && s.db[id].epoch <= t.db[id].epoch
    requires id in t.db ==> t.db[id].stack.stamp <= t.db[id].epoch
    requires forall a :: 0 <= a < |t.attempts| && t.attempts[a].id == id ==>
               (a < |s.attempts| && t.attempts[a] == s.attempts[a]) || NotNewer(t, t.attempts[a])
    ensures Bounded(t, id)
  {
  }

  /** A row takes its data from a run or from an attempt. */
  lemma RowIsNotNewer(s: State, e: Step, id: ExecutionId)
    requires ResumeProtocol.Valid(s) && ResumeProtocol.Enabled(s, e) && Bounded(s, id)
    requires e.WriteParent? || e.Commit? || e.Persist?
    ensures id in Apply(s, e).db ==> Apply(s, e).db[id].stack.stamp <= Apply(s, e).db[id].epoch
  {
    if e.WriteParent? || e.Commit? {
      assert s.attempts[e.a].id == id ==> NotNewer(s, s.attempts[e.a]);
    }
  }

  lemma ReadIsNotNewer(s: State, a: nat, id: ExecutionId)
    requires ResumeProtocol.Valid(s) && ResumeProtocol.Enabled(s, ReadParent(a)) && Bounded(s, id)
    requires s.attempts[a].id == id
    ensures NotNewer(Apply(s, ReadParent(a)), Apply(s, ReadParent(a)).attempts[a])
  {
  }

  lemma LoadIsNotNewer(s: State, a: nat, id: ExecutionId)
    requires ResumeProtocol.Valid(s) && ResumeProtocol.Enabled(s, Load(a)) && Bounded(s, id)
    requires s.attempts[a].id == id
    ensures NotNewer(Apply(s, Load(a)), Apply(s, Load(a)).attempts[a])
  {
  }

  lemma CommitIsNotNewer(s: State, a: nat, id: ExecutionId)
    requires ResumeProtocol.Valid(s) && ResumeProtocol.Enabled(s, Commit(a)) && Bounded(s, id)
    requires s.attempts[a].id == id
    ensures NotNewer(Apply(s, Commit(a)), Apply(s, Commit(a)).attempts[a])
  {
    assert NotNewer(s, s.attempts[a]);
  }

  /** An attempt takes its data from the row or keeps what it has. */
  lemma MovedIsNotNewer(s: State, e: Step, id: ExecutionId)
    requires ResumeProtocol.Valid(s) && ResumeProtocol.Enabled(s, e) && Bounded(s, id)
    requires e.ReadParent? || e.WriteParent? || e.Load? || e.Commit?
    requires s.attempts[e.a].id == id
    ensures NotNewer(Apply(s, e), Apply(s, e).attempts[e.a])
  {
    if e.ReadParent? {
      ReadIsNotNewer(s, e.a, id);
    } else if e.Load? {
      LoadIsNotNewer(s, e.a, id);
    } else if e.Commit? {
      CommitIsNotNewer(s, e.a, id);
    }
  }

  lemma InAddKeepsBounded(s: State, e: Step, id: ExecutionId)
    requires ResumeProtocol.Valid(s) && ResumeProtocol.Enabled(s, e) && Bounded(s, id)
    requires e.Begin? || e.Throttle? || e.Abort? || e.Enter?
    ensures Bounded(Apply(s, e), id)
  {
    assert s.attempts[e.a].id == id ==> NotNewer(s, s.attempts[e.a]);
    StepMovesOneAttempt(s, e);
    InAddHandsOn(s, e);
    GrowingKeepsBounded(s, Apply(s, e), id);
  }

  lemma SpawnKeepsBounded(s: State, e: Step, id: ExecutionId)
    requires ResumeProtocol.Valid(s) && ResumeProtocol.Enabled(s, e) && Bounded(s, id) && e.Spawn?
    ensures Bounded(Apply(s, e), id)
  {
    var t := Apply(s, e);
    assert t.attempts[..|s.attempts|] == s.attempts;
    assert e.id == id ==> NotNewer(t, t.attempts[|s.attempts|]);
    GrowingKeepsBounded(s, t, id);
  }

  lemma DataStepKeepsBounded(s: State, e: Step, id: ExecutionId)
    requires ResumeProtocol.Valid(s) && ResumeProtocol.Enabled(s, e) && Bounded(s, id)
    requires e.ReadParent? || e.WriteParent? || e.Load? || e.Commit? || e.Persist?
    ensures Bounded(Apply(s, e), id)
  {
    StepMovesOneAttempt(s, e);
    if id in s.db { StepOpens(s, e, id); }
    if e.WriteParent? || e.Commit? || e.Persist? { RowIsNotNewer(s, e, id); } else { assert Apply(s, e).db == s.db; }
    if !e.Persist? && s.attempts[e.a].id == id { MovedIsNotNewer(s, e, id); }
    GrowingKeepsBounded(s, Apply(s, e), id);
  }

  /** No row and no attempt holds data of an epoch still to come. */
  lemma StepKeepsBounded(s: State, e: Step, id: ExecutionId)
    requires ResumeProtocol.Valid(s) && ResumeProtocol.Enabled(s, e) && Bounded(s, id)
    ensures Bounded(Do(s, e), id)
  {
    if e.Spawn? {
      SpawnKeepsBounded(s, e, id);
    } else if e.Here? {
      GrowingKeepsBounded(s, Apply(s, e), id);
    } else if e.Begin? || e.Throttle? || e.Abort? || e.Enter? {
      InAddKeepsBounded(s, e, id);
    } else {
      DataStepKeepsBounded(s, e, id);
    }
  }

  lemma {:induction false} RunKeepsBounded(s: State, es: seq<Step>, id: ExecutionId)
    requires ResumeProtocol.Valid(s) && ResumeProtocol.IsRun(s, es) && Bounded(s, id)
    ensures Bounded(ResumeProtocol.After(s, es), id)
    decreases |es|
  {
    if es != [] {
      StepKeepsBounded(s, es[0], id);
      RunKeepsBounded(Do(s, es[0]), es[1..], id);
    }
  }

  // ---------------------------------------------------------------- wins

  /** How often `id` starts to wait. */
  function Rewaits(es: seq<Step>, id: ExecutionId): nat
    decreases |es|
  {
    if es == [] then 0 else Opens(es[0], id) + Rewaits(es[1..], id)
  }

  lemma {:induction false} EpochsAreRewaits(s: State, es: seq<Step>, id: ExecutionId)
    requires ResumeProtocol.Valid(s) && ResumeProtocol.IsRun(s, es) && id in s.db
    ensures var t := ResumeProtocol.After(s, es);
            && id in t.db && t.db[id].epoch == s.db[id].epoch + Rewaits(es, id)
            && (Rewaits(es, id) == 0 && t.db[id].status == Waiting ==> s.db[id].status == Waiting)
    decreases |es|
  {
    if es != [] {
      StepOpens(s, es[0], id);
      EpochsAreRewaits(Do(s, es[0]), es[1..], id);
    }
  }

  /** On its way to the update an attempt keeps the stack it loaded. */
  predicate Carrying(s: State, a: nat, id: ExecutionId, stack: Stack) {
    && a < |s.attempts| && s.attempts[a].id == id && !s.attempts[a].cause.Fresh?
    && !Early(s.attempts[a].stage)
    && (Carries(s.attempts[a].stage) ==> s.attempts[a].stage.stack == stack)
  }

  lemma CommitCarries(s: State, a: nat, id: ExecutionId, stack: Stack)
    requires ResumeProtocol.Valid(s) && ResumeProtocol.Enabled(s, Commit(a)) && Carrying(s, a, id, stack)
    ensures Carrying(Apply(s, Commit(a)), a, id, stack)
  {
  }

  lemma StepCarries(s: State, e: Step, a: nat, id: ExecutionId, stack: Stack)
    requires ResumeProtocol.Valid(s) && ResumeProtocol.Enabled(s, e) && Carrying(s, a, id, stack)
    ensures Carrying(Do(s, e), a, id, stack)
  {
    StepMovesOneAttempt(s, e);
    if e == Commit(a) {
      CommitCarries(s, a, id, stack);
    } else if (e.Begin? || e.Throttle? || e.Abort? || e.Enter?) && e.a == a {
      InAddHandsOn(s, e);
    } else {
      assert Apply(s, e).attempts[a] == s.attempts[a];
    }
  }

  lemma {:induction false} RunCarries(s: State, es: seq<Step>, a: nat, id: ExecutionId, stack: Stack)
    requires ResumeProtocol.Valid(s) && ResumeProtocol.IsRun(s, es) && Carrying(s, a, id, stack)
    ensures Carrying(ResumeProtocol.After(s, es), a, id, stack)
    decreases |es|
  {
    if es != [] {
      StepCarries(s, es[0], a, id, stack);
      RunCarries(Do(s, es[0]), es[1..], a, id, stack);
    }
  }

  predicate Finds(s: State, a: nat)
    requires a < |s.attempts|
  {
    s.attempts[a].id in s.db && !s.db[s.attempts[a].id].finished && !s.attempts[a].cause.Fresh?
  }

  lemma LoadCarries(s: State, a: nat)
    requires ResumeProtocol.Valid(s) && ResumeProtocol.Enabled(s, Load(a)) && Finds(s, a)
    ensures Do(s, Load(a)).db == s.db
    ensures Carrying(Do(s, Load(a)), a, s.attempts[a].id, s.db[s.attempts[a].id].stack)
  {
  }

  lemma CommitRecordsTheWin(s: State, a: nat)
    requires ResumeProtocol.Valid(s) && ResumeProtocol.Enabled(s, Commit(a)) && !s.attempts[a].cause.Fresh?
        && Wins(s, a)
    ensures var id := s.attempts[a].id;
            Do(s, Commit(a)).wins == s.wins + [Win(a, id, s.db[id].epoch, s.attempts[a].stage.stack)]
  {
  }

  /** If attempt `a` loads in `s` and wins after `es`, it runs what it loaded, and that is the data of
      the epoch it resumes if and only if the execution has not started to wait again since, and the
      row was not stale when it was loaded. */
  predicate WinsWithItsLoad(s: State, a: nat, es: seq<Step>)
    requires ResumeProtocol.Valid(s) && ResumeProtocol.Enabled(s, Load(a)) && Finds(s, a)
  {
    ResumeProtocol.IsRun(Do(s, Load(a)), es) ==>
      var id, t := s.attempts[a].id, ResumeProtocol.After(Do(s, Load(a)), es);
      ResumeProtocol.Enabled(t, Commit(a)) && Wins(t, a) ==>
        && id in t.db
        && var w := Win(a, id, t.db[id].epoch, s.db[id].stack);
           && Do(t, Commit(a)).wins == t.wins + [w]
           && (w.stack.stamp == w.epoch <==> Rewaits(es, id) == 0 && s.db[id].stack.stamp == s.db[id].epoch)
  }

  /** From the load on. */
  lemma LoadedWinIsCurrentExactlyWhen(s: State, a: nat, es: seq<Step>)
    requires ResumeProtocol.Valid(s) && ResumeProtocol.Enabled(s, Load(a)) && Finds(s, a)
    requires Bounded(s, s.attempts[a].id)
    ensures WinsWithItsLoad(s, a, es)
  {
    if ResumeProtocol.IsRun(Do(s, Load(a)), es) {
      var id, t := s.attempts[a].id, ResumeProtocol.After(Do(s, Load(a)), es);
      LoadCarries(s, a);
      RunCarries(Do(s, Load(a)), es, a, id, s.db[id].stack);
      EpochsAreRewaits(Do(s, Load(a)), es, id);
      if ResumeProtocol.Enabled(t, Commit(a)) && Wins(t, a) { CommitRecordsTheWin(t, a); }
    }
  }

  /** Over every run from a cold start, whatever happens before the load, and between the load and the
      update: a winning resume runs stale data exactly when a new wait lies in between or a late child
      had made the row stale before. */
  lemma WinIsCurrentExactlyWhen(s: State, before: seq<Step>, a: nat, es: seq<Step>)
    requires Initial(s) && ResumeProtocol.Valid(s) && ResumeProtocol.IsRun(s, before)
    ensures var t := ResumeProtocol.After(s, before);
            ResumeProtocol.Enabled(t, Load(a)) && Finds(t, a) ==> WinsWithItsLoad(t, a, es)
  {
    var t := ResumeProtocol.After(s, before);
    if ResumeProtocol.Enabled(t, Load(a)) && Finds(t, a) {
      InitialIsCurrent(s, t.attempts[a].id);
      RunKeepsBounded(s, before, t.attempts[a].id);
      LoadedWinIsCurrentExactlyWhen(t, a, es);
    }
  }
}

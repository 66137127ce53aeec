/** What a resumed parent runs with: the data of a waiting epoch, followed through child updates,
    loads and the winning resume. Everything here is about one execution `id`; what the children of
    other executions do does not matter to it. */
module ResumeData {
  import opened Wrappers
  import opened R = ExecutionRegistry
  import opened ResumeProtocol
  import opened ResumeLaws

  /** A finished child of `id` produced `d`. */
  predicate Output(s: State, id: ExecutionId, d: Data) {
    exists a :: 0 <= a < |s.attempts| && s.attempts[a].id == id && s.attempts[a].cause == Child(Some(d))
  }

  /** The epoch's own stack with the data of its head replaced by some child's output. */
  ghost predicate ByChild(s: State, id: ExecutionId, epoch: nat, stack: Stack) {
    && (id, epoch) in s.bases
    && var base := s.bases[(id, epoch)];
       && base.items != []
       && exists d :: Output(s, id, d) && stack == WithHead(base, d)
  }

  ghost predicate OfEpoch(s: State, id: ExecutionId, epoch: nat, stack: Stack) {
    ((id, epoch) in s.bases && stack == s.bases[(id, epoch)]) || ByChild(s, id, epoch, stack)
  }

  ghost predicate RowIsOfEpoch(s: State, id: ExecutionId) {
    id in s.db && s.db[id].status == Waiting ==> OfEpoch(s, id, s.db[id].epoch, s.db[id].stack)
  }

  predicate Carries(stage: Stage) {
    stage.Loaded? || stage.Reserving? || stage.Reserved? || stage.Committed?
  }

  predicate Early(stage: Stage) {
    stage.Updating? || stage.Writing? || stage.Loading?
  }

  /** What was loaded from a waiting row is that epoch's, and carries a child's output if the
      attempt had stored its own update in that epoch. */
  ghost predicate LoadIsOfEpoch(s: State, att: Attempt, stack: Stack) {
    att.loadedIn.Some? ==>
      && OfEpoch(s, att.id, att.loadedIn.value, stack)
      && (att.wroteIn == att.loadedIn ==> ByChild(s, att.id, att.loadedIn.value, stack))
  }

  ghost predicate AttemptIsOfEpoch(s: State, att: Attempt) {
    && (att.wroteIn.Some? ==>
          && att.id in s.db && att.wroteIn.value <= s.db[att.id].epoch
          && (att.wroteIn.value == s.db[att.id].epoch && s.db[att.id].status == Waiting ==>
                ByChild(s, att.id, s.db[att.id].epoch, s.db[att.id].stack)))
    && (att.stage.Writing? ==> ByChild(s, att.id, att.stage.readIn, att.stage.stack))
    && (Carries(att.stage) ==> LoadIsOfEpoch(s, att, att.stage.stack))
  }

  ghost predicate WinIsOfEpoch(s: State, w: Win) {
    && w.attempt < |s.attempts|
    && s.attempts[w.attempt].id == w.id
    && !Early(s.attempts[w.attempt].stage)
    && (s.attempts[w.attempt].loadedIn == Some(w.epoch) ==> LoadIsOfEpoch(s, s.attempts[w.attempt], w.stack))
  }

  ghost predicate DataInv(s: State, id: ExecutionId) {
    && (forall epoch :: (id, epoch) in s.bases ==> id in s.db && epoch <= s.db[id].epoch)
    && RowIsOfEpoch(s, id)
    && (forall a :: 0 <= a < |s.attempts| && s.attempts[a].id == id ==> AttemptIsOfEpoch(s, s.attempts[a]))
    && (forall i :: 0 <= i < |s.wins| && s.wins[i].id == id ==> WinIsOfEpoch(s, s.wins[i]))
  }

  /** No child of `id` stores, in a later waiting epoch, the update it had prepared in an earlier one. */
  predicate Prompt(s: State, e: Step, id: ExecutionId) {
    && e.WriteParent? && e.a < |s.attempts| && s.attempts[e.a].stage.Writing? && s.attempts[e.a].id == id
    && id in s.db && s.db[id].status == Waiting
    ==> s.db[id].epoch == s.attempts[e.a].stage.readIn
  }

  // ---------------------------------------------------------------- history only grows

  predicate Grows(s: State, t: State) {
    && (forall key :: key in s.bases ==> key in t.bases && t.bases[key] == s.bases[key])
    && |s.attempts| <= |t.attempts|
    && (forall a :: 0 <= a < |s.attempts| ==>
          t.attempts[a].id == s.attempts[a].id && t.attempts[a].cause == s.attempts[a].cause)
  }

  lemma ByChildSurvives(s: State, t: State, id: ExecutionId, epoch: nat, stack: Stack)
    requires Grows(s, t)
    ensures ByChild(s, id, epoch, stack) ==> ByChild(t, id, epoch, stack)
    ensures OfEpoch(s, id, epoch, stack) ==> OfEpoch(t, id, epoch, stack)
  {
    if ByChild(s, id, epoch, stack) {
      var base := s.bases[(id, epoch)];
      var d :| Output(s, id, d) && stack == WithHead(base, d);
      var a :| 0 <= a < |s.attempts| && s.attempts[a].id == id && s.attempts[a].cause == Child(Some(d));
      assert t.attempts[a].id == id && t.attempts[a].cause == Child(Some(d));
      assert Output(t, id, d);
    }
  }

  /** The row of `id` stays, or changes to something that suits its epoch. */
  ghost predicate RowFits(s: State, t: State, id: ExecutionId) {
    id in s.db ==>
      && id in t.db
      && s.db[id].epoch <= t.db[id].epoch
      && (t.db[id].epoch == s.db[id].epoch && t.db[id].status == Waiting ==>
            || (s.db[id].status == Waiting && t.db[id].stack == s.db[id].stack)
            || ByChild(t, id, t.db[id].epoch, t.db[id].stack))
  }

  /** Attempts and wins that a step does not touch stay of their epoch, if the row does. */
  lemma AttemptSurvives(s: State, t: State, att: Attempt)
    requires Grows(s, t) && AttemptIsOfEpoch(s, att) && RowFits(s, t, att.id)
    ensures AttemptIsOfEpoch(t, att)
  {
    if att.wroteIn.Some? { ByChildSurvives(s, t, att.id, s.db[att.id].epoch, s.db[att.id].stack); }
    if att.stage.Writing? { ByChildSurvives(s, t, att.id, att.stage.readIn, att.stage.stack); }
    if Carries(att.stage) && att.loadedIn.Some? { ByChildSurvives(s, t, att.id, att.loadedIn.value, att.stage.stack); }
  }

  /** An attempt past its load remembers where it loaded and wrote. */
  predicate Remembers(was: Attempt, now: Attempt) {
    !Early(was.stage) ==> !Early(now.stage) && now.loadedIn == was.loadedIn && now.wroteIn == was.wroteIn
  }

  lemma WinSurvives(s: State, t: State, w: Win)
    requires Grows(s, t) && WinIsOfEpoch(s, w)
    requires Remembers(s.attempts[w.attempt], t.attempts[w.attempt])
    ensures WinIsOfEpoch(t, w)
  {
    ByChildSurvives(s, t, w.id, w.epoch, w.stack);
  }

  /** A step keeps the data of `id` if the row, the attempts it moves or adds, and the wins it adds
      suit their epoch. */
  lemma KeepsData(s: State, t: State, id: ExecutionId)
    requires DataInv(s, id) && Grows(s, t) && RowFits(s, t, id) && RowIsOfEpoch(t, id)
    requires forall epoch :: (id, epoch) in t.bases ==> id in t.db && epoch <= t.db[id].epoch
    requires forall a :: 0 <= a < |t.attempts| && t.attempts[a].id == id ==>
               || (a < |s.attempts| && t.attempts[a] == s.attempts[a])
               || AttemptIsOfEpoch(t, t.attempts[a])
    requires forall a :: 0 <= a < |s.attempts| && s.attempts[a].id == id ==> Remembers(s.attempts[a], t.attempts[a])
    requires forall i :: 0 <= i < |t.wins| && t.wins[i].id == id ==>
               || (i < |s.wins| && t.wins[i] == s.wins[i])
               || WinIsOfEpoch(t, t.wins[i])
    ensures DataInv(t, id)
  {
    forall a | 0 <= a < |t.attempts| && t.attempts[a].id == id ensures AttemptIsOfEpoch(t, t.attempts[a]) {
      if a < |s.attempts| && t.attempts[a] == s.attempts[a] { AttemptSurvives(s, t, s.attempts[a]); }
    }
    forall i | 0 <= i < |t.wins| && t.wins[i].id == id ensures WinIsOfEpoch(t, t.wins[i]) {
      if i < |s.wins| && t.wins[i] == s.wins[i] { WinSurvives(s, t, s.wins[i]); }
    }
  }

  // ---------------------------------------------------------------- step by step

  lemma RowStays(s: State, t: State, id: ExecutionId)
    requires DataInv(s, id) && Grows(s, t)
    requires id in s.db ==> id in t.db && t.db[id] == s.db[id]
    requires id !in s.db && id in t.db ==> t.db[id].status != Waiting
    ensures RowFits(s, t, id) && RowIsOfEpoch(t, id)
  {
    if id in s.db { ByChildSurvives(s, t, id, s.db[id].epoch, s.db[id].stack); }
  }

  /** An attempt moves on, rows and history stay. */
  lemma AdvanceKeepsData(s: State, a: nat, att: Attempt, e: Option<Event>, id: ExecutionId)
    requires ResumeProtocol.Valid(s) && DataInv(s, id) && a < |s.attempts|
    requires att.proc == s.attempts[a].proc && att.id == s.attempts[a].id && att.cause == s.attempts[a].cause
    requires e.Some? ==> R.Enabled(s.procs[att.proc], e.value)
    requires att.id == id ==> AttemptIsOfEpoch(s, att) && Remembers(s.attempts[a], att)
    ensures DataInv(Advance(s, a, att, e), id)
  {
    var t := Advance(s, a, att, e);
    assert Grows(s, t);
    RowStays(s, t, id);
    if att.id == id { AttemptSurvives(s, t, att); }
    KeepsData(s, t, id);
  }

  /** A row changes within its epoch: it leaves 'waiting', or it takes a stack that fits its epoch. */
  lemma RowChangeKeepsData(s: State, other: ExecutionId, row: Row, id: ExecutionId)
    requires ResumeProtocol.Valid(s) && DataInv(s, id) && other in s.db && row.epoch == s.db[other].epoch
    requires other == id && row.status == Waiting ==> ByChild(s, id, row.epoch, row.stack)
    ensures DataInv(s.(db := s.db[other := row]), id)
  {
    var t := s.(db := s.db[other := row]);
    assert Grows(s, t);
    if other == id { ByChildSurvives(s, t, id, row.epoch, row.stack); } else { RowStays(s, t, id); }
    KeepsData(s, t, id);
  }

  /** Entering 'waiting' opens an epoch of its own. */
  lemma PersistKeepsData(s: State, e: Step, id: ExecutionId)
    requires ResumeProtocol.Valid(s) && DataInv(s, id) && ResumeProtocol.Enabled(s, e) && e.Persist?
    ensures DataInv(Apply(s, e), id)
  {
    var t := Apply(s, e);
    if e.status != Waiting {
      RowChangeKeepsData(s, e.id, t.db[e.id], id);
    } else {
      var epoch := s.db[e.id].epoch + 1;
      assert e.id == id ==> (id, epoch) !in s.bases;
      assert Restarts(s, t, e.id, epoch);
      NewEpochKeepsData(s, t, e.id, epoch, id);
    }
  }

  /** `t` is `s` with `other` waiting in the new `epoch`. */
  predicate Restarts(s: State, t: State, other: ExecutionId, epoch: nat) {
    && other in s.db && epoch == s.db[other].epoch + 1
    && other in t.db && t.db == s.db[other := t.db[other]] && t.db[other].epoch == epoch
    && t.bases == s.bases[(other, epoch) := t.db[other].stack]
    && t.attempts == s.attempts && t.wins == s.wins
  }

  lemma NewEpochKeepsData(s: State, t: State, other: ExecutionId, epoch: nat, id: ExecutionId)
    requires DataInv(s, id) && Restarts(s, t, other, epoch)
    ensures DataInv(t, id)
  {
  }

  lemma SpawnKeepsData(s: State, e: Step, id: ExecutionId)
    requires ResumeProtocol.Valid(s) && DataInv(s, id) && ResumeProtocol.Enabled(s, e) && e.Spawn?
    ensures DataInv(Apply(s, e), id)
  {
    var t := Apply(s, e);
    assert t.attempts[..|s.attempts|] == s.attempts;
    assert Grows(s, t);
    RowStays(s, t, id);
    KeepsData(s, t, id);
  }

  /** A child reads its parent and puts its own output at the head of what it read. */
  lemma ReadKeepsData(s: State, a: nat, id: ExecutionId)
    requires ResumeProtocol.Valid(s) && DataInv(s, id) && ResumeProtocol.Enabled(s, ReadParent(a))
    ensures DataInv(Apply(s, ReadParent(a)), id)
  {
    var att := s.attempts[a];
    var stage := AfterReading(s, att);
    if stage.Writing? && att.id == id {
      var row, d := s.db[id], att.cause.output.value;
      assert Output(s, id, d);
      ReadIsByChild(s, id, d);
    }
    AdvanceKeepsData(s, a, att.(stage := stage), None, id);
  }

  lemma ReadIsByChild(s: State, id: ExecutionId, d: Data)
    requires DataInv(s, id) && id in s.db && s.db[id].status == Waiting && s.db[id].stack.items != []
        && Output(s, id, d)
    ensures ByChild(s, id, s.db[id].epoch, WithHead(s.db[id].stack, d))
  {
    var row := s.db[id];
    assert OfEpoch(s, id, row.epoch, row.stack);
    var base := s.bases[(id, row.epoch)];
    assert WithHead(row.stack, d) == WithHead(base, d);
  }

  lemma WriteKeepsData(s: State, a: nat, id: ExecutionId)
    requires ResumeProtocol.Valid(s) && DataInv(s, id) && ResumeProtocol.Enabled(s, WriteParent(a))
    requires Prompt(s, WriteParent(a), id)
    ensures DataInv(Apply(s, WriteParent(a)), id)
  {
    var att := s.attempts[a];
    if att.id !in s.db {
      AdvanceKeepsData(s, a, att.(stage := Loading), None, id);
    } else {
      var row := s.db[att.id].(stack := att.stage.stack);
      RowChangeKeepsData(s, att.id, row, id);
      var t := s.(db := s.db[att.id := row]);
      var next := att.(stage := Loading, wroteIn := Some(row.epoch));
      if att.id == id { ByChildSurvives(s, t, id, row.epoch, row.stack); }
      AdvanceKeepsData(t, a, next, None, id);
    }
  }

  lemma LoadKeepsData(s: State, a: nat, id: ExecutionId)
    requires ResumeProtocol.Valid(s) && DataInv(s, id) && ResumeProtocol.Enabled(s, Load(a))
    ensures DataInv(Apply(s, Load(a)), id)
  {
    AdvanceKeepsData(s, a, StepLoad(s, a).attempts[a], None, id);
  }

  lemma FreshCommitKeepsData(s: State, a: nat, id: ExecutionId)
    requires ResumeProtocol.Valid(s) && DataInv(s, id) && ResumeProtocol.Enabled(s, Commit(a))
        && s.attempts[a].cause.Fresh?
    ensures DataInv(Apply(s, Commit(a)), id)
  {
    var att := s.attempts[a];
    var row := s.db[att.id].(status := Running);
    RowChangeKeepsData(s, att.id, row, id);
    AdvanceKeepsData(s.(db := s.db[att.id := row]), a, att.(stage := Committed(att.stage.stack, att.stage.r)),
        None, id);
  }

  lemma WinKeepsData(s: State, a: nat, id: ExecutionId)
    requires ResumeProtocol.Valid(s) && DataInv(s, id) && ResumeProtocol.Enabled(s, Commit(a))
    requires !s.attempts[a].cause.Fresh? && Wins(s, a)
    ensures DataInv(Apply(s, Commit(a)), id)
  {
    var att := s.attempts[a];
    var next := att.(stage := Committed(att.stage.stack, att.stage.r));
    var row := s.db[att.id].(status := Running, stack := att.stage.stack);
    RowChangeKeepsData(s, att.id, row, id);
    var t := s.(db := s.db[att.id := row]);
    AdvanceKeepsData(t, a, next, None, id);
    WinAddedKeepsData(Advance(t, a, next, None), Win(a, att.id, row.epoch, att.stage.stack), id);
  }

  lemma WinAddedKeepsData(s: State, w: Win, id: ExecutionId)
    requires DataInv(s, id) && w.attempt < |s.attempts| && s.attempts[w.attempt].id == w.id
    requires s.attempts[w.attempt].stage.Committed? && w.stack == s.attempts[w.attempt].stage.stack
    ensures DataInv(s.(wins := s.wins + [w]), id)
  {
    var t := s.(wins := s.wins + [w]);
    RowStays(s, t, id);
    if w.id == id { assert AttemptIsOfEpoch(s, s.attempts[w.attempt]) && WinIsOfEpoch(t, w); }
    assert t.wins[..|s.wins|] == s.wins;
    KeepsData(s, t, id);
  }

  lemma CommitKeepsData(s: State, a: nat, id: ExecutionId)
    requires ResumeProtocol.Valid(s) && DataInv(s, id) && ResumeProtocol.Enabled(s, Commit(a))
    ensures DataInv(Apply(s, Commit(a)), id)
  {
    var att := s.attempts[a];
    if att.cause.Fresh? {
      FreshCommitKeepsData(s, a, id);
    } else if Wins(s, a) {
      WinKeepsData(s, a, id);
    } else {
      AdvanceKeepsData(s, a, att.(stage := Lost(att.stage.r)), Some(Abandon(att.stage.r)), id);
    }
  }

  lemma HereKeepsData(s: State, p: nat, e: Event, id: ExecutionId)
    requires ResumeProtocol.Valid(s) && DataInv(s, id) && ResumeProtocol.Enabled(s, Here(p, e))
    ensures DataInv(Apply(s, Here(p, e)), id)
  {
    var t := Apply(s, Here(p, e));
    RowStays(s, t, id);
    KeepsData(s, t, id);
  }

  lemma InAddKeepsData(s: State, e: Step, id: ExecutionId)
    requires ResumeProtocol.Valid(s) && DataInv(s, id) && ResumeProtocol.Enabled(s, e)
    requires e.Begin? || e.Throttle? || e.Abort? || e.Enter?
    ensures DataInv(Apply(s, e), id)
  {
    AdvanceKeepsData(s, e.a, InAdd(s, e), Some(InRegistry(s, e)), id);
  }

  lemma StepKeepsData(s: State, e: Step, id: ExecutionId)
    requires ResumeProtocol.Valid(s) && DataInv(s, id) && ResumeProtocol.Enabled(s, e) && Prompt(s, e, id)
    ensures DataInv(Do(s, e), id)
  {
    match e
    case Spawn(_, _, _, _) => SpawnKeepsData(s, e, id);
    case ReadParent(a) => ReadKeepsData(s, a, id);
    case WriteParent(a) => WriteKeepsData(s, a, id);
    case Load(a) => LoadKeepsData(s, a, id);
    case Commit(a) => CommitKeepsData(s, a, id);
    case Persist(_, _, _, _) => PersistKeepsData(s, e, id);
    case Here(p, h) => HereKeepsData(s, p, h, id);
    case _ => InAddKeepsData(s, e, id);
  }

  // ---------------------------------------------------------------- over runs

  predicate IsPromptRun(s: State, es: seq<Step>, id: ExecutionId)
    requires ResumeProtocol.Valid(s) && ResumeProtocol.IsRun(s, es)
    decreases |es|
  {
    es == [] || (Prompt(s, es[0], id) && IsPromptRun(Do(s, es[0]), es[1..], id))
  }

  lemma {:induction false} PromptRunKeepsData(s: State, es: seq<Step>, id: ExecutionId)
    requires ResumeProtocol.Valid(s) && ResumeProtocol.IsRun(s, es) && IsPromptRun(s, es, id)
    requires DataInv(s, id)
    ensures DataInv(ResumeProtocol.After(s, es), id)
    decreases |es|
  {
    if es != [] {
      StepKeepsData(s, es[0], id);
      PromptRunKeepsData(Do(s, es[0]), es[1..], id);
    }
  }

  lemma InitialHasItsData(s: State, id: ExecutionId)
    requires Initial(s)
    ensures DataInv(s, id)
  {
  }

  /** If the winner had stored its own update in the epoch it resumes, and loaded it there, the stack
      is the one the epoch began with, except that some finished child's output is at its head. */
  ghost predicate HeadIsAChildsOutput(s: State, w: Win) {
    && w.attempt < |s.attempts|
    && var a := s.attempts[w.attempt];
       a.wroteIn == a.loadedIn == Some(w.epoch) ==>
         && (w.id, w.epoch) in s.bases
         && var base := s.bases[(w.id, w.epoch)].items;
            && |w.stack.items| == |base| > 0 && w.stack.items[1..] == base[1..]
            && w.stack.items[0].node == base[0].node
            && Output(s, w.id, w.stack.items[0].data)
  }

  lemma OfEpochIsAChildsOutput(s: State, w: Win)
    requires WinIsOfEpoch(s, w)
    ensures HeadIsAChildsOutput(s, w)
  {
    var a := s.attempts[w.attempt];
    if a.wroteIn == a.loadedIn == Some(w.epoch) {
      assert ByChild(s, w.id, w.epoch, w.stack);
      var base := s.bases[(w.id, w.epoch)];
      var d :| Output(s, w.id, d) && w.stack == WithHead(base, d);
      assert w.stack.items[1..] == base.items[1..];
    }
  }

  /** From a cold start, while no child of `id` is late: whenever a child resumes `id` that stored its
      update, loaded and won within one epoch, `id` runs with the output of some finished child of its
      own at the head of the stack the epoch began with, and the rest of the stack unchanged. */
  lemma {:induction false} ParentRunsWithAChildsOutput(s: State, es: seq<Step>, id: ExecutionId)
    requires Initial(s) && ResumeProtocol.Valid(s) && ResumeProtocol.IsRun(s, es) && IsPromptRun(s, es, id)
    ensures var t := ResumeProtocol.After(s, es);
            forall i :: 0 <= i < |t.wins| && t.wins[i].id == id ==> HeadIsAChildsOutput(t, t.wins[i])
  {
    InitialHasItsData(s, id);
    PromptRunKeepsData(s, es, id);
    var t := ResumeProtocol.After(s, es);
    forall i | 0 <= i < |t.wins| && t.wins[i].id == id ensures HeadIsAChildsOutput(t, t.wins[i]) {
      OfEpochIsAChildsOutput(t, t.wins[i]);
    }
  }

  /** No child update changes any execution's status, in whatever state it finds the parent. */
  lemma ChildUpdatesKeepStatus(s: State, e: Step)
    requires ResumeProtocol.Valid(s) && ResumeProtocol.Enabled(s, e) && (e.ReadParent? || e.WriteParent?)
    ensures var t := Do(s, e);
            && t.db.Keys == s.db.Keys && t.procs == s.procs && t.wins == s.wins
            && forall id :: id in s.db ==>
                 && t.db[id].status == s.db[id].status
                 && t.db[id].epoch == s.db[id].epoch && t.db[id].finished == s.db[id].finished
                 && (t.db[id] != s.db[id] ==> e.WriteParent? && id == s.attempts[e.a].id)
  {
  }
}

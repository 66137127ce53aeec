/** How an attempt goes on: what ends it, and that whoever finds its execution waiting resumes it. */
module ResumeProgress {
  import opened Wrappers
  import opened R = ExecutionRegistry
  import opened ResumeProtocol
  import opened ResumeLaws

  // ---------------------------------------------------------------- what ends an attempt

  /** A load finds no row or a finished one, or `add` fails. */
  predicate Ends(s: State, e: Step, a: nat)
    requires a < |s.attempts|
  {
    var id := s.attempts[a].id;
    e == Abort(a) || (e == Load(a) && (id !in s.db || s.db[id].finished))
  }

  /** The attempt that the step is one of, if any. */
  function Mover(e: Step): Option<nat> {
    match e
    case Spawn(_, _, _, _) => None
    case Persist(_, _, _, _) => None
    case Here(_, _) => None
    case _ => Some(e.a)
  }

  lemma CommitNeverFails(s: State, a: nat)
    requires ResumeProtocol.Valid(s) && ResumeProtocol.Enabled(s, Commit(a))
    ensures a < |StepCommit(s, a).attempts| && !StepCommit(s, a).attempts[a].stage.Failed?
  {
  }

  lemma ReadingNeverFails(s: State, a: nat)
    requires ResumeProtocol.Valid(s) && ResumeProtocol.Enabled(s, ReadParent(a))
    ensures !AfterReading(s, s.attempts[a]).Failed?
  {
  }

  lemma InAddFailsExactlyWhen(s: State, e: Step)
    requires ResumeProtocol.Valid(s) && ResumeProtocol.Enabled(s, e)
    requires e.Begin? || e.Throttle? || e.Abort? || e.Enter?
    ensures InAdd(s, e).stage.Failed? <==> e.Abort?
  {
  }

  lemma OwnStepFailsExactlyWhen(s: State, e: Step)
    requires ResumeProtocol.Valid(s) && ResumeProtocol.Enabled(s, e) && Mover(e).Some?
    ensures |Apply(s, e).attempts| == |s.attempts|
    ensures Apply(s, e).attempts[e.a].stage.Failed? <==> Ends(s, e, e.a)
  {
    if e.Commit? {
      CommitNeverFails(s, e.a);
      CommitMovesOneAttempt(s, e.a);
    } else if e.ReadParent? {
      ReadingNeverFails(s, e.a);
    } else if e.Begin? || e.Throttle? || e.Abort? || e.Enter? {
      InAddFailsExactlyWhen(s, e);
    }
  }

  lemma OthersStay(s: State, e: Step, a: nat)
    requires ResumeProtocol.Valid(s) && ResumeProtocol.Enabled(s, e) && a < |s.attempts| && Mover(e) != Some(a)
    ensures a < |Apply(s, e).attempts| && Apply(s, e).attempts[a] == s.attempts[a]
  {
    StepMovesOneAttempt(s, e);
  }

  /** Nothing else makes an attempt fail: not a child without output, not a parent that does not wait,
      not a step of another attempt or process. */
  lemma FailsExactlyWhen(s: State, e: Step, a: nat)
    requires ResumeProtocol.Valid(s) && ResumeProtocol.Enabled(s, e)
    requires a < |s.attempts| && !s.attempts[a].stage.Failed?
    ensures a < |Do(s, e).attempts| && (Do(s, e).attempts[a].stage.Failed? <==> Ends(s, e, a))
  {
    if Mover(e) == Some(a) { OwnStepFailsExactlyWhen(s, e); } else { OthersStay(s, e, a); }
  }

  // ---------------------------------------------------------------- what changes a row

  /** The attempts whose commit sets the execution running. */
  predicate SetsRunning(s: State, e: Step, id: ExecutionId)
    requires ResumeProtocol.Enabled(s, e)
  {
    && e.Commit? && s.attempts[e.a].id == id && id in s.db
    && (s.attempts[e.a].cause.Fresh? || s.db[id].status == Waiting)
  }

  lemma CommitChangesItsRow(s: State, a: nat, id: ExecutionId)
    requires ResumeProtocol.Valid(s) && ResumeProtocol.Enabled(s, Commit(a)) && id in s.db
    ensures var was, db := s.db[id], StepCommit(s, a).db;
            && id in db && db[id].epoch == was.epoch && db[id].finished == was.finished
            && db[id].status == (if SetsRunning(s, Commit(a), id) then Running else was.status)
            && db[id].stack == (if SetsRunning(s, Commit(a), id) && !s.attempts[a].cause.Fresh?
                                then s.attempts[a].stage.stack else was.stack)
  {
  }

  /** A step that writes no whole row sets an execution running if and only if it is the commit of a
      fresh attempt or of one that finds it waiting; it changes no other status. */
  lemma StatusChangesExactlyWhen(s: State, e: Step, id: ExecutionId)
    requires ResumeProtocol.Valid(s) && ResumeProtocol.Enabled(s, e) && id in s.db && !e.Persist?
    ensures id in Apply(s, e).db
    ensures Apply(s, e).db[id].status == if SetsRunning(s, e, id) then Running else s.db[id].status
  {
    if e.Commit? { CommitChangesItsRow(s, e.a, id); }
  }

  /** Its stack changes only with the write of a child, to what that child holds, and with a resume, to
      what the attempt has loaded. */
  lemma StackChangesExactlyWhen(s: State, e: Step, id: ExecutionId)
    requires ResumeProtocol.Valid(s) && ResumeProtocol.Enabled(s, e) && id in s.db && !e.Persist?
    ensures id in Apply(s, e).db
    ensures Apply(s, e).db[id].stack ==
            if e.WriteParent? && s.attempts[e.a].id == id then s.attempts[e.a].stage.stack
            else if SetsRunning(s, e, id) && !s.attempts[e.a].cause.Fresh? then s.attempts[e.a].stage.stack
            else s.db[id].stack
  {
    if e.Commit? { CommitChangesItsRow(s, e.a, id); }
  }

  /** Rows appear for fresh executions only, not yet running. */
  lemma RowsAppearExactlyWhen(s: State, e: Step, id: ExecutionId)
    requires ResumeProtocol.Valid(s) && ResumeProtocol.Enabled(s, e) && id !in s.db
    ensures id in Apply(s, e).db <==> e.Spawn? && e.cause.Fresh? && e.id == id
    ensures id in Apply(s, e).db ==> Apply(s, e).db[id] == Row(New, false, Stack(e.items, 0), 0)
  {
  }

  /** A child prepares an update if and only if it has an output and finds a waiting parent with a
      stack: the parent's stack, with the output as the data of the first item. */
  lemma PreparesExactlyWhen(s: State, a: nat)
    requires ResumeProtocol.Valid(s) && ResumeProtocol.Enabled(s, ReadParent(a))
    ensures var att, now := s.attempts[a], Apply(s, ReadParent(a)).attempts[a].stage;
            && (now.Writing? <==>
                  && att.cause.output.Some?
                  && att.id in s.db && s.db[att.id].status == Waiting && s.db[att.id].stack.items != [])
            && (!now.Writing? ==> now == Loading)
            && (now.Writing? ==>
                  var was := s.db[att.id].stack;
                  && |now.stack.items| == |was.items| && now.stack.stamp == was.stamp
                  && now.stack.items[0] == StackItem(was.items[0].node, att.cause.output.value)
                  && forall k :: 0 < k < |was.items| ==> now.stack.items[k] == was.items[k])
  {
  }

  // ---------------------------------------------------------------- one step further

  /** Attempt `a` has come to `now`, nothing has happened to the database or to the wins. */
  predicate MovedOn(s: State, t: State, a: nat, now: Stage)
    requires a < |s.attempts|
  {
    && t.db == s.db && t.wins == s.wins && |t.attempts| == |s.attempts|
    && t.attempts[a].id == s.attempts[a].id && t.attempts[a].cause == s.attempts[a].cause
    && t.attempts[a].stage == now
  }

  predicate FindsItWaiting(s: State, a: nat)
    requires a < |s.attempts|
  {
    var id := s.attempts[a].id;
    !s.attempts[a].cause.Fresh? && id in s.db && s.db[id].status == Waiting && !s.db[id].finished
  }

  lemma Begins(s: State, a: nat)
    requires ResumeProtocol.Valid(s) && a < |s.attempts| && s.attempts[a].stage.Loaded?
    ensures ResumeProtocol.Enabled(s, Begin(a))
    ensures MovedOn(s, Do(s, Begin(a)), a,
                    Reserving(s.attempts[a].stage.stack, |s.procs[s.attempts[a].proc].reservations|))
  {
  }

  lemma Reserves(s: State, a: nat)
    requires ResumeProtocol.Valid(s) && a < |s.attempts| && s.attempts[a].stage.Reserving?
    ensures ResumeProtocol.Enabled(s, Throttle(a))
    ensures MovedOn(s, Do(s, Throttle(a)), a, Reserved(s.attempts[a].stage.stack, s.attempts[a].stage.r))
  {
  }

  /** The waiting row is now running with the attempt's stack, and the win is recorded. */
  predicate WonBy(s: State, t: State, a: nat, stack: Stack)
    requires a < |s.attempts| && FindsItWaiting(s, a)
  {
    var id := s.attempts[a].id;
    && id in t.db && t.db[id] == s.db[id].(status := Running, stack := stack)
    && t.wins == s.wins + [Win(a, id, s.db[id].epoch, stack)]
  }

  lemma Commits(s: State, a: nat)
    requires ResumeProtocol.Valid(s) && a < |s.attempts| && s.attempts[a].stage.Reserved? && FindsItWaiting(s, a)
    ensures ResumeProtocol.Enabled(s, Commit(a))
    ensures WonBy(s, Do(s, Commit(a)), a, s.attempts[a].stage.stack)
  {
  }

  lemma Loads(s: State, a: nat)
    requires ResumeProtocol.Valid(s) && a < |s.attempts| && s.attempts[a].stage.Loading? && FindsItWaiting(s, a)
    ensures ResumeProtocol.Enabled(s, Load(a))
    ensures MovedOn(s, Do(s, Load(a)), a, Loaded(s.db[s.attempts[a].id].stack))
  {
  }

  // ---------------------------------------------------------------- whoever finds it waiting

  function FromBegin(a: nat): seq<Step> {
    [Begin(a)] + ([Throttle(a)] + ([Commit(a)] + []))
  }

  /** Whatever it has loaded, and whenever. */
  lemma LoadedWins(s: State, a: nat)
    requires ResumeProtocol.Valid(s) && a < |s.attempts| && s.attempts[a].stage.Loaded? && FindsItWaiting(s, a)
    ensures ResumeProtocol.IsRun(s, FromBegin(a))
    ensures WonBy(s, ResumeProtocol.After(s, FromBegin(a)), a, s.attempts[a].stage.stack)
  {
    Begins(s, a);
    var s1 := Do(s, Begin(a));
    Reserves(s1, a);
    var s2 := Do(s1, Throttle(a));
    Commits(s2, a);
    var s3 := Do(s2, Commit(a));
    Cons(s2, Commit(a), s3, []);
    Cons(s1, Throttle(a), s2, [Commit(a)] + []);
    Cons(s, Begin(a), s1, [Throttle(a)] + ([Commit(a)] + []));
  }

  function FromLoad(a: nat): seq<Step> {
    [Load(a)] + FromBegin(a)
  }

  /** A timer, or a child whose update is over. */
  lemma LoadingWins(s: State, a: nat)
    requires ResumeProtocol.Valid(s) && a < |s.attempts| && s.attempts[a].stage.Loading? && FindsItWaiting(s, a)
    ensures ResumeProtocol.IsRun(s, FromLoad(a))
    ensures WonBy(s, ResumeProtocol.After(s, FromLoad(a)), a, s.db[s.attempts[a].id].stack)
  {
    Loads(s, a);
    LoadedWins(Do(s, Load(a)), a);
    Cons(s, Load(a), Do(s, Load(a)), FromBegin(a));
  }

  /** What a child makes of its parent's stack. */
  function Updated(stack: Stack, output: Option<Data>): Stack {
    if output.Some? && stack.items != [] then WithHead(stack, output.value) else stack
  }

  lemma Reads(s: State, a: nat)
    requires ResumeProtocol.Valid(s) && a < |s.attempts| && s.attempts[a].stage.Updating?
    requires s.attempts[a].cause.Child? && FindsItWaiting(s, a)
    ensures ResumeProtocol.Enabled(s, ReadParent(a))
    ensures var att, row := s.attempts[a], s.db[s.attempts[a].id];
            MovedOn(s, Do(s, ReadParent(a)), a,
                    if att.cause.output.Some? && row.stack.items != []
                    then Writing(Updated(row.stack, att.cause.output), row.epoch) else Loading)
  {
  }

  lemma Writes(s: State, a: nat)
    requires ResumeProtocol.Valid(s) && a < |s.attempts| && s.attempts[a].stage.Writing? && FindsItWaiting(s, a)
    ensures ResumeProtocol.Enabled(s, WriteParent(a))
    ensures var id := s.attempts[a].id;
            MovedOn(s.(db := s.db[id := s.db[id].(stack := s.attempts[a].stage.stack)]), Do(s, WriteParent(a)), a,
                    Loading)
  {
  }

  function ChildsRun(s: State, a: nat): seq<Step>
    requires a < |s.attempts| && s.attempts[a].cause.Child? && FindsItWaiting(s, a)
  {
    var att := s.attempts[a];
    [ReadParent(a)] +
    if att.cause.output.Some? && s.db[att.id].stack.items != [] then [WriteParent(a)] + FromLoad(a) else FromLoad(a)
  }

  /** A finished child, with an output or without one, whose parent still waits resumes it: its own
      steps, taken in order from any state of the system, win the epoch with the child's output at the
      head of the stack, or with the stack as it was if the child has no output or the stack no head. */
  lemma ChildResumesItsParent(s: State, a: nat)
    requires ResumeProtocol.Valid(s) && a < |s.attempts| && s.attempts[a].stage.Updating?
    requires s.attempts[a].cause.Child? && FindsItWaiting(s, a)
    ensures ResumeProtocol.IsRun(s, ChildsRun(s, a))
    ensures WonBy(s, ResumeProtocol.After(s, ChildsRun(s, a)), a,
                  Updated(s.db[s.attempts[a].id].stack, s.attempts[a].cause.output))
  {
    Reads(s, a);
    var t := Do(s, ReadParent(a));
    if t.attempts[a].stage.Writing? {
      Writes(t, a);
      var u := Do(t, WriteParent(a));
      LoadingWins(u, a);
      Cons(t, WriteParent(a), u, FromLoad(a));
      Cons(s, ReadParent(a), t, [WriteParent(a)] + FromLoad(a));
    } else {
      LoadingWins(t, a);
      Cons(s, ReadParent(a), t, FromLoad(a));
    }
  }
}

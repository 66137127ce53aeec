/** Runs with stale data, from every state in which an execution waits. */
module StaleRuns {
  import opened Wrappers
  import opened R = ExecutionRegistry
  import opened ResumeProtocol
  import opened ResumeLaws
  import ResumeData
  import opened ResumeProgress

  predicate IsWaiting(s: State, id: ExecutionId) {
    id in s.db && s.db[id].status == Waiting && !s.db[id].finished
  }

  /** A timer attempt in process `p`, the next one in the list. */
  function Rival(s: State, p: nat, id: ExecutionId): seq<Step> {
    [Spawn(p, id, Timer, [])] + FromLoad(|s.attempts|)
  }

  /** Whatever the others are doing, it resumes the execution. */
  lemma RivalWins(s: State, p: nat, id: ExecutionId)
    requires ResumeProtocol.Valid(s) && p < |s.procs| && IsWaiting(s, id)
    ensures ResumeProtocol.IsRun(s, Rival(s, p, id))
    ensures var t := ResumeProtocol.After(s, Rival(s, p, id));
            && id in t.db && t.db[id] == s.db[id].(status := Running)
            && t.wins == s.wins + [Win(|s.attempts|, id, s.db[id].epoch, s.db[id].stack)]
            && |s.attempts| <= |t.attempts| && forall a :: 0 <= a < |s.attempts| ==> t.attempts[a] == s.attempts[a]
  {
    var b, t := |s.attempts|, Do(s, Spawn(p, id, Timer, []));
    LoadingWins(t, b);
    Cons(s, Spawn(p, id, Timer, []), t, FromLoad(b));
    OnlyMoves(b);
    OthersStall(t, FromLoad(b), b);
  }

  lemma OnlyMoves(b: nat)
    ensures forall e :: e in FromLoad(b) ==> Mover(e) == Some(b)
  {
  }

  lemma {:induction false} OthersStall(s: State, es: seq<Step>, b: nat)
    requires ResumeProtocol.Valid(s) && ResumeProtocol.IsRun(s, es)
    requires forall e :: e in es ==> Mover(e) == Some(b)
    ensures var t := ResumeProtocol.After(s, es);
            |s.attempts| <= |t.attempts|
            && forall a :: 0 <= a < |s.attempts| && a != b ==> t.attempts[a] == s.attempts[a]
    decreases |es|
  {
    if es != [] {
      var t := Do(s, es[0]);
      assert es[0] in es;
      StepMovesOneAttempt(s, es[0]);
      forall a | 0 <= a < |s.attempts| && a != b ensures t.attempts[a] == s.attempts[a] {
        OthersStay(s, es[0], a);
      }
      assert forall e :: e in es[1..] ==> e in es;
      OthersStall(t, es[1..], b);
    }
  }

  /** It is resumed by a rival and waits again, while everybody else is held up. */
  lemma WaitsAgain(s: State, p: nat, id: ExecutionId, items: seq<StackItem>) returns (es: seq<Step>)
    requires ResumeProtocol.Valid(s) && p < |s.procs| && IsWaiting(s, id)
    ensures ResumeProtocol.IsRun(s, es)
    ensures var t, next := ResumeProtocol.After(s, es), s.db[id].epoch + 1;
            && id in t.db && t.db[id] == Row(Waiting, false, Stack(items, next), next)
            && t.wins == s.wins + [Win(|s.attempts|, id, s.db[id].epoch, s.db[id].stack)]
            && |s.attempts| <= |t.attempts| && forall a :: 0 <= a < |s.attempts| ==> t.attempts[a] == s.attempts[a]
  {
    RivalWins(s, p, id);
    var t, persist := ResumeProtocol.After(s, Rival(s, p, id)), Persist(id, Waiting, false, items);
    Cons(t, persist, Do(t, persist), []);
    Concat(s, Rival(s, p, id), t, [persist] + []);
    es := Rival(s, p, id) + ([persist] + []);
  }

  /** The two wins of a run: the rival's of the epoch of `s`, with the data of that epoch, and that of
      attempt `a` of the next one, with `stack`. */
  predicate TwoWins(s: State, t: State, a: nat, b: nat, id: ExecutionId, stack: Stack)
    requires id in s.db
  {
    var row := s.db[id];
    t.wins == s.wins + [Win(b, id, row.epoch, row.stack)] + [Win(a, id, row.epoch + 1, stack)]
  }

  /** The loaded attempt goes on from `t`. */
  predicate WinsNext(s: State, t: State, a: nat)
    requires a < |s.attempts| && s.attempts[a].stage.Loaded? && s.attempts[a].id in s.db && ResumeProtocol.Valid(t)
  {
    && ResumeProtocol.IsRun(t, FromBegin(a))
    && TwoWins(s, ResumeProtocol.After(t, FromBegin(a)), a, |s.attempts|, s.attempts[a].id, s.attempts[a].stage.stack)
  }

  lemma StalledWins(s: State, t: State, a: nat, items: seq<StackItem>)
    requires a < |s.attempts| && s.attempts[a].stage.Loaded? && FindsItWaiting(s, a) && ResumeProtocol.Valid(t)
    requires a < |t.attempts| && t.attempts[a] == s.attempts[a]
    requires var id, next := s.attempts[a].id, s.db[s.attempts[a].id].epoch + 1;
             && id in t.db && t.db[id] == Row(Waiting, false, Stack(items, next), next)
             && t.wins == s.wins + [Win(|s.attempts|, id, s.db[id].epoch, s.db[id].stack)]
    ensures WinsNext(s, t, a)
  {
    LoadedWins(t, a);
  }

  /** An attempt that has loaded a waiting execution and is held up, for instance by the concurrency
      limit, over a run in which the execution is resumed by another one and waits again, then wins the new
      epoch with the data of the old one: the conditional update checks the status alone. */
  lemma StaleDataCanWin(s: State, a: nat, p: nat, items: seq<StackItem>) returns (es: seq<Step>, t: State)
    requires ResumeProtocol.Valid(s) && p < |s.procs|
    requires a < |s.attempts| && s.attempts[a].stage.Loaded? && FindsItWaiting(s, a)
    ensures ResumeProtocol.IsRun(s, es) && t == ResumeProtocol.After(s, es) && WinsNext(s, t, a)
  {
    es := WaitsAgain(s, p, s.attempts[a].id, items);
    t := ResumeProtocol.After(s, es);
    StalledWins(s, t, a, items);
  }

  /** Such an attempt is two steps away from every state with a waiting execution. */
  lemma TimerLoads(s: State, p: nat, id: ExecutionId) returns (es: seq<Step>)
    requires ResumeProtocol.Valid(s) && p < |s.procs| && IsWaiting(s, id)
    ensures ResumeProtocol.IsRun(s, es)
    ensures var t, a := ResumeProtocol.After(s, es), |s.attempts|;
            && t.db == s.db && t.wins == s.wins && |t.procs| == |s.procs| && |t.attempts| == a + 1
            && t.attempts[a].id == id && t.attempts[a].cause == Timer
            && t.attempts[a].stage == Loaded(s.db[id].stack)
  {
    var a, spawn := |s.attempts|, Spawn(p, id, Timer, []);
    var t := Do(s, spawn);
    ResumeProgress.Loads(t, a);
    Cons(t, Load(a), Do(t, Load(a)), []);
    Cons(s, spawn, t, [Load(a)] + []);
    es := [spawn] + ([Load(a)] + []);
  }

  /** A child that is held up between its read and its write, until its parent has been resumed and waits
      again, overwrites the newer stack with the older one. */
  lemma LateChildUpdateOverwrites(s: State, a: nat, p: nat, items: seq<StackItem>) returns (es: seq<Step>)
    requires ResumeProtocol.Valid(s) && p < |s.procs|
    requires a < |s.attempts| && s.attempts[a].stage.Writing? && FindsItWaiting(s, a)
    requires s.attempts[a].stage.readIn == s.db[s.attempts[a].id].epoch
    ensures ResumeProtocol.IsRun(s, es)
    ensures var id, next := s.attempts[a].id, s.db[s.attempts[a].id].epoch + 1;
            var t := ResumeProtocol.After(s, es);
            && id in t.db && t.db[id].stack == Stack(items, next)
            && ResumeProtocol.Enabled(t, WriteParent(a)) && !ResumeData.Prompt(t, WriteParent(a), id)
            && id in Do(t, WriteParent(a)).db
            && Do(t, WriteParent(a)).db[id] == Row(Waiting, false, s.attempts[a].stage.stack, next)
  {
    es := WaitsAgain(s, p, s.attempts[a].id, items);
    Writes(ResumeProtocol.After(s, es), a);
  }
}

/**
 The activation queue of `ActiveWorkflowManager`: workflows whose activation failed are tried again
 after growing delays.

 A retry is two steps, the timer firing and the outcome of the `add` it awaits; anything may happen
 in between. Timers live in an append-only heap and are named by their index.
 */
module ActivationQueue {
  import opened Wrappers

  type WorkflowId = string

  const INITIAL_TIMEOUT := 1000
  const MAX_TIMEOUT := 24 * 60 * 60 * 1000

  datatype Phase = Armed | Cleared | Trying | Done

  datatype Timer = Timer(id: WorkflowId, delay: int, phase: Phase)

  datatype Entry = Entry(lastTimeout: int, timeout: nat)

  datatype Queue = Queue(queued: map<WorkflowId, Entry>, timers: seq<Timer>, isMultiMain: bool)

  /** How the `add` of a retry ends: activated, which clears the queue; handed over to the leader; or
      failed. With several mains it only publishes a command and returns, with one it activates the
      workflow itself. One that fails after it has cleared the queue is a `Remove` first and `Failed`
      later. */
  datatype Outcome = Activated | HandedOver | Failed

  datatype Event =
    | Enqueue(id: WorkflowId)
    | Remove(id: WorkflowId)         // also what a successful `add` from elsewhere does
    | RemoveAll
    | Fire(k: nat)
    | Settle(k: nat, outcome: Outcome)

  predicate Valid(s: Queue) {
    forall id :: id in s.queued ==>
      s.queued[id].timeout < |s.timers| && s.timers[s.queued[id].timeout].id == id
  }

  predicate Owns(s: Queue, k: nat)
    requires k < |s.timers|
  {
    s.timers[k].id in s.queued && s.queued[s.timers[k].id].timeout == k
  }

  predicate Enabled(s: Queue, e: Event) {
    match e
    case Fire(k) => k < |s.timers| && s.timers[k].phase == Armed
    case Settle(k, outcome) =>
      && k < |s.timers| && s.timers[k].phase == Trying
      && (outcome.Activated? ==> !s.isMultiMain) && (outcome.HandedOver? ==> s.isMultiMain)
    case _ => true
  }

  // ---------------------------------------------------------------- the effect of each operation

  /** `clearTimeout` */
  function Clear(timer: Timer): Timer {
    if timer.phase == Armed then timer.(phase := Cleared) else timer
  }

  function Removed(s: Queue, id: WorkflowId): (t: Queue)
    requires Valid(s)
    ensures Valid(t) && id !in t.queued
  {
    if id !in s.queued then s
    else
      var k := s.queued[id].timeout;
      s.(queued := s.queued - {id}, timers := s.timers[k := Clear(s.timers[k])])
  }

  function AllRemoved(s: Queue): (t: Queue)
    requires Valid(s)
    ensures Valid(t)
  {
    s.(queued := map[],
       timers := seq(|s.timers|, k requires 0 <= k < |s.timers| =>
                       if Owns(s, k) then Clear(s.timers[k]) else s.timers[k]))
  }

  /** `setTimeout`, kept in the entry of `id`. */
  function Arm(s: Queue, id: WorkflowId, delay: int): (t: Queue)
    requires Valid(s)
    ensures Valid(t)
  {
    s.(queued := s.queued[id := Entry(delay, |s.timers|)], timers := s.timers + [Timer(id, delay, Armed)])
  }

  function Enqueued(s: Queue, id: WorkflowId): (t: Queue)
    requires Valid(s)
    ensures Valid(t)
  {
    Arm(Removed(s, id), id, INITIAL_TIMEOUT)
  }

  function Longer(timeout: int): int {
    if timeout >= MAX_TIMEOUT then timeout
    else if timeout * 2 <= MAX_TIMEOUT then timeout * 2 else MAX_TIMEOUT
  }

  /** The catch block of the retry; without an entry it throws a TypeError before it does anything. */
  function Retried(s: Queue, id: WorkflowId): (t: Queue)
    requires Valid(s)
    ensures Valid(t)
  {
    if id !in s.queued then s else Arm(s, id, Longer(s.queued[id].lastTimeout))
  }

  function SetPhase(s: Queue, k: nat, phase: Phase): (t: Queue)
    requires Valid(s) && k < |s.timers|
    ensures Valid(t)
  {
    s.(timers := s.timers[k := s.timers[k].(phase := phase)])
  }

  function Settled(s: Queue, k: nat, outcome: Outcome): (t: Queue)
    requires Valid(s) && k < |s.timers|
    ensures Valid(t)
  {
    var id := s.timers[k].id;
    var r := SetPhase(s, k, Done);
    match outcome
    case Activated => Removed(r, id)
    case HandedOver => r
    case Failed => Retried(r, id)
  }

  function Next(s: Queue, e: Event): (t: Queue)
    requires Valid(s) && Enabled(s, e)
    ensures Valid(t) && t.isMultiMain == s.isMultiMain
  {
    match e
    case Enqueue(id) => Enqueued(s, id)
    case Remove(id) => Removed(s, id)
    case RemoveAll => AllRemoved(s)
    case Fire(k) => SetPhase(s, k, Trying)
    case Settle(k, outcome) => Settled(s, k, outcome)
  }

  // ---------------------------------------------------------------- the manager's queue

  class ActiveWorkflowManager {
    var queuedActivations: map<WorkflowId, Entry>
    var timers: seq<Timer>
    const isMultiMain: bool

    ghost function State(): Queue
      reads this
    {
      Queue(queuedActivations, timers, isMultiMain)
    }

    constructor (isMultiMain: bool)
      ensures State() == Queue(map[], [], isMultiMain)
    {
      queuedActivations, timers, this.isMultiMain := map[], [], isMultiMain;
    }

    method AddQueuedWorkflowActivation(id: WorkflowId)
      requires Valid(State())
      modifies this
      ensures State() == Enqueued(old(State()), id)
    {
      RemoveQueuedWorkflowActivation(id);
      queuedActivations := queuedActivations[id := Entry(INITIAL_TIMEOUT, |timers|)];
      timers := timers + [Timer(id, INITIAL_TIMEOUT, Armed)];
    }

    method RemoveQueuedWorkflowActivation(id: WorkflowId)
      requires Valid(State())
      modifies this
      ensures State() == Removed(old(State()), id)
    {
      if id in queuedActivations {
        var k := queuedActivations[id].timeout;
        timers := timers[k := Clear(timers[k])];
        queuedActivations := queuedActivations - {id};
      }
    }

    method RemoveAllQueuedWorkflowActivations()
      requires Valid(State())
      modifies this
      ensures State() == AllRemoved(old(State()))
    {
      var ids := queuedActivations.Keys;
      while ids != {}
        invariant Valid(State()) && queuedActivations == old(queuedActivations) - (old(queuedActivations).Keys - ids)
        invariant ids <= old(queuedActivations).Keys && |timers| == |old(timers)|
        invariant forall k :: 0 <= k < |timers| ==>
                    timers[k] == if Owns(old(State()), k) && old(timers)[k].id !in ids
                                 then Clear(old(timers)[k]) else old(timers)[k]
        decreases ids
      {
        var id :| id in ids;
        RemoveQueuedWorkflowActivation(id);
        ids := ids - {id};
      }
      assert queuedActivations == map[];
    }

    /** The retry function, from the end of its `add` on. */
    method RetryEnds(k: nat, outcome: Outcome)
      requires Valid(State()) && Enabled(State(), Settle(k, outcome))
      modifies this
      ensures State() == Settled(old(State()), k, outcome)
    {
      var id := timers[k].id;
      timers := timers[k := timers[k].(phase := Done)];
      if outcome == Activated {
        RemoveQueuedWorkflowActivation(id);
      } else if outcome == Failed {
        if id !in queuedActivations { return; }
        var lastTimeout := queuedActivations[id].lastTimeout;
        if lastTimeout < MAX_TIMEOUT {
          lastTimeout := if lastTimeout * 2 < MAX_TIMEOUT then lastTimeout * 2 else MAX_TIMEOUT;
        }
        queuedActivations := queuedActivations[id := Entry(lastTimeout, |timers|)];
        timers := timers + [Timer(id, lastTimeout, Armed)];
      }
    }
  }

  // ---------------------------------------------------------------- runs

  predicate IsRun(s: Queue, es: seq<Event>)
    requires Valid(s)
    decreases |es|
  {
    es == [] || (Enabled(s, es[0]) && IsRun(Next(s, es[0]), es[1..]))
  }

  function After(s: Queue, es: seq<Event>): (t: Queue)
    requires Valid(s) && IsRun(s, es)
    ensures Valid(t)
    decreases |es|
  {
    if es == [] then s else After(Next(s, es[0]), es[1..])
  }

  // ---------------------------------------------------------------- the delays

  function Pow2(n: nat): (p: nat)
    ensures p > 0
  {
    if n == 0 then 1 else 2 * Pow2(n - 1)
  }

  function Delay(n: nat): int {
    if INITIAL_TIMEOUT * Pow2(n) < MAX_TIMEOUT then INITIAL_TIMEOUT * Pow2(n) else MAX_TIMEOUT
  }

  lemma LongerDelay(n: nat)
    ensures Longer(Delay(n)) == Delay(n + 1)
  {
    assert Pow2(n + 1) == 2 * Pow2(n);
  }

  /** How often the activation of `id` has failed since it was queued, told by the events alone;
      nothing while it is not queued. */
  function FailuresAfter(s: Queue, failures: map<WorkflowId, nat>, e: Event): (after: map<WorkflowId, nat>)
    requires Enabled(s, e)
  {
    match e
    case Enqueue(id) => failures[id := 0]
    case Remove(id) => failures - {id}
    case RemoveAll => map[]
    case Fire(_) => failures
    case Settle(k, outcome) =>
      var id := s.timers[k].id;
      match outcome
      case Failed => if id in failures then failures[id := failures[id] + 1] else failures
      case HandedOver => failures
      case Activated => failures - {id}
  }

  function Failures(s: Queue, failures: map<WorkflowId, nat>, es: seq<Event>): map<WorkflowId, nat>
    requires Valid(s) && IsRun(s, es)
    decreases |es|
  {
    if es == [] then failures else Failures(Next(s, es[0]), FailuresAfter(s, failures, es[0]), es[1..])
  }

  /** Entries record, and their timers were set with, the delay for the number of failures so far. */
  predicate Delayed(s: Queue, failures: map<WorkflowId, nat>)
    requires Valid(s)
  {
    && s.queued.Keys == failures.Keys
    && forall id :: id in s.queued ==>
         && s.queued[id].lastTimeout == Delay(failures[id])
         && s.timers[s.queued[id].timeout].delay == Delay(failures[id])
  }

  lemma RemoveKeepsDelayed(s: Queue, failures: map<WorkflowId, nat>, id: WorkflowId)
    requires Valid(s) && Delayed(s, failures)
    ensures Delayed(Removed(s, id), failures - {id})
  {
    if id !in s.queued { assert failures - {id} == failures; }
  }

  lemma ArmKeepsDelayed(s: Queue, failures: map<WorkflowId, nat>, id: WorkflowId, n: nat)
    requires Valid(s) && Delayed(s, failures)
    ensures Delayed(Arm(s, id, Delay(n)), failures[id := n])
  {
    var t := Arm(s, id, Delay(n));
    assert forall k :: 0 <= k < |s.timers| ==> t.timers[k] == s.timers[k];
  }

  lemma RetryKeepsDelayed(r: Queue, failures: map<WorkflowId, nat>, id: WorkflowId)
    requires Valid(r) && Delayed(r, failures)
    ensures Delayed(Retried(r, id), if id in failures then failures[id := failures[id] + 1] else failures)
  {
    if id in failures {
      LongerDelay(failures[id]);
      ArmKeepsDelayed(r, failures, id, failures[id] + 1);
    }
  }

  lemma PhaseKeepsDelayed(s: Queue, failures: map<WorkflowId, nat>, k: nat, phase: Phase)
    requires Valid(s) && Delayed(s, failures) && k < |s.timers|
    ensures Delayed(SetPhase(s, k, phase), failures)
  {
  }

  lemma SettleKeepsDelayed(s: Queue, failures: map<WorkflowId, nat>, k: nat, outcome: Outcome)
    requires Valid(s) && Delayed(s, failures) && Enabled(s, Settle(k, outcome))
    ensures Delayed(Settled(s, k, outcome), FailuresAfter(s, failures, Settle(k, outcome)))
  {
    var id, r := s.timers[k].id, SetPhase(s, k, Done);
    PhaseKeepsDelayed(s, failures, k, Done);
    match outcome
    case Activated => RemoveKeepsDelayed(r, failures, id);
    case HandedOver =>
    case Failed => RetryKeepsDelayed(r, failures, id);
  }

  lemma StepKeepsDelayed(s: Queue, failures: map<WorkflowId, nat>, e: Event)
    requires Valid(s) && Delayed(s, failures) && Enabled(s, e)
    ensures Delayed(Next(s, e), FailuresAfter(s, failures, e))
  {
    match e
    case Enqueue(id) =>
      RemoveKeepsDelayed(s, failures, id);
      ArmKeepsDelayed(Removed(s, id), failures - {id}, id, 0);
      assert (failures - {id})[id := 0] == failures[id := 0];
    case Remove(id) => RemoveKeepsDelayed(s, failures, id);
    case RemoveAll =>
    case Fire(k) => PhaseKeepsDelayed(s, failures, k, Trying);
    case Settle(k, outcome) => SettleKeepsDelayed(s, failures, k, outcome);
  }

  /** After `n` failures since it was queued, a workflow's next try comes after
      min(1000 * 2^n, 86400000) ms, over every run, however retries overlap with other calls. */
  lemma {:induction false} DelaysDouble(s: Queue, failures: map<WorkflowId, nat>, es: seq<Event>)
    requires Valid(s) && Delayed(s, failures) && IsRun(s, es)
    ensures Delayed(After(s, es), Failures(s, failures, es))
    decreases |es|
  {
    if es != [] {
      StepKeepsDelayed(s, failures, es[0]);
      DelaysDouble(Next(s, es[0]), FailuresAfter(s, failures, es[0]), es[1..]);
    }
  }

  // ---------------------------------------------------------------- one timer for each

  predicate Active(timer: Timer) {
    timer.phase == Armed || timer.phase == Trying
  }

  /** Each queued workflow has one timer armed or being tried, its entry's, and no other does. */
  predicate OneTimerEach(s: Queue)
    requires Valid(s)
  {
    forall k :: 0 <= k < |s.timers| ==> (Owns(s, k) <==> Active(s.timers[k]))
  }

  predicate BeingTried(s: Queue, id: WorkflowId)
    requires Valid(s)
  {
    id in s.queued && s.timers[s.queued[id].timeout].phase == Trying
  }

  /** Touching a workflow while its retry is under way, or, with several mains, a retry that does not
      fail. */
  predicate Disturbs(s: Queue, e: Event)
    requires Valid(s) && Enabled(s, e)
  {
    match e
    case Enqueue(id) => BeingTried(s, id)
    case Remove(id) => BeingTried(s, id)
    case RemoveAll => exists id :: id in s.queued && BeingTried(s, id)
    case Fire(_) => false
    case Settle(_, outcome) => s.isMultiMain && outcome != Failed
  }

  lemma RemoveDisturbs(s: Queue, id: WorkflowId)
    requires Valid(s) && OneTimerEach(s)
    ensures OneTimerEach(Removed(s, id)) <==> !BeingTried(s, id)
    ensures forall k :: 0 <= k < |s.timers| && s.timers[k].id == id && Active(Removed(s, id).timers[k]) ==>
        BeingTried(s, id)
  {
    var t := Removed(s, id);
    if id in s.queued {
      var k := s.queued[id].timeout;
      assert Owns(s, k) && !Owns(t, k);
      assert forall j :: 0 <= j < |s.timers| && j != k ==> t.timers[j] == s.timers[j] && Owns(t, j) == Owns(s, j);
    }
  }

  lemma ArmKeepsOneTimerEach(s: Queue, id: WorkflowId, delay: int)
    requires Valid(s) && OneTimerEach(s) && id !in s.queued
    ensures OneTimerEach(Arm(s, id, delay))
  {
    var t := Arm(s, id, delay);
    forall k | 0 <= k < |t.timers| ensures Owns(t, k) <==> Active(t.timers[k]) {
      if k < |s.timers| { assert t.timers[k] == s.timers[k]; }
    }
  }

  lemma EnqueueDisturbs(s: Queue, id: WorkflowId)
    requires Valid(s) && OneTimerEach(s)
    ensures OneTimerEach(Enqueued(s, id)) <==> !BeingTried(s, id)
  {
    RemoveDisturbs(s, id);
    if BeingTried(s, id) {
      var k, t := s.queued[id].timeout, Enqueued(s, id);
      assert t.timers[k] == s.timers[k] && !Owns(t, k);
    } else {
      ArmKeepsOneTimerEach(Removed(s, id), id, INITIAL_TIMEOUT);
    }
  }

  lemma RemoveAllDisturbs(s: Queue)
    requires Valid(s) && OneTimerEach(s)
    ensures OneTimerEach(AllRemoved(s)) <==> !Disturbs(s, RemoveAll)
  {
    var t := AllRemoved(s);
    if id :| id in s.queued && BeingTried(s, id) {
      var k := s.queued[id].timeout;
      assert Owns(s, k) && t.timers[k] == s.timers[k] && !Owns(t, k);
    }
  }

  /** A retry that is over gives its entry up, or the entry gets the next timer. */
  lemma SettleDisturbs(s: Queue, k: nat, outcome: Outcome)
    requires Valid(s) && OneTimerEach(s) && Enabled(s, Settle(k, outcome))
    ensures OneTimerEach(Settled(s, k, outcome)) <==> !Disturbs(s, Settle(k, outcome))
  {
    var id, r, t := s.timers[k].id, SetPhase(s, k, Done), Settled(s, k, outcome);
    assert Owns(s, k);
    assert forall j :: 0 <= j < |s.timers| && j != k ==> r.timers[j] == s.timers[j];
    match outcome
    case HandedOver => assert Owns(t, k) && !Active(t.timers[k]);
    case Failed =>
      forall j | 0 <= j < |t.timers| ensures Owns(t, j) <==> Active(t.timers[j]) {
        if j < |s.timers| { assert t.timers[j] == r.timers[j] && (Owns(t, j) <==> j != k && Owns(s, j)); }
      }
    case Activated =>
      assert t == Removed(r, id);
      assert t.timers == r.timers;
      assert forall j :: 0 <= j < |s.timers| ==> (Owns(t, j) <==> j != k && Owns(s, j));
  }

  lemma KeepsOneTimerEachExactlyWhen(s: Queue, e: Event)
    requires Valid(s) && OneTimerEach(s) && Enabled(s, e)
    ensures OneTimerEach(Next(s, e)) <==> !Disturbs(s, e)
  {
    match e
    case Enqueue(id) => EnqueueDisturbs(s, id);
    case Remove(id) => RemoveDisturbs(s, id);
    case RemoveAll => RemoveAllDisturbs(s);
    case Fire(k) => assert forall j :: 0 <= j < |s.timers| ==> Owns(Next(s, e), j) == Owns(s, j);
    case Settle(k, outcome) => SettleDisturbs(s, k, outcome);
  }

  predicate Undisturbed(s: Queue, es: seq<Event>)
    requires Valid(s) && IsRun(s, es)
    decreases |es|
  {
    es == [] || (!Disturbs(s, es[0]) && Undisturbed(Next(s, es[0]), es[1..]))
  }

  /** As long as nobody touches a workflow during its retry, and with several mains every retry fails,
      every queued workflow has exactly one timer, every other one none. */
  lemma {:induction false} OneTimerEachThroughout(s: Queue, es: seq<Event>)
    requires Valid(s) && OneTimerEach(s) && IsRun(s, es) && Undisturbed(s, es)
    ensures OneTimerEach(After(s, es))
    ensures forall id :: id in After(s, es).queued ==>
              Active(After(s, es).timers[After(s, es).queued[id].timeout])
    ensures forall k :: 0 <= k < |After(s, es).timers| && After(s, es).timers[k].id !in After(s, es).queued ==>
              !Active(After(s, es).timers[k])
    decreases |es|
  {
    if es != [] {
      KeepsOneTimerEachExactlyWhen(s, es[0]);
      OneTimerEachThroughout(Next(s, es[0]), es[1..]);
    } else {
      assert forall id :: id in s.queued ==> Owns(s, s.queued[id].timeout);
    }
  }

  // Retries taken as one step each.

  predicate NoneTrying(s: Queue) {
    forall k :: 0 <= k < |s.timers| ==> s.timers[k].phase != Trying
  }

  /** Every timer that fires settles before anything else happens. */
  predicate AtomicRetries(es: seq<Event>)
    decreases |es|
  {
    es == [] ||
    if es[0].Fire? then
      |es| > 1 && es[1].Settle? && es[1].k == es[0].k && AtomicRetries(es[2..])
    else !es[0].Settle? && AtomicRetries(es[1..])
  }

  lemma NothingDisturbs(s: Queue, e: Event)
    requires Valid(s) && OneTimerEach(s) && NoneTrying(s) && Enabled(s, e) && !e.Settle?
    ensures !Disturbs(s, e) && OneTimerEach(Next(s, e))
    ensures !e.Fire? ==> NoneTrying(Next(s, e))
  {
    KeepsOneTimerEachExactlyWhen(s, e);
  }

  lemma RetryIsOneStep(s: Queue, k: nat, outcome: Outcome)
    requires Valid(s) && OneTimerEach(s) && NoneTrying(s) && Enabled(s, Fire(k)) && !s.isMultiMain
    requires outcome != HandedOver
    ensures var t := Next(s, Fire(k));
            && Enabled(t, Settle(k, outcome))
            && OneTimerEach(Next(t, Settle(k, outcome))) && NoneTrying(Next(t, Settle(k, outcome)))
  {
    NothingDisturbs(s, Fire(k));
    var t := Next(s, Fire(k));
    KeepsOneTimerEachExactlyWhen(t, Settle(k, outcome));
    assert forall j :: 0 <= j < |s.timers| && j != k ==> t.timers[j].phase != Trying;
  }

  /** With one main and retries as single steps, every queued workflow has exactly one armed timer and
      every other workflow none, however the retries end. */
  lemma {:induction false} OneArmedTimerEach(s: Queue, es: seq<Event>)
    requires Valid(s) && OneTimerEach(s) && NoneTrying(s) && IsRun(s, es) && AtomicRetries(es) && !s.isMultiMain
    ensures var t := After(s, es);
            && NoneTrying(t)
            && forall k :: 0 <= k < |t.timers| ==> (Owns(t, k) <==> t.timers[k].phase == Armed)
    decreases |es|
  {
    if es != [] {
      if es[0].Fire? {
        RetryIsOneStep(s, es[0].k, es[1].outcome);
        assert es[1..][1..] == es[2..] && es[1..][0] == es[1];
        OneArmedTimerEach(Next(Next(s, es[0]), es[1]), es[2..]);
      } else {
        NothingDisturbs(s, es[0]);
        OneArmedTimerEach(Next(s, es[0]), es[1..]);
      }
    }
  }

  /** Queued again during its own retry, which then fails, a workflow has two armed timers. */
  lemma RequeuedDuringRetry(s: Queue, k: nat)
    requires Valid(s) && OneTimerEach(s) && k < |s.timers| && s.timers[k].phase == Trying
    ensures var id := s.timers[k].id;
            var t := Next(s, Enqueue(id));
            && Enabled(t, Settle(k, Failed))
            && var u := Next(t, Settle(k, Failed));
               && |u.timers| == |s.timers| + 2
               && u.timers[|s.timers|] == Timer(id, Delay(0), Armed)
               && u.timers[|s.timers| + 1] == Timer(id, Delay(1), Armed)
  {
    assert Owns(s, k);
    var t := Next(s, Enqueue(s.timers[k].id));
    assert t.timers[k] == s.timers[k];
    LongerDelay(0);
  }

  /** Queued, and nothing is left that would try to activate it. */
  predicate Stuck(s: Queue, id: WorkflowId) {
    id in s.queued && forall k :: 0 <= k < |s.timers| && s.timers[k].id == id ==> !Active(s.timers[k])
  }

  /** A workflow whose retry was handed over to the leader stays queued without any timer. */
  lemma HandedOverIsStuck(s: Queue, k: nat)
    requires Valid(s) && OneTimerEach(s) && Enabled(s, Settle(k, HandedOver))
    ensures Stuck(Next(s, Settle(k, HandedOver)), s.timers[k].id)
  {
    assert Owns(s, k);
    assert forall j :: 0 <= j < |s.timers| && s.timers[j].id == s.timers[k].id && j != k ==> !Owns(s, j);
  }

  predicate Touches(e: Event, id: WorkflowId) {
    e == Enqueue(id) || e == Remove(id) || e.RemoveAll?
  }

  lemma RemoveKeepsStuck(s: Queue, other: WorkflowId, id: WorkflowId)
    requires Valid(s) && Stuck(s, id) && other != id
    ensures Stuck(Removed(s, other), id)
  {
  }

  lemma ArmKeepsStuck(s: Queue, other: WorkflowId, delay: int, id: WorkflowId)
    requires Valid(s) && Stuck(s, id) && other != id
    ensures Stuck(Arm(s, other, delay), id)
  {
  }

  /** A retry that is under way belongs to another workflow. */
  lemma SettleKeepsStuck(s: Queue, k: nat, outcome: Outcome, id: WorkflowId)
    requires Valid(s) && Stuck(s, id) && Enabled(s, Settle(k, outcome))
    ensures Stuck(Settled(s, k, outcome), id)
  {
    var other, r := s.timers[k].id, SetPhase(s, k, Done);
    assert other != id && Stuck(r, id);
    match outcome
    case Activated => RemoveKeepsStuck(r, other, id);
    case HandedOver =>
    case Failed => if other in r.queued { ArmKeepsStuck(r, other, Longer(r.queued[other].lastTimeout), id); }
  }

  lemma StaysStuckExactlyWhen(s: Queue, e: Event, id: WorkflowId)
    requires Valid(s) && Stuck(s, id) && Enabled(s, e)
    ensures Stuck(Next(s, e), id) <==> !Touches(e, id)
  {
    match e
    case Enqueue(other) =>
      if other == id {
        assert Active(Next(s, e).timers[|s.timers|]);
      } else {
        RemoveKeepsStuck(s, other, id);
        ArmKeepsStuck(Removed(s, other), other, INITIAL_TIMEOUT, id);
      }
    case Remove(other) => if other != id { RemoveKeepsStuck(s, other, id); }
    case RemoveAll =>
    case Fire(k) => assert s.timers[k].id != id;
    case Settle(k, outcome) => SettleKeepsStuck(s, k, outcome, id);
  }

  /** Nothing but a call for that workflow, or one for all, ever gets it out of the queue. */
  lemma {:induction false} StuckUntilTouched(s: Queue, es: seq<Event>, id: WorkflowId)
    requires Valid(s) && Stuck(s, id) && IsRun(s, es)
    requires forall i :: 0 <= i < |es| ==> !Touches(es[i], id)
    ensures Stuck(After(s, es), id)
    decreases |es|
  {
    if es != [] {
      StaysStuckExactlyWhen(s, es[0], id);
      StuckUntilTouched(Next(s, es[0]), es[1..], id);
    }
  }
}

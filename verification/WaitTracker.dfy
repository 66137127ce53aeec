/**
 `WaitTracker`: one timer per waiting execution, set by a poll of the database, plus the executions
 that are resumed through it without a timer.

 Timers live in an append-only heap and are named by their index: an entry that is deleted without
 clearing its timer leaves that timer behind, armed. What a fired timer then does to the execution
 is `ResumeProtocol`.
 */
module WaitTracker {
  import opened Wrappers

  type ExecutionId = string

  datatype Phase = Armed | Cleared | Fired

  datatype Timer = Timer(id: ExecutionId, delay: int, phase: Phase)

  /** A row of the poll: a waiting execution that is due soon. */
  datatype Row = Row(id: ExecutionId, waitTill: int)

  datatype Tracker = Tracker(
    waiting: map<ExecutionId, nat>,   // waitingExecutions: the entry's timer
    timers: seq<Timer>,
    started: bool)                    // mainTimer has been set once

  predicate Valid(s: Tracker) {
    forall id :: id in s.waiting ==> s.waiting[id] < |s.timers| && s.timers[s.waiting[id]].id == id
  }

  // ---------------------------------------------------------------- the effect of each operation

  /** `clearTimeout` */
  function Clear(timer: Timer): Timer {
    if timer.phase == Armed then timer.(phase := Cleared) else timer
  }

  function Poll(s: Tracker, row: Row, now: int): (t: Tracker)
    requires Valid(s)
    ensures Valid(t)
  {
    if row.id in s.waiting then s
    else s.(waiting := s.waiting[row.id := |s.timers|],
            timers := s.timers + [Timer(row.id, row.waitTill - now, Armed)])
  }

  function PollEach(s: Tracker, rows: seq<Row>, now: int): (t: Tracker)
    requires Valid(s)
    ensures Valid(t)
    decreases |rows|
  {
    if rows == [] then s else PollEach(Poll(s, rows[0], now), rows[1..], now)
  }

  lemma PollNext(s: Tracker, rows: seq<Row>, i: nat, now: int)
    requires Valid(s) && i < |rows|
    ensures PollEach(s, rows[i..], now) == PollEach(Poll(s, rows[i], now), rows[i + 1..], now)
  {
    assert rows[i..][0] == rows[i] && rows[i..][1..] == rows[i + 1..];
  }

  function Stop(s: Tracker, id: ExecutionId): (t: Tracker)
    requires Valid(s)
    ensures Valid(t)
  {
    if id !in s.waiting then s
    else
      var k := s.waiting[id];
      s.(timers := s.timers[k := Clear(s.timers[k])], waiting := s.waiting - {id})
  }

  /** `startExecution` forgets the entry but not its timer. */
  function Forget(s: Tracker, id: ExecutionId): (t: Tracker)
    requires Valid(s)
    ensures Valid(t)
  {
    s.(waiting := s.waiting - {id})
  }

  function Fire(s: Tracker, k: nat): (t: Tracker)
    requires Valid(s) && k < |s.timers| && s.timers[k].phase == Armed
    ensures Valid(t)
  {
    Forget(s.(timers := s.timers[k := s.timers[k].(phase := Fired)]), s.timers[k].id)
  }

  predicate Tracked(s: Tracker, k: nat)
    requires k < |s.timers|
  {
    s.timers[k].id in s.waiting && s.waiting[s.timers[k].id] == k
  }

  /** `stopTracking` clears the timers of all entries and keeps the entries. */
  function ClearAll(s: Tracker): (t: Tracker)
    requires Valid(s)
    ensures Valid(t)
  {
    if !s.started then s
    else s.(timers := seq(|s.timers|, k requires 0 <= k < |s.timers| =>
                            if Tracked(s, k) then Clear(s.timers[k]) else s.timers[k]))
  }

  // ---------------------------------------------------------------- the class

  class WaitTracker {
    var waitingExecutions: map<ExecutionId, nat>
    var timers: seq<Timer>
    var mainTimer: bool

    ghost function State(): Tracker
      reads this
    {
      Tracker(waitingExecutions, timers, mainTimer)
    }

    constructor ()
      ensures State() == Tracker(map[], [], false)
    {
      waitingExecutions, timers, mainTimer := map[], [], false;
    }

    /** The interval timer is set; the poll that follows is a call of `GetWaitingExecutions`. */
    method StartTracking()
      requires Valid(State())
      modifies this
      ensures State() == old(State()).(started := true)
    {
      mainTimer := true;
    }

    method GetWaitingExecutions(rows: seq<Row>, now: int)
      requires Valid(State())
      modifies this
      ensures Valid(State()) && State() == PollEach(old(State()), rows, now)
    {
      var i := 0;
      while i < |rows|
        invariant i <= |rows|
        invariant Valid(State()) && PollEach(State(), rows[i..], now) == PollEach(old(State()), rows, now)
      {
        ghost var before := State();
        PollNext(before, rows, i, now);
        if rows[i].id !in waitingExecutions {
          waitingExecutions := waitingExecutions[rows[i].id := |timers|];
          timers := timers + [Timer(rows[i].id, rows[i].waitTill - now, Armed)];
        }
        assert State() == Poll(before, rows[i], now);
        i := i + 1;
      }
    }

    /** The callback of a timer. */
    method TimerFires(k: nat)
      requires Valid(State()) && k < |timers| && timers[k].phase == Armed
      modifies this
      ensures State() == Fire(old(State()), k)
    {
      timers := timers[k := timers[k].(phase := Fired)];
      StartExecution(timers[k].id);
    }

    method StopExecution(id: ExecutionId)
      requires Valid(State())
      modifies this
      ensures State() == Stop(old(State()), id)
    {
      if id !in waitingExecutions { return; }
      var k := waitingExecutions[id];
      timers := timers[k := Clear(timers[k])];
      waitingExecutions := waitingExecutions - {id};
    }

    method StartExecution(id: ExecutionId)
      requires Valid(State())
      modifies this
      ensures State() == Forget(old(State()), id)
    {
      waitingExecutions := waitingExecutions - {id};
    }

    method StopTracking()
      requires Valid(State())
      modifies this
      ensures State() == ClearAll(old(State()))
    {
      if !mainTimer { return; }
      var ids := waitingExecutions.Keys;
      while ids != {}
        invariant ids <= waitingExecutions.Keys && |timers| == |old(timers)|
        invariant forall k :: 0 <= k < |timers| ==>
                    timers[k] == if Tracked(old(State()), k) && old(timers)[k].id !in ids
                                 then Clear(old(timers)[k]) else old(timers)[k]
        invariant waitingExecutions == old(waitingExecutions) && mainTimer
        decreases ids
      {
        var id :| id in ids;
        var k := waitingExecutions[id];
        timers := timers[k := Clear(timers[k])];
        ids := ids - {id};
      }
    }
  }

  // ---------------------------------------------------------------- a poll

  function Ids(rows: seq<Row>): set<ExecutionId> {
    set k | 0 <= k < |rows| :: rows[k].id
  }

  /** A timer for `row`, the first with its id, of an execution that had no entry. */
  predicate ArmedFor(s: Tracker, rows: seq<Row>, now: int, id: ExecutionId, timer: Timer) {
    && id !in s.waiting
    && exists k :: 0 <= k < |rows| && rows[k].id == id
         && (forall j :: 0 <= j < k ==> rows[j].id != id)
         && timer == Timer(id, rows[k].waitTill - now, Armed)
  }

  /** Older timers and entries are untouched. */
  predicate Extends(s: Tracker, t: Tracker) {
    && t.started == s.started
    && |s.timers| <= |t.timers|
    && (forall k :: 0 <= k < |s.timers| ==> t.timers[k] == s.timers[k])
    && (forall id :: id in s.waiting ==> id in t.waiting && t.waiting[id] == s.waiting[id])
  }

  lemma {:induction false} PollExtends(s: Tracker, rows: seq<Row>, now: int)
    requires Valid(s)
    ensures Extends(s, PollEach(s, rows, now))
    decreases |rows|
  {
    if rows != [] { PollExtends(Poll(s, rows[0], now), rows[1..], now); }
  }

  lemma {:induction false} PollEnters(s: Tracker, rows: seq<Row>, now: int)
    requires Valid(s)
    ensures PollEach(s, rows, now).waiting.Keys == s.waiting.Keys + Ids(rows)
    decreases |rows|
  {
    if rows == [] {
      assert Ids(rows) == {};
    } else {
      PollEnters(Poll(s, rows[0], now), rows[1..], now);
      IdsOfTail(rows);
    }
  }

  lemma {:induction false} PollArms(s: Tracker, rows: seq<Row>, now: int, k: nat)
    requires Valid(s) && |s.timers| <= k < |PollEach(s, rows, now).timers|
    ensures var t := PollEach(s, rows, now);
            Tracked(t, k) && ArmedFor(s, rows, now, t.timers[k].id, t.timers[k])
    decreases |rows|
  {
    var u, t := Poll(s, rows[0], now), PollEach(s, rows, now);
    PollExtends(u, rows[1..], now);
    if k < |u.timers| {
      assert t.timers[k] == u.timers[k] == Timer(rows[0].id, rows[0].waitTill - now, Armed);
    } else {
      PollArms(u, rows[1..], now, k);
      ArmedForLater(s, u, rows, now, t.timers[k]);
    }
  }

  /** A poll arms exactly one timer, of the row's delay, for each listed execution without an entry,
      and leaves every other entry and timer alone. */
  lemma PollArmsExactlyTheMissing(s: Tracker, rows: seq<Row>, now: int)
    requires Valid(s)
    ensures var t := PollEach(s, rows, now);
            && Extends(s, t)
            && t.waiting.Keys == s.waiting.Keys + Ids(rows)
            && forall k :: |s.timers| <= k < |t.timers| ==>
                 Tracked(t, k) && ArmedFor(s, rows, now, t.timers[k].id, t.timers[k])
  {
    PollExtends(s, rows, now);
    PollEnters(s, rows, now);
    var t := PollEach(s, rows, now);
    forall k | |s.timers| <= k < |t.timers|
      ensures Tracked(t, k) && ArmedFor(s, rows, now, t.timers[k].id, t.timers[k])
    {
      PollArms(s, rows, now, k);
    }
  }

  lemma IdsOfTail(rows: seq<Row>)
    requires rows != []
    ensures Ids(rows) == {rows[0].id} + Ids(rows[1..])
  {
    forall k | 0 <= k < |rows| ensures rows[k].id in {rows[0].id} + Ids(rows[1..]) {
      if k > 0 { assert rows[k] == rows[1..][k - 1]; }
    }
    forall k | 0 <= k < |rows| - 1 ensures rows[1..][k].id in Ids(rows) {
      assert rows[1..][k] == rows[k + 1];
    }
  }

  lemma ArmedForLater(s: Tracker, u: Tracker, rows: seq<Row>, now: int, timer: Timer)
    requires Valid(s) && rows != [] && u == Poll(s, rows[0], now)
    requires ArmedFor(u, rows[1..], now, timer.id, timer)
    ensures ArmedFor(s, rows, now, timer.id, timer)
  {
    var k :| 0 <= k < |rows| - 1 && rows[1..][k].id == timer.id
          && (forall j :: 0 <= j < k ==> rows[1..][j].id != timer.id)
          && timer == Timer(timer.id, rows[1..][k].waitTill - now, Armed);
    assert rows[k + 1] == rows[1..][k];
    forall j | 0 <= j < k + 1 ensures rows[j].id != timer.id {
      if j > 0 { assert rows[j] == rows[1..][j - 1]; }
    }
  }
}

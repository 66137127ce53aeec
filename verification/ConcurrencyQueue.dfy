/**
 `ConcurrencyQueue`: executions beyond the limit wait in a queue for a finished one to let them in.

 An admitted execution is one whose `enqueue` promise has resolved. The model keeps the order of all
 admissions, which the original does not.
 */
module ConcurrencyQueue {
  import Sequences

  type ExecutionId = string

  datatype Queue = Queue(
    capacity: int,
    waiting: seq<ExecutionId>,
    admitted: seq<ExecutionId>,
    finished: nat)              // calls of dequeue()

  datatype Event = Enqueue(id: ExecutionId) | Dequeue | Remove(id: ExecutionId)

  function Running(q: Queue): int {
    |q.admitted| - q.finished
  }

  function IndexOf(ids: seq<ExecutionId>, id: ExecutionId): (i: int)
    ensures -1 <= i < |ids|
    ensures i == -1 <==> id !in ids
    ensures i >= 0 ==> ids[i] == id && id !in ids[..i]
  {
    if ids == [] then -1
    else if ids[0] == id then 0
    else
      var i := IndexOf(ids[1..], id);
      if i == -1 then -1 else i + 1
  }

  function NextResolved(q: Queue): Queue {
    if q.waiting == [] then q
    else q.(waiting := q.waiting[1..], admitted := q.admitted + [q.waiting[0]])
  }

  function Enqueued(q: Queue, id: ExecutionId): Queue {
    var r := q.(capacity := q.capacity - 1);
    if r.capacity < 0 then r.(waiting := r.waiting + [id]) else r.(admitted := r.admitted + [id])
  }

  function Dequeued(q: Queue): Queue {
    NextResolved(q.(capacity := q.capacity + 1, finished := q.finished + 1))
  }

  function Removed(q: Queue, id: ExecutionId): Queue {
    var i := IndexOf(q.waiting, id);
    if i == -1 then q
    else NextResolved(q.(capacity := q.capacity + 1, waiting := q.waiting[..i] + q.waiting[i + 1..]))
  }

  function Next(q: Queue, e: Event): Queue {
    match e
    case Enqueue(id) => Enqueued(q, id)
    case Dequeue => Dequeued(q)
    case Remove(id) => Removed(q, id)
  }

  // ---------------------------------------------------------------- the class

  class ConcurrencyQueue {
    var capacity: int
    var queue: seq<ExecutionId>
    ghost var admitted: seq<ExecutionId>
    ghost var finished: nat

    ghost function State(): Queue
      reads this
    {
      Queue(capacity, queue, admitted, finished)
    }

    constructor (limit: int)
      ensures State() == Queue(limit, [], [], 0)
    {
      capacity, queue, admitted, finished := limit, [], [], 0;
    }

    method Enqueue(id: ExecutionId) returns (throttled: bool)
      modifies this
      ensures State() == Enqueued(old(State()), id)
      ensures throttled <==> capacity < 0
    {
      capacity := capacity - 1;
      if capacity < 0 {
        queue := queue + [id];
        return true;
      }
      admitted := admitted + [id];
      throttled := false;
    }

    method Dequeue()
      modifies this
      ensures State() == Dequeued(old(State()))
    {
      capacity, finished := capacity + 1, finished + 1;
      ResolveNext();
    }

    method Remove(id: ExecutionId)
      modifies this
      ensures State() == Removed(old(State()), id)
    {
      var index := IndexOf(queue, id);
      if index > -1 {
        queue := queue[..index] + queue[index + 1..];
        capacity := capacity + 1;
        ResolveNext();
      }
    }

    method ResolveNext()
      modifies this
      ensures State() == NextResolved(old(State()))
    {
      if queue != [] {
        admitted := admitted + [queue[0]];
        queue := queue[1..];
      }
    }

    /** `getAll` and the loop of `removeAll`: every id once, in the order of the queue. */
    method RemoveEach()
      modifies this
      ensures State() == Emptied(old(State()))
    {
      var ids := Unique(queue);
      var i := 0;
      while i < |ids|
        invariant i <= |ids|
        invariant RemovedEach(State(), ids[i..]) == RemovedEach(old(State()), ids)
      {
        assert ids[i..][1..] == ids[i + 1..];
        Remove(ids[i]);
        i := i + 1;
      }
    }
  }

  /** `new Set(ids)`, in insertion order. */
  function Unique(ids: seq<ExecutionId>): (unique: seq<ExecutionId>)
    ensures forall id :: id in unique <==> id in ids
    ensures forall i, j :: 0 <= i < j < |unique| ==> unique[i] != unique[j]
  {
    if ids == [] then []
    else
      var init := Unique(ids[..|ids| - 1]);
      if ids[|ids| - 1] in init then init else init + [ids[|ids| - 1]]
  }

  function RemovedEach(q: Queue, ids: seq<ExecutionId>): Queue
    decreases |ids|
  {
    if ids == [] then q else RemovedEach(Removed(q, ids[0]), ids[1..])
  }

  function Emptied(q: Queue): Queue {
    RemovedEach(q, Unique(q.waiting))
  }

  // ---------------------------------------------------------------- what every run keeps

  predicate Enabled(q: Queue, e: Event) {
    e.Dequeue? ==> Running(q) > 0
  }

  predicate IsRun(q: Queue, es: seq<Event>)
    decreases |es|
  {
    es == [] || (Enabled(q, es[0]) && IsRun(Next(q, es[0]), es[1..]))
  }

  function After(q: Queue, es: seq<Event>): Queue
    requires IsRun(q, es)
    decreases |es|
  {
    if es == [] then q else After(Next(q, es[0]), es[1..])
  }

  /** Capacity is what is left of the limit after the running and the waiting ones, and nobody waits
      while there is room. */
  predicate Counted(q: Queue, limit: int) {
    && q.capacity == limit - Running(q) - |q.waiting|
    && (q.waiting != [] ==> Running(q) >= limit)
    && Running(q) >= 0
  }

  /** `r` is short of one: an execution has left, the next one has not been let in yet. */
  lemma LettingInKeepsCounted(r: Queue, limit: int)
    requires r.capacity == limit - Running(r) - |r.waiting| && Running(r) >= 0
    requires r.waiting != [] ==> Running(r) + 1 >= limit
    ensures Counted(NextResolved(r), limit)
    ensures Running(NextResolved(r)) == Running(r) + if r.waiting == [] then 0 else 1
  {
  }

  lemma EnqueueKeepsCounted(q: Queue, id: ExecutionId, limit: int)
    requires Counted(q, limit)
    ensures Counted(Enqueued(q, id), limit)
  {
  }

  lemma RemoveKeepsCounted(q: Queue, id: ExecutionId, limit: int)
    requires Counted(q, limit)
    ensures Counted(Removed(q, id), limit)
  {
    var i := IndexOf(q.waiting, id);
    if i >= 0 {
      var rest := q.waiting[..i] + q.waiting[i + 1..];
      assert |rest| == |q.waiting| - 1;
      LettingInKeepsCounted(q.(capacity := q.capacity + 1, waiting := rest), limit);
    }
  }

  lemma StepKeepsCounted(q: Queue, e: Event, limit: int)
    requires Counted(q, limit) && Enabled(q, e)
    ensures Counted(Next(q, e), limit)
  {
    match e
    case Enqueue(id) => EnqueueKeepsCounted(q, id, limit);
    case Dequeue => LettingInKeepsCounted(q.(capacity := q.capacity + 1, finished := q.finished + 1), limit);
    case Remove(id) => RemoveKeepsCounted(q, id, limit);
  }

  /** From a state within the limit, a step exceeds it if and only if it takes one of several waiting
      executions out of the queue: the next one is let in although none has finished. */
  lemma ExceedsTheLimitExactlyWhen(q: Queue, e: Event, limit: int)
    requires Counted(q, limit) && Running(q) <= limit && Enabled(q, e)
    ensures Running(Next(q, e)) > limit <==> e.Remove? && e.id in q.waiting && |q.waiting| > 1
  {
  }

  predicate LetsNobodyIn(q: Queue, es: seq<Event>)
    requires IsRun(q, es)
    decreases |es|
  {
    es == [] ||
    (&& !(es[0].Remove? && es[0].id in q.waiting && |q.waiting| > 1)
     && LetsNobodyIn(Next(q, es[0]), es[1..]))
  }

  lemma {:induction false} RunsStayWithinTheLimit(q: Queue, es: seq<Event>, limit: int)
    requires Counted(q, limit) && Running(q) <= limit && IsRun(q, es) && LetsNobodyIn(q, es)
    ensures Counted(After(q, es), limit) && Running(After(q, es)) <= limit
    decreases |es|
  {
    if es != [] {
      StepKeepsCounted(q, es[0], limit);
      ExceedsTheLimitExactlyWhen(q, es[0], limit);
      RunsStayWithinTheLimit(Next(q, es[0]), es[1..], limit);
    }
  }

  // ---------------------------------------------------------------- first come, first served

  function Arrivals(es: seq<Event>): seq<ExecutionId> {
    if es == [] then [] else (if es[0].Enqueue? then [es[0].id] else []) + Arrivals(es[1..])
  }

  predicate RemovesNone(es: seq<Event>) {
    forall k :: 0 <= k < |es| ==> !es[k].Remove?
  }

  lemma ArrivalStep(q: Queue, e: Event, limit: int)
    requires Counted(q, limit) && Enabled(q, e) && !e.Remove?
    ensures Next(q, e).admitted + Next(q, e).waiting ==
            q.admitted + q.waiting + if e.Enqueue? then [e.id] else []
  {
    if e.Enqueue? && q.capacity > 0 { assert q.waiting == []; }
  }

  /** Executions are let in in the order in which they arrived, none is lost and none comes twice. */
  lemma {:induction false} FirstComeFirstServed(q: Queue, es: seq<Event>, limit: int)
    requires Counted(q, limit) && IsRun(q, es) && RemovesNone(es)
    ensures After(q, es).admitted + After(q, es).waiting == q.admitted + q.waiting + Arrivals(es)
    decreases |es|
  {
    if es != [] {
      var e, t := es[0], Next(q, es[0]);
      StepKeepsCounted(q, e, limit);
      ArrivalStep(q, e, limit);
      FirstComeFirstServed(t, es[1..], limit);
      Sequences.Associate(q.admitted + q.waiting, if e.Enqueue? then [e.id] else [], Arrivals(es[1..]));
    }
  }

  lemma {:induction false} FirstPlace(before: seq<ExecutionId>, id: ExecutionId, after: seq<ExecutionId>)
    requires id !in before
    ensures IndexOf(before + [id] + after, id) == |before|
    decreases |before|
  {
    var ids := before + [id] + after;
    if before != [] {
      assert ids[1..] == before[1..] + [id] + after;
      FirstPlace(before[1..], id, after);
    }
  }

  /** A removal takes the first of the waiting attempts with that id out, and leaves everyone else in
      the order of arrival; one of them, if there is one, is let in. */
  lemma RemovedExactly(q: Queue, id: ExecutionId, before: seq<ExecutionId>, after: seq<ExecutionId>)
    requires q.waiting == before + [id] + after && id !in before
    ensures var t := Removed(q, id);
            && t.admitted + t.waiting == q.admitted + (before + after)
            && |t.admitted| == |q.admitted| + (if before + after == [] then 0 else 1)
            && t.capacity == q.capacity + 1 && t.finished == q.finished
  {
    FirstPlace(before, id, after);
    assert q.waiting[..|before|] == before && q.waiting[|before| + 1..] == after;
    var rest := before + after;
    if rest != [] { assert rest == [rest[0]] + rest[1..]; }
  }

  /** An id that does not wait changes nothing; one that waits is found at its first place. */
  lemma RemovedWhere(q: Queue, id: ExecutionId) returns (before: seq<ExecutionId>, after: seq<ExecutionId>)
    ensures id !in q.waiting ==> Removed(q, id) == q
    ensures id in q.waiting ==> q.waiting == before + [id] + after && id !in before
  {
    before, after := [], [];
    var i := IndexOf(q.waiting, id);
    if i >= 0 { before, after := q.waiting[..i], q.waiting[i + 1..]; }
  }

  // ---------------------------------------------------------------- emptying the queue

  lemma RemoveFirst(q: Queue)
    requires q.waiting != []
    ensures Removed(q, q.waiting[0]) ==
            if |q.waiting| == 1 then q.(capacity := q.capacity + 1, waiting := [])
            else q.(capacity := q.capacity + 1, waiting := q.waiting[2..], admitted := q.admitted + [q.waiting[1]])
  {
    assert IndexOf(q.waiting, q.waiting[0]) == 0;
    assert q.waiting[..0] + q.waiting[1..] == q.waiting[1..];
    if |q.waiting| > 1 { assert q.waiting[1..][1..] == q.waiting[2..]; }
  }

  /** Each removal takes at most two out of the queue, and lets in at most one. */
  lemma RemovalTakesTwo(q: Queue, id: ExecutionId)
    ensures |q.waiting| - 2 <= |Removed(q, id).waiting| <= |q.waiting|
    ensures Running(q) <= Running(Removed(q, id)) && Removed(q, id).finished == q.finished
  {
  }

  lemma {:induction false} RemovalsTakeTwoEach(q: Queue, ids: seq<ExecutionId>)
    ensures |q.waiting| - 2 * |ids| <= |RemovedEach(q, ids).waiting|
    ensures Running(q) <= Running(RemovedEach(q, ids))
    decreases |ids|
  {
    if ids != [] {
      RemovalTakesTwo(q, ids[0]);
      RemovalsTakeTwoEach(Removed(q, ids[0]), ids[1..]);
    }
  }

  lemma {:induction false} UniqueBegins(ids: seq<ExecutionId>)
    requires ids != []
    ensures Unique(ids) != [] && Unique(ids)[0] == ids[0]
    decreases |ids|
  {
    if |ids| > 1 {
      var init := ids[..|ids| - 1];
      assert init[0] == ids[0];
      UniqueBegins(init);
    } else {
      assert Unique(ids[..0]) == [];
    }
  }

  /** "Empty the production queue, releasing all capacity back": removing every waiting execution once
      stays within the limit if and only if fewer than two were waiting, and as several attempts can
      wait under one id, it need not even empty the queue. */
  lemma RemoveAllExceedsExactlyWhen(q: Queue, limit: int)
    requires Counted(q, limit) && Running(q) <= limit
    ensures var t := Emptied(q);
            && (Running(t) <= limit <==> |q.waiting| < 2)
            && |t.waiting| >= |q.waiting| - 2 * |Unique(q.waiting)|
  {
    var w, ids := q.waiting, Unique(q.waiting);
    RemovalsTakeTwoEach(q, ids);
    if w != [] {
      UniqueBegins(w);
      RemoveFirst(q);
      RemovalsTakeTwoEach(Removed(q, w[0]), ids[1..]);
      if |w| == 1 { SingleIsUnique(w); }
    }
  }

  lemma SingleIsUnique(ids: seq<ExecutionId>)
    requires |ids| == 1
    ensures Unique(ids) == ids
  {
    assert Unique(ids[..0]) == [];
  }
}

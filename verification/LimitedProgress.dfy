/** Who is let in under the concurrency limit. */
module LimitedProgress {
  import opened Wrappers
  import opened R = ExecutionRegistry
  import opened RegistryLaws
  import opened ResumeProtocol
  import opened LimitedProtocol
  import Q = ConcurrencyQueue

  lemma BeginRequests(s: State, a: nat)
    requires ResumeProtocol.Valid(s) && ResumeProtocol.Enabled(s, Begin(a))
    ensures Request(s, Begin(a), s.attempts[a].proc) == Some(Q.Enqueue(s.attempts[a].id))
  {
  }

  lemma BegunMayReserve(s: State, a: nat)
    requires ResumeProtocol.Valid(s) && ResumeProtocol.Enabled(s, Begin(a))
    ensures ResumeProtocol.Enabled(Do(s, Begin(a)), Throttle(a))
    ensures Do(s, Begin(a)).attempts[a].proc == s.attempts[a].proc && Do(s, Begin(a)).attempts[a].id == s.attempts[a].id
  {
  }

  lemma EnqueueLetsIn(q: Q.Queue, id: ExecutionId, limit: nat)
    requires Q.Counted(q, limit)
    ensures var r := Q.Enqueued(q, id);
            if Q.Running(q) < limit then NewlyLetIn(q, r) == multiset{id}
            else r.waiting == q.waiting + [id] && NewlyLetIn(q, r) == multiset{}
  {
    if Q.Running(q) < limit { assert Q.Enqueued(q, id).admitted[|q.admitted|..] == [id]; }
  }

  /** A call that begins while its process is below the limit goes on at once; otherwise it queues behind
      everyone else. */
  lemma BeginsExactly(y: System, a: nat, limit: nat)
    requires Limited(y, limit) && LimitedProtocol.Enabled(y, Move(Begin(a)))
    ensures var p, id := y.protocol.attempts[a].proc, y.protocol.attempts[a].id;
            var z := LimitedProtocol.Next(y, Move(Begin(a)));
            if Q.Running(y.queues[p]) < limit then LimitedProtocol.Enabled(z, Move(Throttle(a)))
            else z.queues[p].waiting == y.queues[p].waiting + [id] && z.granted[p] == y.granted[p]
  {
    var p, id := y.protocol.attempts[a].proc, y.protocol.attempts[a].id;
    BeginRequests(y.protocol, a);
    assert Linked(y.protocol.procs[p], y.queues[p], y.granted[p], limit);
    EnqueueLetsIn(y.queues[p], id, limit);
    BegunMayReserve(y.protocol, a);
  }

  /** A step that gives capacity back in a process lets the first one in its queue in. */
  lemma ReleaseLetsTheNextIn(y: System, e: Step, p: nat, limit: nat)
    requires Limited(y, limit) && LimitedProtocol.Enabled(y, Move(e)) && p < |y.queues| && y.queues[p].waiting != []
    requires |Apply(y.protocol, e).procs| == |y.queues|
    requires Apply(y.protocol, e).procs[p].released > y.protocol.procs[p].released
    ensures var z, q := LimitedProtocol.Next(y, Move(e)), y.queues[p];
            && z.queues[p].waiting == q.waiting[1..]
            && z.granted[p] == y.granted[p] + multiset{q.waiting[0]}
  {
    var q := y.queues[p];
    RequestsMatchCounters(y.protocol, e, p);
    assert Request(y.protocol, e, p) == Some(Q.Dequeue);
    GivingBackTakesNoGrant(y.protocol, e, p);
    assert Q.Dequeued(q).admitted[|q.admitted|..] == [q.waiting[0]];
  }

  lemma GivingBackTakesNoGrant(s: State, e: Step, p: nat)
    requires ResumeProtocol.Valid(s) && ResumeProtocol.Enabled(s, e) && p < |s.procs|
    requires Request(s, e, p) == Some(Q.Dequeue)
    ensures GrantTaken(s, e, p) == multiset{}
  {
    EventInKinds(s, e, p);
    Counters(s.procs[p], EventIn(s, e, p).value);
  }
}

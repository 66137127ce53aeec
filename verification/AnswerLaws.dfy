/** Who answers the callers of an execution: when a response promise is answered, when a record is
    settled, and what each step changes besides, told by the state before it. */
module AnswerLaws {
  import opened Wrappers
  import opened ExecutionRegistry
  import opened RegistryLaws

  // ---------------------------------------------------------------- response promises

  /** `p` is the response promise of the current record of `id`. */
  predicate AnswersTo(s: Registry, id: ExecutionId, p: nat)
    requires Valid(s)
  {
    id in s.active && s.records[s.active[id]].response == Some(p)
  }

  /** A stop rejects the promise, and a node resolves it, even while the execution waits; the end of a
      run answers it only outside waiting. */
  predicate Answers(s: Registry, e: Event, p: nat)
    requires Valid(s)
  {
    match e
    case Stop(id) => AnswersTo(s, id, p)
    case ResolveResponse(id) => AnswersTo(s, id, p)
    case ResolveExecutionResponse(id) => AnswersTo(s, id, p) && s.records[s.active[id]].status != Waiting
    case _ => false
  }

  lemma AnsweredExactlyWhen(s: Registry, e: Event, p: nat)
    requires Valid(s) && Enabled(s, e)
    ensures p in Next(s, e).answered <==> p in s.answered || Answers(s, e, p)
  {
  }

  predicate SomeStepAnswers(s: Registry, es: seq<Event>, p: nat)
    requires Valid(s) && IsRun(s, es)
    decreases |es|
  {
    es != [] && (Answers(s, es[0], p) || SomeStepAnswers(Next(s, es[0]), es[1..], p))
  }

  lemma {:induction false} AnsweredOverRunsExactlyWhen(s: Registry, es: seq<Event>, p: nat)
    requires Valid(s) && IsRun(s, es)
    ensures p in After(s, es).answered <==> p in s.answered || SomeStepAnswers(s, es, p)
    decreases |es|
  {
    if es != [] {
      AnsweredExactlyWhen(s, es[0], p);
      AnsweredOverRunsExactlyWhen(Next(s, es[0]), es[1..], p);
    }
  }

  predicate AttachesTo(e: Event, id: ExecutionId) {
    e.AttachResponse? && e.id == id
  }

  /** A promise that has been attached is answered by the next stop, and by the next response outside
      waiting, however often the execution has waited and has been resumed in between. */
  lemma AttachedIsAnswered(s: Registry, id: ExecutionId, p: nat, es: seq<Event>)
    requires Valid(s) && id in s.active
    requires var t := Next(s, AttachResponse(id, p));
             IsRun(t, es) && Stays(t, es, id) && forall e :: e in es ==> !AttachesTo(e, id)
    ensures var u := After(Next(s, AttachResponse(id, p)), es);
            && AnswersTo(u, id, p)
            && p in Next(u, Stop(id)).answered && p in Next(u, ResolveResponse(id)).answered
            && (u.records[u.active[id]].status != Waiting ==> p in Next(u, ResolveExecutionResponse(id)).answered)
  {
    var t := Next(s, AttachResponse(id, p));
    assert AnswersTo(t, id, p);
    forall e | e in es ensures !(e.AttachResponse? && e.id == id) {
      assert !AttachesTo(e, id);
    }
    StartSurvivesResumes(t, es, id);
    AnsweredExactlyWhen(After(t, es), Stop(id), p);
    AnsweredExactlyWhen(After(t, es), ResolveResponse(id), p);
    AnsweredExactlyWhen(After(t, es), ResolveExecutionResponse(id), p);
  }

  // ---------------------------------------------------------------- settled records

  predicate Settles(s: Registry, e: Event, k: nat)
    requires Valid(s) && k < |s.records|
  {
    match e
    case Finalize(id) => id in s.active && s.active[id] == k
    case Stop(id) => id in s.active && s.active[id] == k && s.records[k].status != Waiting
    case _ => false
  }

  predicate SomeStepSettles(s: Registry, es: seq<Event>, k: nat)
    requires Valid(s) && IsRun(s, es) && k < |s.records|
    decreases |es|
  {
    es != [] &&
    (|| Settles(s, es[0], k)
     || (k < |Next(s, es[0]).records| && SomeStepSettles(Next(s, es[0]), es[1..], k)))
  }

  lemma {:induction false} SettledOverRunsExactlyWhen(s: Registry, es: seq<Event>, k: nat)
    requires Valid(s) && IsRun(s, es) && k < |s.records|
    ensures k < |After(s, es).records|
    ensures After(s, es).records[k].settled <==> s.records[k].settled || SomeStepSettles(s, es, k)
    decreases |es|
  {
    if es != [] {
      RecordsChangeExactlyWhen(s, es[0], k);
      SettledOverRunsExactlyWhen(Next(s, es[0]), es[1..], k);
    }
  }

  // ---------------------------------------------------------------- everything else a step changes

  function StatusAfter(s: Registry, e: Event, k: nat): Status
    requires Valid(s) && k < |s.records|
  {
    if e.SetStatus? && e.id == s.records[k].id && Current(s, k) then e.status else s.records[k].status
  }

  function ResponseAfter(s: Registry, e: Event, k: nat): Option<nat>
    requires Valid(s) && k < |s.records|
  {
    if e.AttachResponse? && e.id == s.records[k].id && Current(s, k) then Some(e.promise) else s.records[k].response
  }

  predicate RecordAfter(s: Registry, e: Event, k: nat, now: Record)
    requires Valid(s) && k < |s.records|
  {
    var was := s.records[k];
    && now.status == StatusAfter(s, e, k) && now.response == ResponseAfter(s, e, k)
    && (now.settled <==> was.settled || Settles(s, e, k))
    && (now.finallyRan <==> was.finallyRan || e == Finally(k))
    && now.id == was.id && now.startedAt == was.startedAt && now.reservation == was.reservation
  }

  lemma LocalStepsChange(s: Registry, e: Event, k: nat)
    requires Valid(s) && Local(e) && k < |s.records|
    ensures k < |Next(s, e).records| && RecordAfter(s, e, k, Next(s, e).records[k])
  {
    var t := Next(s, e);
    if e.id in s.active && s.active[e.id] != k { assert t.records[k] == s.records[k]; }
  }

  /** A status changes only by `setStatus`, a response promise only by `attachResponsePromise`, both
      for the current record alone, and nothing else of a record ever changes but its two ends. */
  lemma RecordsChangeExactlyWhen(s: Registry, e: Event, k: nat)
    requires Valid(s) && Enabled(s, e) && k < |s.records|
    ensures k < |Next(s, e).records| && RecordAfter(s, e, k, Next(s, e).records[k])
  {
    if Local(e) {
      LocalStepsChange(s, e, k);
    } else if e.Finally? {
      assert Next(s, e).records == s.records[e.k := s.records[e.k].(finallyRan := true)];
    } else {
      assert Next(s, e).records[k] == s.records[k];
    }
  }

  predicate Leaves(s: Registry, e: Event, id: ExecutionId)
    requires Valid(s) && Enabled(s, e) && id in s.active
  {
    match e
    case Stop(other) => other == id && s.records[s.active[id]].status == Waiting
    case Drop(other) => other == id && s.records[s.active[id]].status in {Waiting, New}
    case Finally(k) => s.records[k].id == id && s.records[k].status != Waiting
    case _ => false
  }

  predicate EntryAfter(s: Registry, e: Event, id: ExecutionId, t: Registry)
    requires Valid(s) && Enabled(s, e)
  {
    && (id in t.active <==> (e.Register? && e.id == id) || (id in s.active && !Leaves(s, e, id)))
    && (id in t.active ==> t.active[id] == if e.Register? && e.id == id then |s.records| else s.active[id])
  }

  lemma LocalStepsLeave(s: Registry, e: Event, id: ExecutionId)
    requires Valid(s) && Local(e)
    ensures EntryAfter(s, e, id, Next(s, e))
  {
  }

  /** An id enters the map by a registration, and leaves it by the stop of a waiting execution, a drop
      or the callback of one of its records that does not wait. */
  lemma EntriesChangeExactlyWhen(s: Registry, e: Event, id: ExecutionId)
    requires Valid(s) && Enabled(s, e)
    ensures EntryAfter(s, e, id, Next(s, e))
  {
    if Local(e) { LocalStepsLeave(s, e, id); }
  }
}

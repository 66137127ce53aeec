/** `ConcurrencyControlService`: which executions a limit applies to, and what shutting down leaves of it. */
module ConcurrencyControl {
  import opened Wrappers
  import Q = ConcurrencyQueue

  datatype Mode = Error | Integrated | Cli | Internal | Manual | Retry | Webhook | Trigger | Chat | Evaluation

  datatype QueueType = ProductionQueue | EvaluationQueue

  /** `getQueue`, up to the lookup. */
  function TypeOf(mode: Mode): (t: Option<QueueType>)
    ensures t == Some(ProductionQueue) <==> mode in {Webhook, Trigger, Chat}
    ensures t == Some(EvaluationQueue) <==> mode == Evaluation
  {
    match mode
    case Webhook => Some(ProductionQueue)
    case Trigger => Some(ProductionQueue)
    case Chat => Some(ProductionQueue)
    case Evaluation => Some(EvaluationQueue)
    case _ => None
  }

  class ConcurrencyControlService {
    var isEnabled: bool
    const isRegularMode: bool
    const queues: map<QueueType, Q.ConcurrencyQueue>

    predicate Valid()
      reads this
    {
      && (forall t, u :: t in queues && u in queues && t != u ==> queues[t] != queues[u])
      && (isEnabled ==> isRegularMode)
    }

    /** The queue of this type is there, and executions of the mode go through it. */
    predicate Limits(t: QueueType, mode: Mode)
      reads this
    {
      isEnabled && TypeOf(mode) == Some(t) && t in queues
    }

    constructor Of(isRegularMode: bool, isEnabled: bool, queues: map<QueueType, Q.ConcurrencyQueue>)
      ensures this.isRegularMode == isRegularMode && this.isEnabled == isEnabled && this.queues == queues
    {
      this.isRegularMode, this.isEnabled, this.queues := isRegularMode, isEnabled, queues;
    }

    /** The original's constructor, which throws for a limit of 0. Negative limits mean no limit. */
    static method Create(productionLimit: int, evaluationLimit: int, isRegularMode: bool)
      returns (service: Option<ConcurrencyControlService>)
      ensures service.None? <==> productionLimit == 0 || evaluationLimit == 0
      ensures service.Some? ==>
                var s := service.value;
                && fresh(s) && s.Valid() && fresh(s.queues.Values)
                && (s.isEnabled <==> isRegularMode && (productionLimit > 0 || evaluationLimit > 0))
                && (s.isEnabled ==> forall t ::
                      var limit := if t == ProductionQueue then productionLimit else evaluationLimit;
                      && (t in s.queues <==> limit > 0)
                      && (t in s.queues ==> s.queues[t].State() == Q.Queue(limit, [], [], 0)))
    {
      if productionLimit == 0 || evaluationLimit == 0 { return None; }
      var queues: map<QueueType, Q.ConcurrencyQueue> := map[];
      if (productionLimit < 0 && evaluationLimit < 0) || !isRegularMode {
        var disabled := new ConcurrencyControlService.Of(isRegularMode, false, queues);
        return Some(disabled);
      }
      if productionLimit > 0 {
        var queue := new Q.ConcurrencyQueue(productionLimit);
        queues := queues[ProductionQueue := queue];
      }
      if evaluationLimit > 0 {
        var queue := new Q.ConcurrencyQueue(evaluationLimit);
        queues := queues[EvaluationQueue := queue];
      }
      var enabled := new ConcurrencyControlService.Of(isRegularMode, true, queues);
      service := Some(enabled);
    }

    method Throttle(mode: Mode, id: Q.ExecutionId) returns (throttled: bool)
      requires Valid()
      modifies queues.Values
      ensures Valid()
      ensures forall t :: t in queues ==>
                queues[t].State() == if Limits(t, mode) then Q.Enqueued(old(queues[t].State()), id)
                                     else old(queues[t].State())
      ensures throttled <==> exists t :: t in queues && Limits(t, mode) && queues[t].capacity < 0
    {
      throttled := false;
      if isEnabled && TypeOf(mode).Some? && TypeOf(mode).value in queues {
        throttled := queues[TypeOf(mode).value].Enqueue(id);
      }
    }

    method Release(mode: Mode)
      requires Valid()
      modifies queues.Values
      ensures Valid()
      ensures forall t :: t in queues ==>
                queues[t].State() == if Limits(t, mode) then Q.Dequeued(old(queues[t].State()))
                                     else old(queues[t].State())
    {
      if isEnabled && TypeOf(mode).Some? && TypeOf(mode).value in queues {
        queues[TypeOf(mode).value].Dequeue();
      }
    }

    method Remove(mode: Mode, id: Q.ExecutionId)
      requires Valid()
      modifies queues.Values
      ensures Valid()
      ensures forall t :: t in queues ==>
                queues[t].State() == if Limits(t, mode) then Q.Removed(old(queues[t].State()), id)
                                     else old(queues[t].State())
    {
      if isEnabled && TypeOf(mode).Some? && TypeOf(mode).value in queues {
        queues[TypeOf(mode).value].Remove(id);
      }
    }

    method Empty(t: QueueType)
      requires Valid()
      modifies queues.Values
      ensures forall u :: u in queues ==>
                queues[u].State() == if u == t then Q.Emptied(old(queues[u].State())) else old(queues[u].State())
    {
      if t in queues { queues[t].RemoveEach(); }
    }

    /** Returns the ids it has cancelled in the database. */
    method RemoveAll(toCancel: seq<Q.ExecutionId>) returns (cancelled: seq<Q.ExecutionId>)
      requires Valid()
      modifies queues.Values
      ensures Valid()
      ensures forall t :: t in queues ==>
                queues[t].State() == if isEnabled then Q.Emptied(old(queues[t].State())) else old(queues[t].State())
      ensures cancelled == if isEnabled then toCancel else []
    {
      if !isEnabled { return []; }
      Empty(ProductionQueue);
      Empty(EvaluationQueue);
      cancelled := toCancel;
    }

    method Disable()
      requires Valid()
      modifies this
      ensures Valid() && !isEnabled
    {
      isEnabled := false;
    }

    /** What the shutdown of the active executions asks of the service: in either mode nobody is taken
        out of a queue and no row is cancelled, whatever the caller collected. */
    method Shutdown(toCancel: seq<Q.ExecutionId>) returns (cancelled: seq<Q.ExecutionId>)
      requires Valid()
      modifies this, queues.Values
      ensures Valid() && !isEnabled
      ensures cancelled == [] && forall t :: t in queues ==> queues[t].State() == old(queues[t].State())
    {
      if isRegularMode { Disable(); }
      cancelled := RemoveAll(toCancel);
    }
  }
}

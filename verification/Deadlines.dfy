/**
 When executions are stopped: the deadline handed down to sub-workflows, and the timer that a run in
 the main process sets for itself, again and again if the execution waits in between.

 Instants are in milliseconds, limits in seconds; an absent setting is `None`.
 */
module Deadlines {
  import opened Wrappers

  type Instant = int

  const MAX_SAFE_INTEGER := 9007199254740991

  function Min(a: int, b: int): (m: int)
    ensures m <= a && m <= b && (m == a || m == b)
  {
    if a < b then a else b
  }

  function Max(a: int, b: int): (m: int)
    ensures m >= a && m >= b && (m == a || m == b)
  {
    if a < b then b else a
  }

  // ---------------------------------------------------------------- nested workflows

  /** A sub-workflow's own start and its `executionTimeout` setting. */
  datatype Level = Level(startTime: Instant, executionTimeout: Option<int>)

  predicate Limited(level: Level) {
    level.executionTimeout.Some? && level.executionTimeout.value > 0
  }

  /** When the level's own limit, if any, runs out. */
  function OwnDeadline(level: Level): Instant
    requires Limited(level)
  {
    level.startTime + level.executionTimeout.value * 1000
  }

  method SubworkflowTimeout(parent: Option<Instant>, level: Level) returns (timeout: Option<Instant>)
    ensures timeout == Inherited(parent, level)
    ensures level.executionTimeout.None? || level.executionTimeout.value <= 0 ==> timeout == parent
    ensures level.executionTimeout.Some? && level.executionTimeout.value > 0 ==>
              var own := level.startTime + 1000 * level.executionTimeout.value;
              && timeout.Some? && timeout.value <= own
              && (timeout.value == own || timeout == parent || timeout.value == MAX_SAFE_INTEGER)
  {
    timeout := parent;
    if level.executionTimeout.Some? && level.executionTimeout.value > 0 {
      var given := if parent.Some? && parent.value != 0 then parent.value else MAX_SAFE_INTEGER;
      timeout := Some(Min(given, level.startTime + level.executionTimeout.value * 1000));
    }
  }

  function Inherited(parent: Option<Instant>, level: Level): Option<Instant> {
    if !Limited(level) then parent
    else if parent.Some? && parent.value != 0 then Some(Min(parent.value, OwnDeadline(level)))
    else Some(Min(MAX_SAFE_INTEGER, OwnDeadline(level)))
  }

  /** A deadline that is no later; none at all is the latest. */
  predicate NoLater(a: Option<Instant>, b: Option<Instant>) {
    b.Some? ==> a.Some? && a.value <= b.value
  }

  /** A parent's deadline of 0, the only falsy one, counts as none: then, and only then, a limited
      sub-workflow that ends after it gets a later deadline. */
  lemma TightensExactlyWhen(parent: Option<Instant>, level: Level)
    ensures NoLater(Inherited(parent, level), parent) <==>
            (parent == Some(0) && Limited(level) ==> OwnDeadline(level) <= 0)
  {
  }

  function Nested(root: Option<Instant>, levels: seq<Level>): Option<Instant>
    decreases |levels|
  {
    if levels == [] then root else Inherited(Nested(root, levels[..|levels| - 1]), levels[|levels| - 1])
  }

  /** Workflows start after the epoch. */
  predicate AfterEpoch(root: Option<Instant>, levels: seq<Level>) {
    && (root.Some? ==> root.value > 0)
    && forall i :: 0 <= i < |levels| ==> levels[i].startTime > 0
  }

  /** At any depth, a sub-workflow's deadline is the earliest of all that were set above it and its
      own: none of them is exceeded, and one of them is met. */
  lemma {:induction false} NestedDeadlineIsTheEarliest(root: Option<Instant>, levels: seq<Level>)
    requires AfterEpoch(root, levels)
    ensures var d := Nested(root, levels);
            && NoLater(d, root)
            && (forall i :: 0 <= i < |levels| && Limited(levels[i]) ==> NoLater(d, Some(OwnDeadline(levels[i]))))
            && (d.Some? ==>
                  && d.value > 0
                  && (|| d == root
                      || d == Some(MAX_SAFE_INTEGER)
                      || exists i :: 0 <= i < |levels| && Limited(levels[i]) && d == Some(OwnDeadline(levels[i]))))
    decreases |levels|
  {
    if levels != [] {
      var init := levels[..|levels| - 1];
      NestedDeadlineIsTheEarliest(root, init);
      forall i | 0 <= i < |init| ensures init[i] == levels[i] {}
    }
  }

  /** ... so nobody outlives an ancestor. */
  lemma {:induction false} NestedDeadlinesTighten(root: Option<Instant>, levels: seq<Level>, depth: nat)
    requires AfterEpoch(root, levels) && depth <= |levels|
    ensures NoLater(Nested(root, levels), Nested(root, levels[..depth]))
    decreases |levels|
  {
    if depth == |levels| {
      assert levels[..depth] == levels;
    } else {
      var init := levels[..|levels| - 1];
      assert init[..depth] == levels[..depth];
      assert forall i :: 0 <= i < |init| ==> init[i] == levels[i];
      NestedDeadlinesTighten(root, init, depth);
      NestedDeadlineIsTheEarliest(root, init);
      TightensExactlyWhen(Nested(root, init), levels[|levels| - 1]);
    }
  }

  // ---------------------------------------------------------------- a run in the main process

  datatype Config = Config(timeout: int, maxTimeout: int)

  datatype HardStop = Never | AtOnce | In(delay: int)

  /** The limit in force: the workflow's own, else the default, capped; nothing if not positive. */
  function Limit(config: Config, executionTimeout: Option<int>): (r: int)
    ensures r > 0 ==> r <= config.maxTimeout
    ensures executionTimeout.None? && config.timeout > 0 ==>
              r <= config.timeout && r in {config.timeout, config.maxTimeout}
    ensures executionTimeout.None? && config.timeout <= 0 ==> r <= 0
    ensures executionTimeout.Some? && executionTimeout.value > 0 ==>
              r <= executionTimeout.value && r in {executionTimeout.value, config.maxTimeout}
    ensures executionTimeout.Some? && executionTimeout.value <= 0 ==> r <= 0
  {
    var limit := executionTimeout.UnwrapOr(config.timeout);
    if limit > 0 then Min(limit, config.maxTimeout) else limit
  }

  /** The instant at which a hard stop ends the run it was set up in at `now`. */
  function StopsAt(stop: HardStop, now: Instant): Option<Instant> {
    match stop
    case Never => None
    case AtOnce => Some(now)
    case In(delay) => Some(now + delay)
  }

  /** The soft deadline, counted from the preparation of the run. */
  function SoftDeadline(limit: int, prepared: Instant): Option<Instant> {
    if limit > 0 then Some(prepared + limit * 1000) else None
  }

  /** When a run with this limit is stopped, if its timer is set at `now`. */
  function HardDeadline(limit: int, startedAt: Option<Instant>, now: Instant): Option<Instant> {
    if limit > 0 then Some(Max(now, startedAt.UnwrapOr(now) + 1000 * limit)) else None
  }

  /** `runMainProcess`, its timeouts: the clock is read when the run is prepared and again when its
      timer is set. */
  method RunMainProcess(config: Config, executionTimeout: Option<int>, startedAt: Option<Instant>,
                        prepared: Instant, now: Instant)
      returns (executionTimeoutTimestamp: Option<Instant>, stop: HardStop)
    ensures executionTimeoutTimestamp == SoftDeadline(Limit(config, executionTimeout), prepared)
    ensures StopsAt(stop, now) == HardDeadline(Limit(config, executionTimeout), startedAt, now)
    ensures stop.In? ==> stop.delay > 0
  {
    var workflowTimeout := if executionTimeout.Some? then executionTimeout.value else config.timeout;
    if workflowTimeout > 0 {
      workflowTimeout := Min(workflowTimeout, config.maxTimeout);
    }
    executionTimeoutTimestamp := if workflowTimeout <= 0 then None else Some(prepared + workflowTimeout * 1000);
    stop := Never;
    if workflowTimeout > 0 {
      var timeout := Min(workflowTimeout, config.maxTimeout) * 1000;
      if startedAt.Some? {
        timeout := Max(timeout - (now - startedAt.value), 0);
      }
      stop := if timeout == 0 then AtOnce else In(timeout);
    }
  }

  /** The soft deadline, which nodes check and sub-workflows inherit, is counted from the resume: it
      lies within the hard one if and only if the segment was prepared no later than the execution
      started, or its timer was set only after the soft deadline had passed. */
  lemma SoftWithinHardExactlyWhen(limit: int, start: Instant, prepared: Instant, now: Instant)
    requires limit > 0
    ensures NoLater(SoftDeadline(limit, prepared), HardDeadline(limit, Some(start), now)) <==>
            prepared <= start || prepared + 1000 * limit <= now
  {
  }

  /** A sub-workflow without a limit of its own, at any depth under a resumed run, may go on for as
      long after the run's hard stop as the run was resumed after the start. */
  lemma {:induction false} ChildrenOutliveTheHardStop(limit: int, start: Instant, prepared: Instant, now: Instant,
                                                      levels: seq<Level>)
    requires limit > 0 && now <= start + 1000 * limit
    requires forall i :: 0 <= i < |levels| ==> !Limited(levels[i])
    ensures var soft, hard := Nested(SoftDeadline(limit, prepared), levels), HardDeadline(limit, Some(start), now);
            soft.Some? && hard.Some? && soft.value == hard.value + (prepared - start)
    decreases |levels|
  {
    if levels != [] {
      assert forall i :: 0 <= i < |levels| - 1 ==> levels[..|levels| - 1][i] == levels[i];
      ChildrenOutliveTheHardStop(limit, start, prepared, now, levels[..|levels| - 1]);
    }
  }

  // ---------------------------------------------------------------- one execution, many segments

  type ExecutionId = string

  /** The row of an execution, as far as it matters here. */
  datatype Row = Row(waiting: bool, startedAt: Option<Instant>)

  /** What `WaitTracker.startExecution` reads before it resumes. */
  datatype Find = Find(id: ExecutionId, startedAt: Option<Instant>)

  /** A run in the main process, with the `startedAt` it was given and the time its timer was set. */
  datatype Segment = Segment(id: ExecutionId, startedAt: Option<Instant>, limit: int, now: Instant)

  datatype State = State(db: map<ExecutionId, Row>, finds: seq<Find>, segments: seq<Segment>)

  /** `Begin` is a first run, or a resume by a webhook, form or chat message, which pass no
      `startedAt`; with a find it is a resume by a timer or a finished child. */
  datatype Event =
    | Create(id: ExecutionId)
    | SetRunning(id: ExecutionId, now: Instant)
    | Update(id: ExecutionId, waiting: bool)
    | Look(id: ExecutionId)
    | Begin(id: ExecutionId, find: Option<nat>, limit: int, now: Instant)

  const EMPTY := State(map[], [], [])

  /** A run sets itself running before it sets its timer and before it can wait. */
  predicate Enabled(s: State, e: Event) {
    match e
    case Create(id) => id !in s.db
    case SetRunning(id, _) => id in s.db
    case Update(id, waiting) => id in s.db && (waiting ==> s.db[id].startedAt.Some?)
    case Look(id) => id in s.db
    case Begin(id, find, _, _) =>
      && id in s.db && s.db[id].startedAt.Some?
      && (find.Some? ==> find.value < |s.finds| && s.finds[find.value].id == id)
  }

  /** `setRunning` sets the start only where there is none (`COALESCE`); `updateExistingExecution` takes
      whatever row it is given and drops its start. */
  function Next(s: State, e: Event): State
    requires Enabled(s, e)
  {
    match e
    case Create(id) => s.(db := s.db[id := Row(false, None)])
    case SetRunning(id, now) => s.(db := s.db[id := Row(false, Some(s.db[id].startedAt.UnwrapOr(now)))])
    case Update(id, waiting) => s.(db := s.db[id := s.db[id].(waiting := waiting)])
    case Look(id) => s.(finds := s.finds + [Find(id, s.db[id].startedAt)])
    case Begin(id, find, limit, now) =>
      var startedAt := if find.Some? then s.finds[find.value].startedAt else None;
      s.(segments := s.segments + [Segment(id, startedAt, limit, now)])
  }

  predicate IsRun(s: State, es: seq<Event>)
    decreases |es|
  {
    es == [] || (Enabled(s, es[0]) && IsRun(Next(s, es[0]), es[1..]))
  }

  function After(s: State, es: seq<Event>): State
    requires IsRun(s, es)
    decreases |es|
  {
    if es == [] then s else After(Next(s, es[0]), es[1..])
  }

  /** Once started, an execution keeps its first start, and whoever knows a start knows that one. */
  predicate OneStart(s: State) {
    && (forall id :: id in s.db && s.db[id].waiting ==> s.db[id].startedAt.Some?)
    && (forall i :: 0 <= i < |s.finds| && s.finds[i].startedAt.Some? ==>
          s.finds[i].id in s.db && s.db[s.finds[i].id].startedAt == s.finds[i].startedAt)
    && (forall i :: 0 <= i < |s.segments| ==>
          && s.segments[i].id in s.db && s.db[s.segments[i].id].startedAt.Some?
          && (s.segments[i].startedAt.Some? ==> s.db[s.segments[i].id].startedAt == s.segments[i].startedAt))
  }

  lemma StepKeepsOneStart(s: State, e: Event)
    requires OneStart(s) && Enabled(s, e)
    ensures OneStart(Next(s, e))
    ensures forall id :: id in s.db && s.db[id].startedAt.Some? ==>
              id in Next(s, e).db && Next(s, e).db[id].startedAt == s.db[id].startedAt
  {
  }

  lemma {:induction false} RunKeepsOneStart(s: State, es: seq<Event>)
    requires OneStart(s) && IsRun(s, es)
    ensures OneStart(After(s, es))
    ensures forall id :: id in s.db && s.db[id].startedAt.Some? ==>
              id in After(s, es).db && After(s, es).db[id].startedAt == s.db[id].startedAt
    decreases |es|
  {
    if es != [] {
      StepKeepsOneStart(s, es[0]);
      RunKeepsOneStart(Next(s, es[0]), es[1..]);
    }
  }

  function StopOf(segment: Segment): Option<Instant> {
    HardDeadline(segment.limit, segment.startedAt, segment.now)
  }

  /** The instant a limit runs out, counted from the first start. */
  function Deadline(s: State, segment: Segment): Instant
    requires segment.id in s.db && s.db[segment.id].startedAt.Some?
  {
    s.db[segment.id].startedAt.value + 1000 * segment.limit
  }

  /** Over every run, however often an execution waits and is resumed by timers or children, each
      limited segment that was given a start is stopped when the limit runs out after the first
      start, or as it begins if it begins later. */
  lemma {:induction false} WaitingExtendsNothing(es: seq<Event>, i: nat)
    requires IsRun(EMPTY, es) && i < |After(EMPTY, es).segments|
    ensures var s := After(EMPTY, es);
            var segment := s.segments[i];
            && segment.id in s.db && s.db[segment.id].startedAt.Some?
            && (segment.startedAt.Some? && segment.limit > 0 ==>
                  StopOf(segment) == Some(Max(segment.now, Deadline(s, segment))))
  {
    RunKeepsOneStart(EMPTY, es);
  }

  /** ... so two such segments of an execution with one limit are stopped at the same instant. */
  lemma {:induction false} OneStopForAllSegments(es: seq<Event>, i: nat, j: nat)
    requires IsRun(EMPTY, es) && i < |After(EMPTY, es).segments| && j < |After(EMPTY, es).segments|
    ensures var s := After(EMPTY, es);
            var a, b := s.segments[i], s.segments[j];
            a.id == b.id && a.limit == b.limit > 0 && a.startedAt.Some? && b.startedAt.Some?
            && StopOf(a) != Some(a.now) && StopOf(b) != Some(b.now)
            ==> StopOf(a) == StopOf(b)
  {
    WaitingExtendsNothing(es, i);
    WaitingExtendsNothing(es, j);
  }

  /** The same holds for a segment without a given start if and only if it begins at the very first
      start: resumed later, it gets its full limit once more. */
  lemma {:induction false} CountsFromTheStartExactlyWhen(es: seq<Event>, i: nat)
    requires IsRun(EMPTY, es) && i < |After(EMPTY, es).segments| && After(EMPTY, es).segments[i].limit > 0
    ensures var s := After(EMPTY, es);
            var segment := s.segments[i];
            && segment.id in s.db && s.db[segment.id].startedAt.Some?
            && (StopOf(segment) == Some(Max(segment.now, Deadline(s, segment))) <==>
                  segment.startedAt.Some? || segment.now == s.db[segment.id].startedAt.value)
  {
    WaitingExtendsNothing(es, i);
  }

  /** A timer or child that finds the execution waiting finds its first start. */
  lemma {:induction false} WaitingRowsHaveTheirStart(es: seq<Event>, id: ExecutionId)
    requires IsRun(EMPTY, es) && id in After(EMPTY, es).db && After(EMPTY, es).db[id].waiting
    ensures var s := After(EMPTY, es);
            && Enabled(s, Look(id)) && s.db[id].startedAt.Some?
            && Next(s, Look(id)).finds == s.finds + [Find(id, s.db[id].startedAt)]
  {
    RunKeepsOneStart(EMPTY, es);
  }

  lemma {:induction false} FindsStay(s: State, es: seq<Event>, f: nat)
    requires IsRun(s, es) && f < |s.finds|
    ensures f < |After(s, es).finds| && After(s, es).finds[f] == s.finds[f]
    decreases |es|
  {
    if es != [] { FindsStay(Next(s, es[0]), es[1..], f); }
  }

  /** A timer or a finished child that finds the execution waiting resumes it, whenever and however often
      it has waited since, with a segment that is stopped when the limit runs out after the first start,
      or as it begins if it begins later. */
  lemma FoundResumesExtendNothing(before: seq<Event>, id: ExecutionId, between: seq<Event>, limit: int, now: Instant)
    requires IsRun(EMPTY, before) && id in After(EMPTY, before).db && After(EMPTY, before).db[id].waiting && limit > 0
    requires Enabled(After(EMPTY, before), Look(id)) && IsRun(Next(After(EMPTY, before), Look(id)), between)
    ensures var s := After(EMPTY, before);
            var t, begin := After(Next(s, Look(id)), between), Begin(id, Some(|s.finds|), limit, now);
            && s.db[id].startedAt.Some? && Enabled(t, begin)
            && var segments := Next(t, begin).segments;
               && |segments| == |t.segments| + 1
               && StopOf(segments[|t.segments|]) == Some(Max(now, s.db[id].startedAt.value + 1000 * limit))
  {
    var s := After(EMPTY, before);
    RunKeepsOneStart(EMPTY, before);
    StepKeepsOneStart(s, Look(id));
    RunKeepsOneStart(Next(s, Look(id)), between);
    FindsStay(Next(s, Look(id)), between, |s.finds|);
  }

  lemma OneStep(s: State, e: Event, es: seq<Event>)
    requires Enabled(s, e) && IsRun(Next(s, e), es)
    ensures IsRun(s, [e] + es) && After(s, [e] + es) == After(Next(s, e), es)
  {
    assert ([e] + es)[1..] == es;
  }

  /** One wait, ended by a webhook after `d` ms: the stop of the resumed run lies `d` ms later than that
      of the first. */
  lemma WebhookResumesExtend(id: ExecutionId, limit: int, d: int)
    requires limit > 0 && d > 0
    ensures var es := [Create(id)] + ([SetRunning(id, 0)] + ([Begin(id, None, limit, 0)]
                      + ([Update(id, true)] + ([Begin(id, None, limit, d)] + []))));
            && IsRun(EMPTY, es)
            && var segments := After(EMPTY, es).segments;
               && |segments| == 2 && StopOf(segments[0]) == Some(1000 * limit)
               && StopOf(segments[1]) == Some(1000 * limit + d)
  {
    var s1 := Next(EMPTY, Create(id));
    var s2 := Next(s1, SetRunning(id, 0));
    var s3 := Next(s2, Begin(id, None, limit, 0));
    var s4 := Next(s3, Update(id, true));
    OneStep(s4, Begin(id, None, limit, d), []);
    OneStep(s3, Update(id, true), [Begin(id, None, limit, d)] + []);
    OneStep(s2, Begin(id, None, limit, 0), [Update(id, true)] + ([Begin(id, None, limit, d)] + []));
    OneStep(s1, SetRunning(id, 0),
            [Begin(id, None, limit, 0)] + ([Update(id, true)] + ([Begin(id, None, limit, d)] + [])));
    OneStep(EMPTY, Create(id), [SetRunning(id, 0)] + ([Begin(id, None, limit, 0)]
            + ([Update(id, true)] + ([Begin(id, None, limit, d)] + []))));
  }
}

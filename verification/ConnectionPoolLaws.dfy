/** Any number of gets, finished and failed connections, external aborts, sweeps and purges, in any
    order: what the pool cache always keeps, and when it loses a pool. */
module ConnectionPoolLaws {
  import opened ConnectionPool

  /** The cache with a clock, and the time at which the interval timer fires next. */
  datatype System = System(pools: Pools, now: int, nextSweep: int)

  datatype Event =
    | GetPool(key: Key)
    | Connected(i: nat)
    | Failed(i: nat)
    | AbortSignal(i: nat)
    | Sweep
    | Purge
    | Tick(d: nat)

  predicate Enabled(s: System, e: Event) {
    match e
    case Connected(i) => i < |s.pools.controllers| && s.pools.controllers[i].stage == Connecting
    case Failed(i) => i < |s.pools.controllers| && s.pools.controllers[i].stage == Connecting
    case AbortSignal(i) => i < |s.pools.controllers|
    case Sweep => s.now == s.nextSweep
    case Tick(d) => s.now + d <= s.nextSweep
    case _ => true
  }

  function Next(s: System, e: Event): (t: System)
    requires Keyed(s.pools) && Enabled(s, e)
    ensures Keyed(t.pools)
  {
    var m := s.pools;
    match e
    case GetPool(key) => s.(pools := Get(m, key, s.now))
    case Connected(i) => s.(pools := Finish(m, i, s.now))
    case Failed(i) => s.(pools := Reject(m, i))
    case AbortSignal(i) => s.(pools := Abort(m, i))
    case Sweep => System(Evict(m, Stale(m, s.now)), s.now, s.nextSweep + INTERVAL)
    case Purge => s.(pools := Evict(m, m.registrations.Keys))
    case Tick(d) => s.(now := s.now + d)
  }

  predicate IsRun(s: System, es: seq<Event>)
    requires Keyed(s.pools)
    decreases |es|
  {
    es == [] || (Enabled(s, es[0]) && IsRun(Next(s, es[0]), es[1..]))
  }

  function After(s: System, es: seq<Event>): (t: System)
    requires Keyed(s.pools) && IsRun(s, es)
    ensures Keyed(t.pools)
    decreases |es|
  {
    if es == [] then s else After(Next(s, es[0]), es[1..])
  }

  function Start(now: int): System {
    System(NONE, now, now + INTERVAL)
  }

  // ---------------------------------------------------------------- no cached pool is aborted

  predicate Clean(m: Pools) {
    Keyed(m) && forall key :: key in m.registrations ==> !m.controllers[m.registrations[key].controller].aborted
  }

  lemma EvictKeepsClean(m: Pools, keys: set<Key>)
    requires Clean(m)
    ensures Clean(Evict(m, keys))
  {
  }

  lemma AbortKeepsClean(m: Pools, i: nat)
    requires Clean(m) && i < |m.controllers|
    ensures Clean(Abort(m, i))
  {
  }

  lemma StepKeepsClean(s: System, e: Event)
    requires Clean(s.pools) && Enabled(s, e)
    ensures Clean(Next(s, e).pools)
  {
    match e
    case AbortSignal(i) => AbortKeepsClean(s.pools, i);
    case Sweep => EvictKeepsClean(s.pools, Stale(s.pools, s.now));
    case Purge => EvictKeepsClean(s.pools, s.pools.registrations.Keys);
    case _ =>
  }

  /** In every reachable state, under any interleaving, no entry has an aborted controller. */
  lemma {:induction false} NoCachedPoolIsAborted(s: System, es: seq<Event>)
    requires Clean(s.pools) && IsRun(s, es)
    ensures Clean(After(s, es).pools)
    decreases |es|
  {
    if es != [] {
      StepKeepsClean(s, es[0]);
      NoCachedPoolIsAborted(Next(s, es[0]), es[1..]);
    }
  }

  /** A signal that comes while the connection is awaited, or at any other time, is never forgotten. */
  lemma {:induction false} SignalledStaysOut(s: System, es: seq<Event>, i: nat)
    requires Clean(s.pools) && IsRun(s, es) && i < |s.pools.controllers| && s.pools.controllers[i].aborted
    ensures var m := After(s, es).pools;
            i < |m.controllers| && m.controllers[i].aborted && !Owns(m, i)
    decreases |es|
  {
    if es != [] {
      StepKeepsClean(s, es[0]);
      SignalledStaysOut(Next(s, es[0]), es[1..], i);
    }
  }

  /** Whatever its stage, a controller that is signalled is aborted from then on and its pool is never in
      the map again, not even if its connection is established later. */
  lemma SignalIsFinal(s: System, es: seq<Event>, i: nat)
    requires Clean(s.pools) && i < |s.pools.controllers| && IsRun(Next(s, AbortSignal(i)), es)
    ensures var m := After(Next(s, AbortSignal(i)), es).pools;
            i < |m.controllers| && m.controllers[i].aborted && !Owns(m, i)
  {
    StepKeepsClean(s, AbortSignal(i));
    SignalledStaysOut(Next(s, AbortSignal(i)), es, i);
  }

  // ---------------------------------------------------------------- a pool is cached or closed

  predicate Leaked(m: Pools, i: nat) {
    i < |m.controllers| && m.controllers[i].stage == Registered && !m.controllers[i].aborted && !Owns(m, i)
  }

  /** Every pool ever registered is in the map or aborted, never both and never neither. */
  predicate Accounted(m: Pools) {
    forall i :: 0 <= i < |m.controllers| && m.controllers[i].stage == Registered ==>
      (m.controllers[i].aborted <==> !Owns(m, i))
  }

  /** Finishing a miss whose key has been filled meanwhile. */
  predicate Overlaps(s: System, e: Event)
    requires Enabled(s, e)
  {
    && e.Connected? && !s.pools.controllers[e.i].aborted
    && s.pools.controllers[e.i].key in s.pools.registrations
  }

  lemma FinishAccountedExactlyWhen(m: Pools, i: nat, now: int)
    requires Clean(m) && Accounted(m)
    requires i < |m.controllers| && m.controllers[i].stage == Connecting
    ensures Accounted(Finish(m, i, now)) <==> m.controllers[i].aborted || m.controllers[i].key !in m.registrations
    ensures !m.controllers[i].aborted && m.controllers[i].key in m.registrations ==>
              Leaked(Finish(m, i, now), m.registrations[m.controllers[i].key].controller)
  {
    var t := Finish(m, i, now);
    var key := m.controllers[i].key;
    if !m.controllers[i].aborted && key in m.registrations {
      var j := m.registrations[key].controller;
      assert t.controllers[j] == m.controllers[j] && !Owns(t, j);
    } else {
      forall j | 0 <= j < |t.controllers| && t.controllers[j].stage == Registered
        ensures t.controllers[j].aborted <==> !Owns(t, j)
      {
        if j != i { assert t.controllers[j] == m.controllers[j]; }
      }
    }
  }

  lemma EvictKeepsAccounted(m: Pools, keys: set<Key>)
    requires Keyed(m) && Accounted(m)
    ensures Accounted(Evict(m, keys))
  {
    var t := Evict(m, keys);
    forall j | 0 <= j < |t.controllers| && t.controllers[j].stage == Registered
      ensures t.controllers[j].aborted <==> !Owns(t, j)
    {
      assert Owns(t, j) <==> Owns(m, j) && m.controllers[j].key !in keys;
    }
  }

  /** Aborting a pool that is cached is evicting its key. */
  lemma AbortIsEvict(m: Pools, i: nat)
    requires Clean(m) && Accounted(m) && i < |m.controllers|
    requires !m.controllers[i].aborted && m.controllers[i].stage == Registered
    ensures Abort(m, i) == Evict(m, {m.controllers[i].key})
  {
    var t, u := Abort(m, i), Evict(m, {m.controllers[i].key});
    assert Owns(m, i);
    forall j | 0 <= j < |m.controllers| ensures t.controllers[j] == u.controllers[j] {
      assert j != i ==> !(Owns(m, j) && m.controllers[j].key == m.controllers[i].key);
    }
    assert t.controllers == u.controllers;
  }

  lemma AbortKeepsAccounted(m: Pools, i: nat)
    requires Clean(m) && Accounted(m) && i < |m.controllers|
    ensures Accounted(Abort(m, i))
  {
    if !m.controllers[i].aborted && m.controllers[i].stage == Registered {
      AbortIsEvict(m, i);
      EvictKeepsAccounted(m, {m.controllers[i].key});
    } else {
      var t := Abort(m, i);
      forall j | 0 <= j < |t.controllers| ensures Owns(t, j) <==> Owns(m, j) {
        assert t.controllers[j].key == m.controllers[j].key;
      }
    }
  }

  lemma OtherStepsKeepAccounted(s: System, e: Event)
    requires Clean(s.pools) && Accounted(s.pools) && Enabled(s, e) && !e.Connected?
    ensures Accounted(Next(s, e).pools)
  {
    if e.AbortSignal? {
      AbortKeepsAccounted(s.pools, e.i);
    } else if e.Sweep? {
      EvictKeepsAccounted(s.pools, Stale(s.pools, s.now));
    } else if e.Purge? {
      EvictKeepsAccounted(s.pools, s.pools.registrations.Keys);
    } else {
      var t := Next(s, e).pools;
      forall j | 0 <= j < |s.pools.controllers| ensures Owns(t, j) <==> Owns(s.pools, j) {
        assert t.controllers[j].key == s.pools.controllers[j].key;
      }
    }
  }

  /** A step loses a pool if and only if it finishes a miss that overlaps an earlier one. */
  lemma LosesAPoolExactlyWhen(s: System, e: Event)
    requires Clean(s.pools) && Accounted(s.pools) && Enabled(s, e)
    ensures Accounted(Next(s, e).pools) <==> !Overlaps(s, e)
  {
    if e.Connected? {
      FinishAccountedExactlyWhen(s.pools, e.i, s.now);
    } else {
      OtherStepsKeepAccounted(s, e);
    }
  }

  /** ... and then neither a use, nor a sweep, nor even the purge at exit closes it: only its own
      abort signal can. */
  lemma LeakStays(s: System, e: Event, i: nat)
    requires Keyed(s.pools) && Enabled(s, e) && Leaked(s.pools, i)
    ensures Leaked(Next(s, e).pools, i) <==> e != AbortSignal(i)
  {
    var m, t := s.pools, Next(s, e).pools;
    match e
    case Connected(j) => if !m.controllers[j].aborted { assert t.controllers[i] == m.controllers[i]; }
    case _ =>
  }

  predicate NeverAborts(es: seq<Event>, i: nat) {
    forall e :: e in es ==> e != AbortSignal(i)
  }

  lemma {:induction false} LeakedForGood(s: System, es: seq<Event>, i: nat)
    requires Keyed(s.pools) && IsRun(s, es) && Leaked(s.pools, i) && NeverAborts(es, i)
    ensures Leaked(After(s, es).pools, i)
    decreases |es|
  {
    if es != [] {
      assert es[0] in es;
      LeakStays(s, es[0], i);
      assert forall e :: e in es[1..] ==> e in es;
      LeakedForGood(Next(s, es[0]), es[1..], i);
    }
  }

  /** The signal of `i` closes another pool `j` if and only if `i` leaked and `j` holds its key. */
  lemma ClosesAnotherExactlyWhen(m: Pools, i: nat, j: nat)
    requires Clean(m) && i < |m.controllers| && j < |m.controllers| && j != i && Owns(m, j)
    ensures !Owns(Abort(m, i), j) <==> Leaked(m, i) && m.controllers[i].key == m.controllers[j].key
    ensures Abort(m, i).controllers[j].aborted <==> !Owns(Abort(m, i), j)
  {
  }

  lemma OneStep(s: System, e: Event, es: seq<Event>)
    requires Keyed(s.pools) && Enabled(s, e) && IsRun(Next(s, e), es)
    ensures IsRun(s, [e] + es) && After(s, [e] + es) == After(Next(s, e), es)
  {
    assert ([e] + es)[1..] == es;
  }

  /** Two nodes asking for the same new pool at once are enough. */
  lemma TwoMissesLeak(key: Key, now: int)
    ensures var es := [GetPool(key)] + ([GetPool(key)] + ([Connected(0)] + ([Connected(1)] + [])));
            && IsRun(Start(now), es) && Leaked(After(Start(now), es).pools, 0)
            && After(Start(now), es).pools.registrations == map[key := Registration(1, now)]
  {
    var s := Start(now);
    var s1 := Next(s, GetPool(key));
    var s2 := Next(s1, GetPool(key));
    assert s2.pools == Pools(map[], [Controller(key, Connecting, false), Controller(key, Connecting, false)]);
    var s3 := Next(s2, Connected(0));
    OneStep(s3, Connected(1), []);
    OneStep(s2, Connected(0), [Connected(1)] + []);
    OneStep(s1, GetPool(key), [Connected(0)] + ([Connected(1)] + []));
    OneStep(s, GetPool(key), [GetPool(key)] + ([Connected(0)] + ([Connected(1)] + [])));
  }

  // ---------------------------------------------------------------- misses that do not overlap

  predicate Awaited(m: Pools, key: Key) {
    exists i :: 0 <= i < |m.controllers| && m.controllers[i].stage == Connecting && m.controllers[i].key == key
  }

  /** A key whose connection is awaited is not cached, and is awaited once. */
  predicate Separate(m: Pools) {
    && (forall i :: 0 <= i < |m.controllers| && m.controllers[i].stage == Connecting ==>
          m.controllers[i].key !in m.registrations)
    && (forall i, j ::
          (0 <= i < j < |m.controllers| && m.controllers[i].stage == m.controllers[j].stage == Connecting) ==>
          m.controllers[i].key != m.controllers[j].key)
  }

  /** No pool is asked for while a connection of the same key is awaited. */
  predicate MissesApart(s: System, es: seq<Event>)
    requires Keyed(s.pools) && IsRun(s, es)
    decreases |es|
  {
    es == [] ||
    ((es[0].GetPool? ==> !Awaited(s.pools, es[0].key)) && MissesApart(Next(s, es[0]), es[1..]))
  }

  lemma FinishKeepsSeparate(m: Pools, i: nat, now: int)
    requires Keyed(m) && Separate(m) && i < |m.controllers| && m.controllers[i].stage == Connecting
    ensures Separate(Finish(m, i, now))
  {
    var t := Finish(m, i, now);
    forall j | 0 <= j < |t.controllers| && t.controllers[j].stage == Connecting
      ensures t.controllers[j] == m.controllers[j] && m.controllers[j].key != m.controllers[i].key
      ensures t.controllers[j].key !in t.registrations
    {
      assert j != i;
    }
  }

  /** The other steps cache nothing new and leave what is awaited alone. */
  lemma FewerCachedKeepSeparate(m: Pools, t: Pools)
    requires Separate(m) && t.registrations.Keys <= m.registrations.Keys && |t.controllers| == |m.controllers|
    requires forall j :: 0 <= j < |m.controllers| ==>
               t.controllers[j].key == m.controllers[j].key
               && (t.controllers[j].stage == Connecting ==> m.controllers[j].stage == Connecting)
    ensures Separate(t)
  {
  }

  lemma StepKeepsSeparate(s: System, e: Event)
    requires Keyed(s.pools) && Separate(s.pools) && Enabled(s, e)
    requires e.GetPool? ==> !Awaited(s.pools, e.key)
    ensures Separate(Next(s, e).pools)
  {
    match e
    case Connected(i) => FinishKeepsSeparate(s.pools, i, s.now);
    case GetPool(key) =>
      if key in s.pools.registrations { FewerCachedKeepSeparate(s.pools, Next(s, e).pools); }
    case _ => FewerCachedKeepSeparate(s.pools, Next(s, e).pools);
  }

  /** If misses on one key never overlap, every pool is cached or aborted, never both, and a signal
      closes its own pool only. */
  lemma {:induction false} SeparateMissesLoseNothing(s: System, es: seq<Event>)
    requires Clean(s.pools) && Accounted(s.pools) && Separate(s.pools)
    requires IsRun(s, es) && MissesApart(s, es)
    ensures var m := After(s, es).pools;
            && Clean(m) && Accounted(m)
            && forall i, j :: 0 <= i < |m.controllers| && 0 <= j < |m.controllers| && j != i && Owns(m, j) ==>
                 Owns(Abort(m, i), j)
    decreases |es|
  {
    if es == [] {
      var m := s.pools;
      forall i, j | 0 <= i < |m.controllers| && 0 <= j < |m.controllers| && j != i && Owns(m, j)
        ensures Owns(Abort(m, i), j)
      {
        ClosesAnotherExactlyWhen(m, i, j);
      }
    } else {
      StepKeepsClean(s, es[0]);
      LosesAPoolExactlyWhen(s, es[0]);
      StepKeepsSeparate(s, es[0]);
      SeparateMissesLoseNothing(Next(s, es[0]), es[1..]);
    }
  }

  // ---------------------------------------------------------------- age

  /** Every entry survived the last sweep or has been used since. */
  predicate Timely(s: System) {
    && s.nextSweep - INTERVAL <= s.now <= s.nextSweep
    && forall key :: key in s.pools.registrations ==>
         s.nextSweep - INTERVAL - TTL <= s.pools.registrations[key].lastUsed <= s.now
  }

  lemma StepKeepsTimely(s: System, e: Event)
    requires Keyed(s.pools) && Timely(s) && Enabled(s, e)
    ensures Timely(Next(s, e))
    ensures e.Sweep? ==> forall key :: key in Next(s, e).pools.registrations ==>
              s.now - Next(s, e).pools.registrations[key].lastUsed <= TTL
  {
    if e.AbortSignal? { assert Abort(s.pools, e.i).registrations.Keys <= s.pools.registrations.Keys; }
  }

  /** A cached pool was last used at most `TTL + INTERVAL` ago, at any moment of any run, and at most
      `TTL` ago right after a sweep. */
  lemma {:induction false} NoPoolIsTooOld(s: System, es: seq<Event>)
    requires Keyed(s.pools) && Timely(s) && IsRun(s, es)
    ensures var t := After(s, es);
            && Timely(t)
            && (forall key :: key in t.pools.registrations ==>
                  t.now - t.pools.registrations[key].lastUsed <= TTL + INTERVAL)
            && (es != [] && es[|es| - 1].Sweep? ==>
                  forall key :: key in t.pools.registrations ==> t.now - t.pools.registrations[key].lastUsed <= TTL)
    decreases |es|
  {
    if es != [] {
      StepKeepsTimely(s, es[0]);
      NoPoolIsTooOld(Next(s, es[0]), es[1..]);
      if |es| > 1 { assert es[1..][|es| - 2] == es[|es| - 1]; } else { assert es[1..] == []; }
    }
  }

  /** An entry leaves the map in three ways only; by a sweep only when its last use was more than
      `TTL` ago. */
  lemma EvictedExactlyWhen(s: System, e: Event, key: Key)
    requires Keyed(s.pools) && Enabled(s, e) && key in s.pools.registrations
    ensures key !in Next(s, e).pools.registrations <==>
            || e.Purge?
            || (e.Sweep? && s.now > s.pools.registrations[key].lastUsed + TTL)
            || (e.AbortSignal? && var c := s.pools.controllers[e.i];
                c.key == key && c.stage == Registered && !c.aborted)
  {
  }

  // ---------------------------------------------------------------- age since the last use

  /** When each key was last used, told by the events and the clock: got while it was cached, or
      registered. */
  function UsesAfter(s: System, uses: map<Key, int>, e: Event): map<Key, int>
    requires Enabled(s, e)
  {
    match e
    case GetPool(key) => if key in s.pools.registrations then uses[key := s.now] else uses
    case Connected(i) =>
      if s.pools.controllers[i].aborted then uses else uses[s.pools.controllers[i].key := s.now]
    case _ => uses
  }

  function Uses(s: System, uses: map<Key, int>, es: seq<Event>): map<Key, int>
    requires Keyed(s.pools) && IsRun(s, es)
    decreases |es|
  {
    if es == [] then uses else Uses(Next(s, es[0]), UsesAfter(s, uses, es[0]), es[1..])
  }

  predicate Stamped(m: Pools, uses: map<Key, int>) {
    forall key :: key in m.registrations ==> key in uses && m.registrations[key].lastUsed == uses[key]
  }

  lemma StepKeepsStamped(s: System, uses: map<Key, int>, e: Event)
    requires Keyed(s.pools) && Stamped(s.pools, uses) && Enabled(s, e)
    ensures Stamped(Next(s, e).pools, UsesAfter(s, uses, e))
  {
    if e.AbortSignal? { assert Abort(s.pools, e.i).registrations.Keys <= s.pools.registrations.Keys; }
  }

  lemma {:induction false} RunKeepsStamped(s: System, uses: map<Key, int>, es: seq<Event>)
    requires Keyed(s.pools) && Stamped(s.pools, uses) && IsRun(s, es)
    ensures Stamped(After(s, es).pools, Uses(s, uses, es))
    decreases |es|
  {
    if es != [] {
      StepKeepsStamped(s, uses, es[0]);
      RunKeepsStamped(Next(s, es[0]), UsesAfter(s, uses, es[0]), es[1..]);
    }
  }

  /** From a new manager on, over every run: an entry records the last use of its key. A sweep removes
      it if and only if that use is more than `TTL` ago, so none at or before use + `TTL` does, and it
      is gone by use + `TTL` + `INTERVAL` if it is not used again. */
  lemma KeptWhileUsed(now: int, es: seq<Event>)
    requires IsRun(Start(now), es)
    ensures var t, uses := After(Start(now), es), Uses(Start(now), map[], es);
            forall key :: key in t.pools.registrations ==>
              && key in uses && t.pools.registrations[key].lastUsed == uses[key]
              && t.now <= uses[key] + TTL + INTERVAL
              && (Enabled(t, Sweep) ==> (key !in Next(t, Sweep).pools.registrations <==> t.now > uses[key] + TTL))
  {
    RunKeepsStamped(Start(now), map[], es);
    NoPoolIsTooOld(Start(now), es);
    var t := After(Start(now), es);
    if Enabled(t, Sweep) {
      forall key | key in t.pools.registrations
        ensures key !in Next(t, Sweep).pools.registrations <==> t.now > t.pools.registrations[key].lastUsed + TTL
      {
        EvictedExactlyWhen(t, Sweep, key);
      }
    }
  }
}

/**
 `ConnectionPoolManager`: a cache of connection pools by key, swept for stale entries, whose entries
 are closed through abort controllers. Aborting a controller runs its listener, which cleans up the
 key, which aborts the controller registered there: the two are mutually re-entrant.

 A controller is named by its index, so that an old and a new pool of one key stay apart. The clock
 is a parameter. `getConnection` is two steps around its one await.
 */
module ConnectionPool {
  import opened Wrappers

  type Key = string

  const TTL := 5 * 60 * 1000
  const INTERVAL := 60 * 1000

  /** Before, after, and instead of entering the map. The abort listener exists once registered. */
  datatype Stage = Connecting | Registered | Rejected

  datatype Controller = Controller(key: Key, stage: Stage, aborted: bool)

  datatype Registration = Registration(controller: nat, lastUsed: int)

  datatype Pools = Pools(registrations: map<Key, Registration>, controllers: seq<Controller>)

  const NONE := Pools(map[], [])

  /** Every entry belongs to a controller that listens for that key. */
  predicate Keyed(m: Pools) {
    forall key :: key in m.registrations ==>
      var i := m.registrations[key].controller;
      i < |m.controllers| && m.controllers[i].key == key && m.controllers[i].stage == Registered
  }

  predicate Owns(m: Pools, i: nat)
    requires i < |m.controllers|
  {
    var key := m.controllers[i].key;
    key in m.registrations && m.registrations[key].controller == i
  }

  // ---------------------------------------------------------------- the effect of each operation

  function Aborted(c: Controller): Controller {
    c.(aborted := true)
  }

  /** The entries of `keys` leave the map and exactly their controllers are aborted. */
  function Evict(m: Pools, keys: set<Key>): (t: Pools)
    requires Keyed(m)
    ensures Keyed(t)
  {
    Pools(m.registrations - keys,
          seq(|m.controllers|, i requires 0 <= i < |m.controllers| =>
            if Owns(m, i) && m.controllers[i].key in keys then Aborted(m.controllers[i]) else m.controllers[i]))
  }

  function Abort(m: Pools, i: nat): (t: Pools)
    requires Keyed(m) && i < |m.controllers|
    ensures Keyed(t)
  {
    var c := m.controllers[i];
    if c.aborted then m
    else
      var marked := m.(controllers := m.controllers[i := Aborted(c)]);
      if c.stage == Registered then Evict(marked, {c.key}) else marked
  }

  function Get(m: Pools, key: Key, now: int): (t: Pools)
    requires Keyed(m)
    ensures Keyed(t)
  {
    if key in m.registrations then
      m.(registrations := m.registrations[key := m.registrations[key].(lastUsed := now)])
    else
      m.(controllers := m.controllers + [Controller(key, Connecting, false)])
  }

  function Finish(m: Pools, i: nat, now: int): (t: Pools)
    requires Keyed(m) && i < |m.controllers| && m.controllers[i].stage == Connecting
    ensures Keyed(t)
  {
    var c := m.controllers[i];
    if c.aborted then Reject(m, i)
    else Pools(m.registrations[c.key := Registration(i, now)], m.controllers[i := c.(stage := Registered)])
  }

  function Reject(m: Pools, i: nat): (t: Pools)
    requires Keyed(m) && i < |m.controllers| && m.controllers[i].stage == Connecting
    ensures Keyed(t)
  {
    m.(controllers := m.controllers[i := m.controllers[i].(stage := Rejected)])
  }

  function Stale(m: Pools, now: int): set<Key> {
    set key | key in m.registrations && now - m.registrations[key].lastUsed > TTL
  }

  lemma EvictTwice(m: Pools, a: set<Key>, b: set<Key>)
    requires Keyed(m)
    ensures Evict(Evict(m, a), b) == Evict(m, a + b)
  {
    assert m.registrations - a - b == m.registrations - (a + b);
  }

  lemma EvictNothing(m: Pools)
    requires Keyed(m)
    ensures Evict(m, {}) == m
  {
  }

  lemma EvictMissing(m: Pools, key: Key)
    requires Keyed(m) && key !in m.registrations
    ensures Evict(m, {key}) == m
  {
  }

  /** Aborting the controller of an entry just taken out of the map meets no other entry. */
  lemma AbortOfRemoved(m: Pools, key: Key)
    requires Keyed(m) && key in m.registrations
    ensures Keyed(m.(registrations := m.registrations - {key}))
    ensures Abort(m.(registrations := m.registrations - {key}), m.registrations[key].controller) == Evict(m, {key})
  {
    var i := m.registrations[key].controller;
    var t := Abort(m.(registrations := m.registrations - {key}), i);
    assert t.registrations == m.registrations - {key};
    assert t.controllers == m.controllers[i := Aborted(m.controllers[i])];
    assert forall j :: 0 <= j < |m.controllers| && m.controllers[j].key == key && Owns(m, j) ==> j == i;
    assert Evict(m, {key}).controllers == t.controllers;
  }

  // ---------------------------------------------------------------- the manager

  class ConnectionPoolManager {
    var registrations: map<Key, Registration>
    var controllers: seq<Controller>

    ghost function State(): Pools
      reads this
    {
      Pools(registrations, controllers)
    }

    ghost function Live(): set<int>
      reads this
    {
      set i | 0 <= i < |controllers| && !controllers[i].aborted
    }

    constructor ()
      ensures State() == NONE
    {
      registrations, controllers := map[], [];
    }

    /** `controller.abort()`: the first call alone runs the listener, if there is one yet. */
    method AbortController(i: nat)
      requires Keyed(State()) && i < |controllers|
      modifies this
      ensures State() == Abort(old(State()), i)
      decreases |registrations|, Live()
    {
      if controllers[i].aborted { return; }
      var key := controllers[i].key;
      controllers := controllers[i := Aborted(controllers[i])];
      assert i in old(Live()) && i !in Live();
      if controllers[i].stage == Registered {
        CleanupConnection(key);
      }
    }

    method CleanupConnection(key: Key)
      requires Keyed(State())
      modifies this
      ensures State() == Evict(old(State()), {key})
      decreases |registrations|, Live()
    {
      if key in registrations {
        AbortOfRemoved(State(), key);
        var i := registrations[key].controller;
        registrations := registrations - {key};
        AbortController(i);
      } else {
        EvictMissing(State(), key);
      }
    }

    /** `getConnection` up to its await: a cached pool, or a controller for the one to be made. */
    method GetConnection(key: Key, now: int) returns (i: nat, cached: bool)
      requires Keyed(State())
      modifies this
      ensures State() == Get(old(State()), key, now)
      ensures cached <==> key in old(registrations)
      ensures i == if cached then old(registrations[key].controller) else |old(controllers)|
    {
      if key in registrations {
        registrations := registrations[key := registrations[key].(lastUsed := now)];
        return registrations[key].controller, true;
      }
      i, cached := |controllers|, false;
      controllers := controllers + [Controller(key, Connecting, false)];
    }

    /** `getConnection` after its await; fails if the handler has aborted meanwhile. */
    method FinishConnection(i: nat, now: int) returns (ok: bool)
      requires Keyed(State()) && i < |controllers| && controllers[i].stage == Connecting
      modifies this
      ensures State() == Finish(old(State()), i, now)
      ensures ok <==> !old(controllers[i].aborted)
    {
      if controllers[i].aborted {
        controllers := controllers[i := controllers[i].(stage := Rejected)];
        return false;
      }
      registrations := registrations[controllers[i].key := Registration(i, now)];
      controllers := controllers[i := controllers[i].(stage := Registered)];
      ok := true;
    }

    /** The sweep deletes entries of the map it walks, in whatever order it walks it. */
    method CleanupStaleConnections(now: int)
      requires Keyed(State())
      modifies this
      ensures State() == Evict(old(State()), Stale(old(State()), now))
    {
      ghost var before := State();
      ghost var gone := {};
      var keys := registrations.Keys;
      EvictNothing(before);
      while keys != {}
        invariant keys <= before.registrations.Keys
        invariant gone == Stale(before, now) - keys
        invariant State() == Evict(before, gone)
        decreases keys
      {
        var key :| key in keys;
        keys := keys - {key};
        if now - registrations[key].lastUsed > TTL {
          EvictTwice(before, gone, {key});
          CleanupConnection(key);
          gone := gone + {key};
        }
      }
      assert gone == Stale(before, now);
    }

    method PurgeConnections()
      requires Keyed(State())
      modifies this
      ensures State() == Evict(old(State()), old(registrations.Keys))
    {
      ghost var before := State();
      var keys := registrations.Keys;
      EvictNothing(before);
      while keys != {}
        invariant keys <= before.registrations.Keys
        invariant State() == Evict(before, before.registrations.Keys - keys)
        decreases keys
      {
        var key :| key in keys;
        EvictTwice(before, before.registrations.Keys - keys, {key});
        CleanupConnection(key);
        assert before.registrations.Keys - keys + {key} == before.registrations.Keys - (keys - {key});
        keys := keys - {key};
      }
      assert before.registrations.Keys - keys == before.registrations.Keys;
    }
  }
}

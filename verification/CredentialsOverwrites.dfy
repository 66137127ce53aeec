/**
 Credential overwrites: a table of default values per credential type, inherited along `extends`.

 `setPlainData` flattens the table in place while it walks it; `getOverwrites` memoises which types
 it has resolved but not what it resolved them to; `get` merges a type with all its ancestors again.
 */
module CredentialsOverwrites {
  import opened Wrappers
  import opened CredentialTypes

  type Key = string
  datatype Value = Null | Text(text: string) | Other(n: int)
  type Entry = map<Key, Value>
  type Table = map<TypeName, Entry>

  /** `recognized` types are known or loaded; what a loaded type extends is what is known of it. */
  datatype Types = Types(known: Inheritance, recognized: set<TypeName>)

  // ---------------------------------------------------------------- the simple answer

  function EntryOf(table: Table, t: TypeName): Entry {
    if t in table then table[t] else map[]
  }

  /** The value of the first type of the list that defines the key. */
  function Nearest(table: Table, ts: seq<TypeName>, k: Key): Option<Value> {
    if ts == [] then None
    else if k in EntryOf(table, ts[0]) then Some(EntryOf(table, ts[0])[k])
    else Nearest(table, ts[1..], k)
  }

  /** type, parent, grandparent, ... */
  ghost function Line(known: Inheritance, rank: Rank, t: TypeName): seq<TypeName>
    requires Acyclic(known, rank)
  {
    [t] + Chain(known, rank, t)
  }

  ghost function Effective(known: Inheritance, rank: Rank, table: Table, t: TypeName, k: Key): Option<Value>
    requires Acyclic(known, rank)
  {
    Nearest(table, Line(known, rank, t), k)
  }

  lemma EffectiveFromParent(known: Inheritance, rank: Rank, table: Table, t: TypeName, k: Key)
    requires Acyclic(known, rank)
    ensures Effective(known, rank, table, t, k) ==
            if k in EntryOf(table, t) then Some(EntryOf(table, t)[k])
            else if ParentsOf(known, t) == [] then None
            else Effective(known, rank, table, ParentsOf(known, t)[0], k)
  {
    var line, ps := Line(known, rank, t), ParentsOf(known, t);
    assert line[0] == t && line[1..] == Chain(known, rank, t);
    if ps == [] {
      assert Nearest(table, line[1..], k) == None;
    } else {
      assert line[1..] == Line(known, rank, ps[0]);
    }
  }

  // ---------------------------------------------------------------- the memoised recursion

  datatype Resolution = Resolution(entry: Option<Entry>, resolved: seq<TypeName>)

  /** `getOverwrites` on a given table and memo: what it returns and the memo it leaves. */
  ghost function Resolve(types: Types, rank: Rank, table: Table, resolved: seq<TypeName>, t: TypeName): Resolution
    requires Acyclic(types.known, rank)
    decreases rank(t), 1, 0
  {
    var raw := if t in table then Some(table[t]) else None;
    if t in resolved then Resolution(raw, resolved)
    else if t !in types.recognized then Resolution(None, resolved)
    else if t !in types.known then Resolution(raw, resolved + [t])
    else
      var merged := ResolveAll(types, rank, table, resolved, types.known[t], map[], rank(t));
      Resolution(Some(merged.entry.value + EntryOf(table, t)), merged.resolved + [t])
  }

  ghost function ResolveAll(types: Types, rank: Rank, table: Table, resolved: seq<TypeName>,
                            ps: seq<TypeName>, merged: Entry, bound: nat): (all: Resolution)
    requires Acyclic(types.known, rank) && Below(ps, rank, bound)
    ensures all.entry.Some?
    decreases bound, 0, |ps|
  {
    if ps == [] then Resolution(Some(merged), resolved)
    else
      assert ps[0] in ps;
      var first := Resolve(types, rank, table, resolved, ps[0]);
      ResolveAll(types, rank, table, first.resolved, ps[1..],
                 if first.entry.Some? then merged + first.entry.value else merged, bound)
  }

  /** The table after one turn of the loop of `setPlainData`. */
  ghost function Visited(types: Types, rank: Rank, table: Table, resolved: seq<TypeName>, t: TypeName): Table
    requires Acyclic(types.known, rank)
  {
    var own := Resolve(types, rank, table, resolved, t);
    if own.entry.Some? && own.entry.value != map[] then table[t := own.entry.value] else table
  }

  /** The loop of `setPlainData` over the rest of its keys. */
  ghost function Flatten(types: Types, rank: Rank, table: Table, resolved: seq<TypeName>, order: seq<TypeName>): Table
    requires Acyclic(types.known, rank)
    decreases |order|
  {
    if order == [] then table
    else Flatten(types, rank, Visited(types, rank, table, resolved, order[0]),
                 Resolve(types, rank, table, resolved, order[0]).resolved, order[1..])
  }

  // ---------------------------------------------------------------- what flattening may do to a table

  /** Every entry still has its own values, and anything it gained is what it would inherit. */
  ghost predicate Between(known: Inheritance, rank: Rank, original: Table, table: Table)
    requires Acyclic(known, rank)
  {
    && table.Keys == original.Keys
    && (forall t, k :: t in original && k in original[t] ==> k in table[t] && table[t][k] == original[t][k])
    && (forall t, k :: t in table && k in table[t] ==> Effective(known, rank, original, t, k) == Some(table[t][k]))
  }

  /** Whatever has been flattened so far, the nearest definition is the original one. */
  lemma {:induction false} SameEffective(known: Inheritance, rank: Rank, original: Table, table: Table,
                                         t: TypeName, k: Key)
    requires Acyclic(known, rank) && Between(known, rank, original, table)
    ensures Effective(known, rank, table, t, k) == Effective(known, rank, original, t, k)
    decreases rank(t)
  {
    EffectiveFromParent(known, rank, table, t, k);
    EffectiveFromParent(known, rank, original, t, k);
    if k !in EntryOf(table, t) && ParentsOf(known, t) != [] {
      assert ParentsOf(known, t)[0] in ParentsOf(known, t);
      SameEffective(known, rank, original, table, ParentsOf(known, t)[0], k);
    }
  }

  /** What a call returns contains the type's own entry and nothing it would not inherit. */
  ghost predicate Sound(known: Inheritance, rank: Rank, original: Table, table: Table, t: TypeName, entry: Entry)
    requires Acyclic(known, rank)
  {
    && (forall k :: k in EntryOf(table, t) ==> k in entry && entry[k] == EntryOf(table, t)[k])
    && (forall k :: k in entry ==> Effective(known, rank, original, t, k) == Some(entry[k]))
  }

  lemma {:induction false} ResolveIsSound(types: Types, rank: Rank, original: Table, table: Table,
                                          resolved: seq<TypeName>, t: TypeName)
    requires Acyclic(types.known, rank) && SingleParent(types.known) && Between(types.known, rank, original, table)
    ensures var entry := Resolve(types, rank, table, resolved, t).entry;
            entry.Some? ==> Sound(types.known, rank, original, table, t, entry.value)
    decreases rank(t)
  {
    if t in types.known && t in types.recognized && t !in resolved {
      var ps := types.known[t];
      var all := ResolveAll(types, rank, table, resolved, ps, map[], rank(t));
      var merged := all.entry.value;
      if ps == [] {
        assert merged == map[];
      } else {
        var p := ps[0];
        assert p in ps && ps[1..] == [];
        var first := Resolve(types, rank, table, resolved, p);
        ResolveIsSound(types, rank, original, table, resolved, p);
        assert all == ResolveAll(types, rank, table, first.resolved, [],
                                 if first.entry.Some? then map[] + first.entry.value else map[], rank(t));
        assert forall k :: k in merged ==> Effective(types.known, rank, original, p, k) == Some(merged[k]);
      }
      var entry := merged + EntryOf(table, t);
      forall k | k in entry ensures Effective(types.known, rank, original, t, k) == Some(entry[k]) {
        EffectiveFromParent(types.known, rank, original, t, k);
      }
    }
  }

  lemma {:induction false} FlattenStaysBetween(types: Types, rank: Rank, original: Table, table: Table,
                                               resolved: seq<TypeName>, order: seq<TypeName>)
    requires Acyclic(types.known, rank) && SingleParent(types.known) && Between(types.known, rank, original, table)
    requires forall t :: t in order ==> t in table
    ensures Between(types.known, rank, original, Flatten(types, rank, table, resolved, order))
    decreases |order|
  {
    if order != [] {
      assert order[0] in order;
      ResolveIsSound(types, rank, original, table, resolved, order[0]);
      var next := Visited(types, rank, table, resolved, order[0]);
      assert Between(types.known, rank, original, next);
      FlattenStaysBetween(types, rank, original, next, Resolve(types, rank, table, resolved, order[0]).resolved,
                          order[1..]);
    }
  }

  lemma BetweenItself(known: Inheritance, rank: Rank, table: Table)
    requires Acyclic(known, rank)
    ensures Between(known, rank, table, table)
  {
    forall t, k { EffectiveFromParent(known, rank, table, t, k); }
  }

  /** A first resolution, with nothing on the line memoised, is the full merge. */
  lemma {:induction false} FirstResolutionIsFull(types: Types, rank: Rank, table: Table,
                                                 resolved: seq<TypeName>, t: TypeName, k: Key)
    requires Acyclic(types.known, rank) && SingleParent(types.known)
    requires forall x :: x in Line(types.known, rank, t) ==> x in types.recognized && x !in resolved
    ensures var entry := Resolve(types, rank, table, resolved, t).entry;
            Effective(types.known, rank, table, t, k)
              == if entry.Some? && k in entry.value then Some(entry.value[k]) else None
    decreases rank(t)
  {
    assert t in Line(types.known, rank, t);
    EffectiveFromParent(types.known, rank, table, t, k);
    if t in types.known {
      var ps := types.known[t];
      if ps != [] {
        var p := ps[0];
        assert p in ps && ps[1..] == [] && ParentsOf(types.known, t) == ps;
        assert Line(types.known, rank, t) == [t] + Line(types.known, rank, p);
        FirstResolutionIsFull(types, rank, table, resolved, p, k);
        var first := Resolve(types, rank, table, resolved, p);
        assert ResolveAll(types, rank, table, resolved, ps, map[], rank(t))
            == ResolveAll(types, rank, table, first.resolved, [],
                          if first.entry.Some? then map[] + first.entry.value else map[], rank(t));
      }
    }
  }

  // ---------------------------------------------------------------- the merge done by `get`

  /** `[name, ...parents].reverse()`, mapped to entries, reduced by `Object.assign`. */
  function Merged(table: Table, ts: seq<TypeName>): Entry {
    if ts == [] then map[] else Merged(table, ts[1..]) + EntryOf(table, ts[0])
  }

  lemma {:induction false} MergedIsNearest(table: Table, ts: seq<TypeName>, k: Key)
    ensures Nearest(table, ts, k) == if k in Merged(table, ts) then Some(Merged(table, ts)[k]) else None
    decreases |ts|
  {
    if ts != [] { MergedIsNearest(table, ts[1..], k); }
  }

  lemma {:induction false} NearestOfConcat(table: Table, ts: seq<TypeName>, more: seq<TypeName>, k: Key)
    ensures Nearest(table, ts + more, k) ==
            if Nearest(table, ts, k).Some? then Nearest(table, ts, k) else Nearest(table, more, k)
    decreases |ts|
  {
    if ts == [] {
      assert ts + more == more;
    } else {
      assert (ts + more)[1..] == ts[1..] + more;
      NearestOfConcat(table, ts[1..], more, k);
    }
  }

  lemma {:induction false} NearestDefines(table: Table, ts: seq<TypeName>, k: Key)
    ensures Nearest(table, ts, k).Some? <==> exists t :: t in ts && k in EntryOf(table, t)
    decreases |ts|
  {
    if ts != [] {
      NearestDefines(table, ts[1..], k);
      assert forall t :: t in ts <==> t == ts[0] || t in ts[1..];
    }
  }

  /** Repeated types further down the list never decide. */
  lemma {:induction false} RepeatsNeverDecide(table: Table, ts: seq<TypeName>, k: Key)
    ensures Nearest(table, ts, k) == Nearest(table, FirstOccurrences(ts), k)
    decreases |ts|
  {
    if ts != [] {
      var init, last := ts[..|ts| - 1], ts[|ts| - 1];
      assert ts == init + [last];
      RepeatsNeverDecide(table, init, k);
      NearestOfConcat(table, init, [last], k);
      FirstsOfAppend(init, last);
      if last in init {
        NearestDefines(table, init, k);
        assert [last][1..] == [];
      } else {
        NearestOfConcat(table, FirstOccurrences(init), [last], k);
      }
    }
  }

  lemma {:induction false} GetIsEffective(known: Inheritance, rank: Rank, table: Table, name: TypeName, k: Key)
    requires Acyclic(known, rank) && SingleParent(known)
    ensures var entry := Merged(table, [name] + ParentTypes(known, rank, name));
            Effective(known, rank, table, name, k) == if k in entry then Some(entry[k]) else None
  {
    var ps := ParentTypes(known, rank, name);
    NewHeadStaysFirst(name, ps);
    NearestFirstOnChains(known, rank, name);
    RepeatsNeverDecide(table, [name] + ps, k);
    MergedIsNearest(table, [name] + ps, k);
  }

  /** What `get` sees after any amount of flattening is the simple answer on the original table. */
  lemma {:induction false} FlatteningIsInvisible(types: Types, rank: Rank, original: Table,
                                                 order: seq<TypeName>, name: TypeName, k: Key)
    requires Acyclic(types.known, rank) && SingleParent(types.known)
    requires forall t :: t in order ==> t in original
    ensures var flattened := Flatten(types, rank, original, [], order);
            var entry := Merged(flattened, [name] + ParentTypes(types.known, rank, name));
            Effective(types.known, rank, original, name, k) == if k in entry then Some(entry[k]) else None
  {
    BetweenItself(types.known, rank, original);
    FlattenStaysBetween(types, rank, original, original, [], order);
    var table := Flatten(types, rank, original, [], order);
    SameEffective(types.known, rank, original, table, name, k);
    GetIsEffective(types.known, rank, table, name, k);
  }

  // ---------------------------------------------------------------- saving and reloading

  /** Each round saves the flattened table, loads it again and flattens it in some key order. */
  ghost function Reloaded(types: Types, rank: Rank, table: Table, orders: seq<seq<TypeName>>): Table
    requires Acyclic(types.known, rank)
    decreases |orders|
  {
    if orders == [] then table
    else Reloaded(types, rank, Flatten(types, rank, table, [], orders[0]), orders[1..])
  }

  /** However often the mutated table is persisted and flattened again, every type keeps the
      effective value of every key. */
  lemma {:induction false} ReloadsKeepEffective(types: Types, rank: Rank, table: Table,
                                                orders: seq<seq<TypeName>>, t: TypeName, k: Key)
    requires Acyclic(types.known, rank) && SingleParent(types.known)
    requires forall i, x :: 0 <= i < |orders| && x in orders[i] ==> x in table
    ensures Effective(types.known, rank, Reloaded(types, rank, table, orders), t, k)
         == Effective(types.known, rank, table, t, k)
    decreases |orders|
  {
    if orders != [] {
      BetweenItself(types.known, rank, table);
      assert forall x :: x in orders[0] ==> x in table;
      FlattenStaysBetween(types, rank, table, table, [], orders[0]);
      var flat := Flatten(types, rank, table, [], orders[0]);
      SameEffective(types.known, rank, table, flat, t, k);
      assert forall i, x :: 0 <= i < |orders[1..]| && x in orders[1..][i] ==> x in orders[i + 1];
      ReloadsKeepEffective(types, rank, flat, orders[1..], t, k);
    }
  }

  // ---------------------------------------------------------------- what the memo forgets

  /** The types whose entries a call looks at: up the line as far as nothing is memoised. A memoised
      type is looked at, but not the types above it. */
  ghost function Reached(types: Types, rank: Rank, resolved: seq<TypeName>, t: TypeName): seq<TypeName>
    requires Acyclic(types.known, rank)
    decreases rank(t)
  {
    var ps := ParentsOf(types.known, t);
    if t in resolved then [t]
    else if t !in types.recognized then []
    else if ps == [] then [t]
    else
      assert ps[0] in ps;
      [t] + Reached(types, rank, resolved, ps[0])
  }

  function ValueAt(entry: Option<Entry>, k: Key): Option<Value> {
    if entry.Some? && k in entry.value then Some(entry.value[k]) else None
  }

  lemma ResolveAfter(types: Types, rank: Rank, table: Table, resolved: seq<TypeName>, t: TypeName, p: TypeName)
    requires Acyclic(types.known, rank) && t in types.recognized && t !in resolved
    requires t in types.known && types.known[t] == [p]
    ensures var first := Resolve(types, rank, table, resolved, p);
            Resolve(types, rank, table, resolved, t)
            == Resolution(Some((if first.entry.Some? then first.entry.value else map[]) + EntryOf(table, t)),
                          first.resolved + [t])
  {
    var first := Resolve(types, rank, table, resolved, p);
    assert p in [p] && [p][1..] == [];
    var merged: Entry := if first.entry.Some? then first.entry.value else map[];
    assert map[] + merged == merged;
    assert ResolveAll(types, rank, table, resolved, [p], map[], rank(t))
        == ResolveAll(types, rank, table, first.resolved, [], merged, rank(t));
  }

  /** A call answers with the nearest definition among the types it looks at. */
  lemma {:induction false} ResolveIsNearestReached(types: Types, rank: Rank, table: Table,
                                                   resolved: seq<TypeName>, t: TypeName, k: Key)
    requires Acyclic(types.known, rank) && SingleParent(types.known)
    ensures ValueAt(Resolve(types, rank, table, resolved, t).entry, k)
         == Nearest(table, Reached(types, rank, resolved, t), k)
    decreases rank(t)
  {
    var reached := Reached(types, rank, resolved, t);
    var ps := ParentsOf(types.known, t);
    if t !in resolved && t in types.recognized && ps != [] {
      var p := ps[0];
      assert p in ps && ps == [p];
      ResolveAfter(types, rank, table, resolved, t, p);
      ResolveIsNearestReached(types, rank, table, resolved, p, k);
      assert reached[0] == t && reached[1..] == Reached(types, rank, resolved, p);
    } else if reached != [] {
      assert reached == [t] && reached[1..] == [];
    }
  }

  /** What is looked at is the lower part of the line. */
  lemma {:induction false} ReachedIsLower(types: Types, rank: Rank, resolved: seq<TypeName>, t: TypeName)
      returns (above: seq<TypeName>)
    requires Acyclic(types.known, rank)
    ensures Line(types.known, rank, t) == Reached(types, rank, resolved, t) + above
    decreases rank(t)
  {
    var ps := ParentsOf(types.known, t);
    if t !in resolved && t !in types.recognized {
      above := Line(types.known, rank, t);
    } else if t in resolved || ps == [] {
      above := Chain(types.known, rank, t);
    } else {
      assert ps[0] in ps;
      above := ReachedIsLower(types, rank, resolved, ps[0]);
    }
  }

  predicate Defines(table: Table, ts: seq<TypeName>, k: Key) {
    exists t :: t in ts && k in EntryOf(table, t)
  }

  ghost predicate IsFullMerge(types: Types, rank: Rank, table: Table, resolved: seq<TypeName>, t: TypeName)
    requires Acyclic(types.known, rank)
  {
    forall k ::
      ValueAt(Resolve(types, rank, table, resolved, t).entry, k) == Effective(types.known, rank, table, t, k)
  }

  /** Whatever has been memoised: `getOverwrites` answers with the full merge if and only if every key
      that the line of the type defines is defined by a type it looks at. */
  lemma FullMergeExactlyWhen(types: Types, rank: Rank, table: Table, resolved: seq<TypeName>, t: TypeName)
    requires Acyclic(types.known, rank) && SingleParent(types.known)
    ensures IsFullMerge(types, rank, table, resolved, t) <==>
            forall k :: Defines(table, Line(types.known, rank, t), k) ==>
              Defines(table, Reached(types, rank, resolved, t), k)
  {
    var line, reached := Line(types.known, rank, t), Reached(types, rank, resolved, t);
    var above := ReachedIsLower(types, rank, resolved, t);
    forall k
      ensures ValueAt(Resolve(types, rank, table, resolved, t).entry, k) == Effective(types.known, rank, table, t, k)
              <==> (Defines(table, line, k) ==> Defines(table, reached, k))
    {
      ResolveIsNearestReached(types, rank, table, resolved, t, k);
      NearestOfConcat(table, reached, above, k);
      NearestDefines(table, line, k);
      NearestDefines(table, reached, k);
    }
  }

  /** A call memoises every type it looks at. */
  lemma {:induction false} ReachedAreMemoised(types: Types, rank: Rank, table: Table,
                                              resolved: seq<TypeName>, t: TypeName)
    requires Acyclic(types.known, rank) && SingleParent(types.known)
    ensures var after := Resolve(types, rank, table, resolved, t).resolved;
            && (forall x :: x in Reached(types, rank, resolved, t) ==> x in after)
            && (forall x :: x in resolved ==> x in after)
    decreases rank(t)
  {
    var ps := ParentsOf(types.known, t);
    if t !in resolved && t in types.recognized && ps != [] {
      var p := ps[0];
      assert p in ps && ps == [p];
      ResolveAfter(types, rank, table, resolved, t, p);
      ReachedAreMemoised(types, rank, table, resolved, p);
    }
  }

  /** After a call for `t`, and whatever the table has become since, a call for any type `x` that the
      first one looked at answers with the entry of `x` alone: with the full merge if and only if that
      entry defines all that `x` inherits. */
  lemma MemoForgetsTheMerge(types: Types, rank: Rank, table: Table, resolved: seq<TypeName>, t: TypeName,
                            later: Table, x: TypeName)
    requires Acyclic(types.known, rank) && SingleParent(types.known)
    requires x in Reached(types, rank, resolved, t)
    ensures var after := Resolve(types, rank, table, resolved, t).resolved;
            && Resolve(types, rank, later, after, x).entry == (if x in later then Some(later[x]) else None)
            && (IsFullMerge(types, rank, later, after, x) <==>
                  forall k :: Defines(later, Line(types.known, rank, x), k) ==> k in EntryOf(later, x))
  {
    ReachedAreMemoised(types, rank, table, resolved, t);
    var after := Resolve(types, rank, table, resolved, t).resolved;
    FullMergeExactlyWhen(types, rank, later, after, x);
    assert Reached(types, rank, after, x) == [x];
    assert forall k :: Defines(later, [x], k) <==> k in EntryOf(later, x);
  }

  lemma ReachedFromChild(types: Types, rank: Rank, resolved: seq<TypeName>, t: TypeName, p: TypeName)
    requires Acyclic(types.known, rank) && t in types.known && types.known[t] == [p]
    requires {t, p} <= types.recognized && t !in resolved
    ensures p in Reached(types, rank, resolved, t)
  {
    assert p in ParentsOf(types.known, t);
    assert Reached(types, rank, resolved, p)[0] == p;
    assert Reached(types, rank, resolved, t) == [t] + Reached(types, rank, resolved, p);
    assert ([t] + Reached(types, rank, resolved, p))[1] == p;
  }

  /** So the loop of `setPlainData` itself spoils the answer for `p` by visiting a child of it, whenever
      `p` inherits a key that its own entry does not define. */
  lemma VisitingAChildForgets(types: Types, rank: Rank, table: Table, resolved: seq<TypeName>,
                              t: TypeName, p: TypeName, k: Key)
    requires Acyclic(types.known, rank) && SingleParent(types.known)
    requires t in types.known && types.known[t] == [p] && {t, p} <= types.recognized && t !in resolved
    requires Defines(table, Line(types.known, rank, p), k) && k !in EntryOf(table, p)
    ensures var later := Visited(types, rank, table, resolved, t);
            var memo := Resolve(types, rank, table, resolved, t).resolved;
            !IsFullMerge(types, rank, later, memo, p)
  {
    assert p in ParentsOf(types.known, t);
    var later := Visited(types, rank, table, resolved, t);
    ReachedFromChild(types, rank, resolved, t, p);
    MemoForgetsTheMerge(types, rank, table, resolved, t, later, p);
    var x :| x in Line(types.known, rank, p) && k in EntryOf(table, x);
    VisitKeepsOwn(types, rank, table, resolved, t, x, k);
    assert Defines(later, Line(types.known, rank, p), k);
  }

  // ---------------------------------------------------------------- what each entry gains

  /** The table and the memo at some moment of the loop of `setPlainData`. */
  datatype Moment = Moment(table: Table, resolved: seq<TypeName>)

  ghost function Turn(types: Types, rank: Rank, m: Moment, t: TypeName): Moment
    requires Acyclic(types.known, rank)
  {
    Moment(Visited(types, rank, m.table, m.resolved, t), Resolve(types, rank, m.table, m.resolved, t).resolved)
  }

  /** When the loop comes to the `n`th key. */
  ghost function AtVisit(types: Types, rank: Rank, m: Moment, order: seq<TypeName>, n: nat): Moment
    requires Acyclic(types.known, rank) && n <= |order|
    decreases n
  {
    if n == 0 then m
    else AtVisit(types, rank, Turn(types, rank, m, order[0]), order[1..], n - 1)
  }

  predicate Distinct(order: seq<TypeName>) {
    forall i, j :: 0 <= i < j < |order| ==> order[i] != order[j]
  }

  lemma {:induction false} OtherEntriesStay(types: Types, rank: Rank, m: Moment, order: seq<TypeName>, n: nat,
                                            t: TypeName)
    requires Acyclic(types.known, rank) && n <= |order| && t !in order[..n]
    ensures EntryOf(AtVisit(types, rank, m, order, n).table, t) == EntryOf(m.table, t)
    decreases n
  {
    if n > 0 {
      assert order[0] in order[..n] && order[1..][..n - 1] == order[..n][1..];
      OtherEntriesStay(types, rank, Turn(types, rank, m, order[0]), order[1..], n - 1, t);
    }
  }

  lemma {:induction false} LoopFromVisit(types: Types, rank: Rank, m: Moment, order: seq<TypeName>, n: nat)
    requires Acyclic(types.known, rank) && n <= |order|
    ensures var v := AtVisit(types, rank, m, order, n);
            Flatten(types, rank, m.table, m.resolved, order) == Flatten(types, rank, v.table, v.resolved, order[n..])
    decreases n
  {
    if n == 0 {
      assert order[0..] == order;
    } else {
      assert order[1..][n - 1..] == order[n..];
      LoopFromVisit(types, rank, Turn(types, rank, m, order[0]), order[1..], n - 1);
    }
  }

  lemma LoopEnds(types: Types, rank: Rank, m: Moment, order: seq<TypeName>)
    requires Acyclic(types.known, rank)
    ensures Flatten(types, rank, m.table, m.resolved, order) == AtVisit(types, rank, m, order, |order|).table
  {
    LoopFromVisit(types, rank, m, order, |order|);
    assert order[|order|..] == [];
  }

  /** A visit stores what the call answers, unless the type is not recognised. */
  lemma VisitStores(types: Types, rank: Rank, m: Moment, t: TypeName)
    requires Acyclic(types.known, rank)
    ensures var entry := Resolve(types, rank, m.table, m.resolved, t).entry;
            EntryOf(Visited(types, rank, m.table, m.resolved, t), t) ==
              if t !in types.recognized && t !in m.resolved then EntryOf(m.table, t)
              else if entry.Some? then entry.value else map[]
  {
    var entry := Resolve(types, rank, m.table, m.resolved, t).entry;
    if entry == Some(map[]) && t in m.table {
      forall k | k in m.table[t] ensures false {
        if t in types.recognized || t in m.resolved { ResolveKeepsOwn(types, rank, m.table, m.resolved, t, k); }
      }
    }
  }

  /** A call memoises recognised types of the line only. */
  lemma {:induction false} MemoisesItsLine(types: Types, rank: Rank, table: Table, resolved: seq<TypeName>,
                                           t: TypeName, x: TypeName)
    requires Acyclic(types.known, rank) && SingleParent(types.known)
    requires x in Resolve(types, rank, table, resolved, t).resolved
    ensures x in resolved || (x in types.recognized && x in Line(types.known, rank, t))
    decreases rank(t)
  {
    assert Line(types.known, rank, t)[0] == t;
    var ps := ParentsOf(types.known, t);
    if t !in resolved && t in types.recognized && ps != [] && x != t {
      var p := ps[0];
      assert p in ps && ps == [p];
      ResolveAfter(types, rank, table, resolved, t, p);
      MemoisesItsLine(types, rank, table, resolved, p, x);
      assert Line(types.known, rank, t) == [t] + Line(types.known, rank, p);
    }
  }

  lemma {:induction false} MemoisedBefore(types: Types, rank: Rank, m: Moment, order: seq<TypeName>, n: nat,
                                          x: TypeName)
    requires Acyclic(types.known, rank) && SingleParent(types.known) && n <= |order|
    requires x in AtVisit(types, rank, m, order, n).resolved
    ensures x in m.resolved
            || (x in types.recognized && exists i :: 0 <= i < n && x in Line(types.known, rank, order[i]))
    decreases n
  {
    if n > 0 {
      var next := Turn(types, rank, m, order[0]);
      MemoisedBefore(types, rank, next, order[1..], n - 1, x);
      if x in next.resolved {
        MemoisesItsLine(types, rank, m.table, m.resolved, order[0], x);
      } else {
        var i :| 0 <= i < n - 1 && x in Line(types.known, rank, order[1..][i]);
        assert order[1..][i] == order[i + 1];
      }
    }
  }

  /** Whoever is in the memo has its whole line there. */
  ghost predicate Closed(types: Types, rank: Rank, resolved: seq<TypeName>)
    requires Acyclic(types.known, rank)
  {
    forall x, y :: x in resolved && y in Line(types.known, rank, x) ==> y in resolved
  }

  ghost predicate LineRecognized(types: Types, rank: Rank, t: TypeName)
    requires Acyclic(types.known, rank)
  {
    forall x :: x in Line(types.known, rank, t) ==> x in types.recognized
  }

  lemma {:induction false} MemoisesTheLine(types: Types, rank: Rank, table: Table, resolved: seq<TypeName>, t: TypeName)
    requires Acyclic(types.known, rank) && SingleParent(types.known)
    requires Closed(types, rank, resolved) && LineRecognized(types, rank, t)
    ensures var after := Resolve(types, rank, table, resolved, t).resolved;
            && Closed(types, rank, after)
            && (forall x :: x in after <==> x in resolved || x in Line(types.known, rank, t))
    decreases rank(t)
  {
    var ps, line := ParentsOf(types.known, t), Line(types.known, rank, t);
    assert line[0] == t;
    if t !in resolved && ps != [] {
      var p := ps[0];
      assert p in ps && ps == [p];
      assert line == [t] + Line(types.known, rank, p);
      ResolveAfter(types, rank, table, resolved, t, p);
      MemoisesTheLine(types, rank, table, resolved, p);
    }
  }

  /** The memo at a visit: everything on the lines of the earlier keys, if those are recognised. */
  lemma {:induction false} MemoIsTheLines(types: Types, rank: Rank, m: Moment, order: seq<TypeName>, n: nat)
    requires Acyclic(types.known, rank) && SingleParent(types.known) && n <= |order|
    requires Closed(types, rank, m.resolved) && forall i :: 0 <= i < n ==> LineRecognized(types, rank, order[i])
    ensures forall x :: x in AtVisit(types, rank, m, order, n).resolved <==>
              x in m.resolved || exists i :: 0 <= i < n && x in Line(types.known, rank, order[i])
    decreases n
  {
    if n > 0 {
      MemoisesTheLine(types, rank, m.table, m.resolved, order[0]);
      assert forall i :: 0 <= i < n - 1 ==> order[1..][i] == order[i + 1];
      MemoIsTheLines(types, rank, Turn(types, rank, m, order[0]), order[1..], n - 1);
    }
  }

  /** The entry of the `n`th key gains exactly the keys that are defined by a type which the loop
      looks at when it visits it, with the values that it inherits; an unrecognised type gains
      nothing. */
  lemma FlattenedExactly(types: Types, rank: Rank, data: Table, order: seq<TypeName>, n: nat, k: Key)
    requires Acyclic(types.known, rank) && SingleParent(types.known)
    requires Distinct(order) && n < |order| && forall t :: t in order ==> t in data
    ensures var t, m, flat := order[n], AtVisit(types, rank, Moment(data, []), order, n),
                              Flatten(types, rank, data, [], order);
            && (t in types.recognized ==>
                  (k in EntryOf(flat, t) <==> Defines(m.table, Reached(types, rank, m.resolved, t), k)))
            && (t !in types.recognized ==> EntryOf(flat, t) == EntryOf(data, t))
            && (k in EntryOf(flat, t) ==> Effective(types.known, rank, data, t, k) == Some(flat[t][k]))
  {
    var t, m, flat := order[n], AtVisit(types, rank, Moment(data, []), order, n), Flatten(types, rank, data, [], order);
    var after := Turn(types, rank, m, t);
    BetweenItself(types.known, rank, data);
    FlattenStaysBetween(types, rank, data, data, [], order);
    LoopFromVisit(types, rank, Moment(data, []), order, n);
    assert order[n..][0] == t && order[n..][1..] == order[n + 1..];
    assert flat == Flatten(types, rank, after.table, after.resolved, order[n + 1..]);
    LoopEnds(types, rank, after, order[n + 1..]);
    assert t !in order[n + 1..] && t !in order[..n];
    assert order[n + 1..][..|order[n + 1..]|] == order[n + 1..];
    OtherEntriesStay(types, rank, after, order[n + 1..], |order[n + 1..]|, t);
    OtherEntriesStay(types, rank, Moment(data, []), order, n, t);
    VisitStores(types, rank, m, t);
    if t in types.recognized {
      ResolveIsNearestReached(types, rank, m.table, m.resolved, t, k);
      NearestDefines(m.table, Reached(types, rank, m.resolved, t), k);
    } else if t in m.resolved {
      MemoisedBefore(types, rank, Moment(data, []), order, n, t);
    }
  }

  /** So it is the full merge if and only if what the line defines at first is defined by a type that
      the loop looks at. */
  lemma FlattenedFullyExactlyWhen(types: Types, rank: Rank, data: Table, order: seq<TypeName>, n: nat)
    requires Acyclic(types.known, rank) && SingleParent(types.known)
    requires Distinct(order) && n < |order| && forall t :: t in order ==> t in data
    requires order[n] in types.recognized
    ensures var t, m, flat := order[n], AtVisit(types, rank, Moment(data, []), order, n),
                              Flatten(types, rank, data, [], order);
            (forall k :: ValueAt(Some(EntryOf(flat, t)), k) == Effective(types.known, rank, data, t, k)) <==>
            (forall k :: Defines(data, Line(types.known, rank, t), k) ==>
               Defines(m.table, Reached(types, rank, m.resolved, t), k))
  {
    var t, m, flat := order[n], AtVisit(types, rank, Moment(data, []), order, n), Flatten(types, rank, data, [], order);
    forall k
      ensures ValueAt(Some(EntryOf(flat, t)), k) == Effective(types.known, rank, data, t, k) <==>
              (Defines(data, Line(types.known, rank, t), k) ==>
                 Defines(m.table, Reached(types, rank, m.resolved, t), k))
    {
      FlattenedExactly(types, rank, data, order, n, k);
      NearestDefines(data, Line(types.known, rank, t), k);
    }
  }

  /** The line of the `n`th key is recognised and shares no type with the line of an earlier key. */
  ghost predicate StandsApart(types: Types, rank: Rank, order: seq<TypeName>, n: nat)
    requires Acyclic(types.known, rank) && n < |order|
  {
    forall x :: x in Line(types.known, rank, order[n]) ==>
      x in types.recognized && forall i :: 0 <= i < n ==> x !in Line(types.known, rank, order[i])
  }

  lemma {:induction false} ReachesItsLine(types: Types, rank: Rank, resolved: seq<TypeName>, t: TypeName)
    requires Acyclic(types.known, rank)
    requires forall x :: x in Line(types.known, rank, t) ==> x in types.recognized && x !in resolved
    ensures Reached(types, rank, resolved, t) == Line(types.known, rank, t)
    decreases rank(t)
  {
    var ps := ParentsOf(types.known, t);
    assert Line(types.known, rank, t)[0] == t;
    if ps != [] {
      assert ps[0] in ps;
      assert Line(types.known, rank, t) == [t] + Line(types.known, rank, ps[0]);
      ReachesItsLine(types, rank, resolved, ps[0]);
    }
  }

  /** Such a key, and the first one always if its line is recognised, ends with everything that it
      inherits from anywhere on its line. */
  lemma FlattenedFully(types: Types, rank: Rank, data: Table, order: seq<TypeName>, n: nat)
    requires Acyclic(types.known, rank) && SingleParent(types.known)
    requires Distinct(order) && n < |order| && forall t :: t in order ==> t in data
    requires StandsApart(types, rank, order, n)
    ensures forall k :: ValueAt(Some(EntryOf(Flatten(types, rank, data, [], order), order[n])), k)
                     == Effective(types.known, rank, data, order[n], k)
  {
    var t, m := order[n], AtVisit(types, rank, Moment(data, []), order, n);
    var line := Line(types.known, rank, t);
    assert line[0] == t;
    assert forall i :: 0 <= i < n ==> Line(types.known, rank, order[i])[0] == order[i];
    forall x | x in line ensures x !in m.resolved && EntryOf(m.table, x) == EntryOf(data, x) {
      if x in m.resolved { MemoisedBefore(types, rank, Moment(data, []), order, n, x); }
      OtherEntriesStay(types, rank, Moment(data, []), order, n, x);
    }
    ReachesItsLine(types, rank, m.resolved, t);
    FlattenedFullyExactlyWhen(types, rank, data, order, n);
  }

  // ---------------------------------------------------------------- several parents

  /** Whatever a call inherits, it contains the type's own entry. */
  lemma ResolveKeepsOwn(types: Types, rank: Rank, table: Table, resolved: seq<TypeName>, t: TypeName, k: Key)
    requires Acyclic(types.known, rank)
    requires k in EntryOf(table, t) && (t in types.recognized || t in resolved)
    ensures ValueAt(Resolve(types, rank, table, resolved, t).entry, k) == Some(table[t][k])
  {
  }

  /** The last parent that answers wins. */
  lemma {:induction false} LastParentWins(types: Types, rank: Rank, table: Table, resolved: seq<TypeName>,
                                          ps: seq<TypeName>, merged: Entry, bound: nat, k: Key)
    requires Acyclic(types.known, rank) && Below(ps, rank, bound) && ps != []
    requires var q := ps[|ps| - 1];
             q in types.recognized && k in EntryOf(table, q)
    ensures var all := ResolveAll(types, rank, table, resolved, ps, merged, bound);
            k in all.entry.value && all.entry.value[k] == table[ps[|ps| - 1]][k]
    decreases |ps|
  {
    assert ps[0] in ps;
    var first := Resolve(types, rank, table, resolved, ps[0]);
    var next := if first.entry.Some? then merged + first.entry.value else merged;
    if |ps| == 1 {
      ResolveKeepsOwn(types, rank, table, resolved, ps[0], k);
      assert ps[1..] == [];
    } else {
      LastParentWins(types, rank, table, first.resolved, ps[1..], next, bound, k);
    }
  }

  lemma {:induction false} MergedKeysStay(types: Types, rank: Rank, table: Table, resolved: seq<TypeName>,
                                          ps: seq<TypeName>, merged: Entry, bound: nat, k: Key)
    requires Acyclic(types.known, rank) && Below(ps, rank, bound) && k in merged
    ensures k in ResolveAll(types, rank, table, resolved, ps, merged, bound).entry.value
    decreases |ps|
  {
    if ps != [] {
      assert ps[0] in ps;
      var first := Resolve(types, rank, table, resolved, ps[0]);
      MergedKeysStay(types, rank, table, first.resolved, ps[1..],
                     if first.entry.Some? then merged + first.entry.value else merged, bound, k);
    }
  }

  /** Every recognised parent contributes its own keys, wherever it is listed. */
  lemma {:induction false} EveryParentCounts(types: Types, rank: Rank, table: Table, resolved: seq<TypeName>,
                                             ps: seq<TypeName>, merged: Entry, bound: nat, i: nat, k: Key)
    requires Acyclic(types.known, rank) && Below(ps, rank, bound)
    requires i < |ps| && ps[i] in types.recognized && k in EntryOf(table, ps[i])
    ensures k in ResolveAll(types, rank, table, resolved, ps, merged, bound).entry.value
    decreases |ps|
  {
    assert ps[0] in ps;
    var first := Resolve(types, rank, table, resolved, ps[0]);
    var next := if first.entry.Some? then merged + first.entry.value else merged;
    if i == 0 {
      ResolveKeepsOwn(types, rank, table, resolved, ps[0], k);
      MergedKeysStay(types, rank, table, first.resolved, ps[1..], next, bound, k);
    } else {
      EveryParentCounts(types, rank, table, first.resolved, ps[1..], next, bound, i - 1, k);
    }
  }

  /** With any number of parents, visiting a type stores every key of every recognised parent. */
  lemma VisitStoresEveryParent(types: Types, rank: Rank, table: Table, resolved: seq<TypeName>, t: TypeName,
                               i: nat, k: Key)
    requires Acyclic(types.known, rank) && t in types.known && t in types.recognized && t !in resolved
    requires i < |types.known[t]| && types.known[t][i] in types.recognized && k in EntryOf(table, types.known[t][i])
    ensures k in EntryOf(Visited(types, rank, table, resolved, t), t)
  {
    EveryParentCounts(types, rank, table, resolved, types.known[t], map[], rank(t), i, k);
  }

  /** A call memoises nothing of higher rank than its type. */
  lemma {:induction false} MemoisesNoneAbove(types: Types, rank: Rank, table: Table, resolved: seq<TypeName>,
                                             t: TypeName, x: TypeName)
    requires Acyclic(types.known, rank) && x in Resolve(types, rank, table, resolved, t).resolved
    ensures x in resolved || rank(x) <= rank(t)
    decreases rank(t), 1, 0
  {
    if t in types.known && t in types.recognized && t !in resolved && x != t {
      AllMemoiseNoneAbove(types, rank, table, resolved, types.known[t], map[], rank(t), x);
    }
  }

  lemma {:induction false} AllMemoiseNoneAbove(types: Types, rank: Rank, table: Table, resolved: seq<TypeName>,
                                               ps: seq<TypeName>, merged: Entry, bound: nat, x: TypeName)
    requires Acyclic(types.known, rank) && Below(ps, rank, bound)
    requires x in ResolveAll(types, rank, table, resolved, ps, merged, bound).resolved
    ensures x in resolved || rank(x) < bound
    decreases bound, 0, |ps|
  {
    if ps != [] {
      assert ps[0] in ps;
      var first := Resolve(types, rank, table, resolved, ps[0]);
      AllMemoiseNoneAbove(types, rank, table, first.resolved, ps[1..],
                          if first.entry.Some? then merged + first.entry.value else merged, bound, x);
      if x in first.resolved { MemoisesNoneAbove(types, rank, table, resolved, ps[0], x); }
    }
  }

  lemma VisitKeepsOwn(types: Types, rank: Rank, table: Table, resolved: seq<TypeName>, t: TypeName,
                      x: TypeName, k: Key)
    requires Acyclic(types.known, rank) && k in EntryOf(table, x)
    ensures var next := Visited(types, rank, table, resolved, t);
            k in EntryOf(next, x) && next[x][k] == table[x][k]
  {
    if x == t && (t in types.recognized || t in resolved) { ResolveKeepsOwn(types, rank, table, resolved, t, k); }
  }

  /** Whatever the relation, flattening never changes what an entry has. */
  lemma {:induction false} FlattenKeepsOwn(types: Types, rank: Rank, table: Table, resolved: seq<TypeName>,
                                           order: seq<TypeName>, x: TypeName, k: Key)
    requires Acyclic(types.known, rank) && k in EntryOf(table, x)
    ensures var flat := Flatten(types, rank, table, resolved, order);
            k in EntryOf(flat, x) && flat[x][k] == table[x][k]
    decreases |order|
  {
    if order != [] {
      VisitKeepsOwn(types, rank, table, resolved, order[0], x, k);
      FlattenKeepsOwn(types, rank, Visited(types, rank, table, resolved, order[0]),
                      Resolve(types, rank, table, resolved, order[0]).resolved, order[1..], x, k);
    }
  }

  /** When `c` is visited, with nothing of its rank memoised, its last parent's value is stored. */
  lemma VisitStoresLast(types: Types, rank: Rank, table: Table, resolved: seq<TypeName>, c: TypeName, k: Key)
    requires Acyclic(types.known, rank) && c in types.known && c in types.recognized && c !in resolved
    requires types.known[c] != [] && k !in EntryOf(table, c)
    requires var q := types.known[c][|types.known[c]| - 1];
             q in types.recognized && k in EntryOf(table, q)
    ensures var next := Visited(types, rank, table, resolved, c);
            k in EntryOf(next, c) && next[c][k] == table[types.known[c][|types.known[c]| - 1]][k]
  {
    LastParentWins(types, rank, table, resolved, types.known[c], map[], rank(c), k);
  }

  /** Wherever `c` comes in the order, if all other keys are of lower rank. */
  lemma {:induction false} FlattenStoresLast(types: Types, rank: Rank, table: Table, resolved: seq<TypeName>,
                                             order: seq<TypeName>, c: TypeName, k: Key)
    requires Acyclic(types.known, rank) && c in types.known && c in types.recognized && c !in resolved
    requires types.known[c] != [] && k !in EntryOf(table, c)
    requires var q := types.known[c][|types.known[c]| - 1];
             q in types.recognized && k in EntryOf(table, q)
    requires c in order && forall x :: x in order && x != c ==> rank(x) < rank(c)
    ensures var q := types.known[c][|types.known[c]| - 1];
            var flat := Flatten(types, rank, table, resolved, order);
            k in EntryOf(flat, c) && flat[c][k] == table[q][k]
    decreases |order|
  {
    var q := types.known[c][|types.known[c]| - 1];
    var o := order[0];
    var next, memo := Visited(types, rank, table, resolved, o), Resolve(types, rank, table, resolved, o).resolved;
    if o == c {
      VisitStoresLast(types, rank, table, resolved, c, k);
      FlattenKeepsOwn(types, rank, next, memo, order[1..], c, k);
    } else {
      assert o in order && c in order[1..];
      VisitKeepsOwn(types, rank, table, resolved, o, q, k);
      if c in memo { MemoisesNoneAbove(types, rank, table, resolved, o, c); }
      assert forall x :: x in order[1..] ==> x in order;
      FlattenStoresLast(types, rank, next, memo, order[1..], c, k);
    }
  }

  /** `get` on a table. */
  ghost function Got(types: Types, rank: Rank, table: Table, name: TypeName, k: Key): Option<Value>
    requires Acyclic(types.known, rank)
  {
    Nearest(table, [name] + ParentTypes(types.known, rank, name), k)
  }

  /** Two parents that define a key, and an entry for their child that does not. */
  function Disputed(c: TypeName, p: TypeName, q: TypeName, k: Key, other: Key): Table {
    map[c := map[other := Text("own")], q := map[k := Text("last")], p := map[k := Text("first")]]
  }

  /** Over every acyclic relation, for every type whose first and last parent differ, and for every
      order in which the keys are visited: `get` answers the first parent's value before flattening
      and the last one's after it. */
  lemma TwoParentsDisagree(types: Types, rank: Rank, c: TypeName, k: Key, other: Key, order: seq<TypeName>)
    requires Acyclic(types.known, rank) && c in types.known && c in types.recognized && k != other
    requires |types.known[c]| > 1 && types.known[c][0] != types.known[c][|types.known[c]| - 1]
    requires types.known[c][|types.known[c]| - 1] in types.recognized
    requires var p, q := types.known[c][0], types.known[c][|types.known[c]| - 1];
             forall t :: t in order <==> t in Disputed(c, p, q, k, other)
    ensures var p, q := types.known[c][0], types.known[c][|types.known[c]| - 1];
            var table := Disputed(c, p, q, k, other);
            && Got(types, rank, table, c, k) == Some(Text("first"))
            && Got(types, rank, Flatten(types, rank, table, [], order), c, k) == Some(Text("last"))
  {
    var ps := types.known[c];
    var p, q := ps[0], ps[|ps| - 1];
    assert p in ParentsOf(types.known, c) && q in ParentsOf(types.known, c);
    var table := Disputed(c, p, q, k, other);
    assert rank(p) < rank(c) && rank(q) < rank(c);
    assert table[c] == map[other := Text("own")] && table[p] == map[k := Text("first")];
    GotFromFirstParent(types, rank, table, c, p, k);
    GotOwn(types, rank, Flatten(types, rank, table, [], order), c, k);
    FlattenStoresLast(types, rank, table, [], order, c, k);
  }

  lemma GotOwn(types: Types, rank: Rank, table: Table, c: TypeName, k: Key)
    requires Acyclic(types.known, rank)
    ensures k in EntryOf(table, c) ==> Got(types, rank, table, c, k) == Some(table[c][k])
  {
    assert ([c] + ParentTypes(types.known, rank, c))[0] == c;
  }

  /** A key that a type does not define itself comes from its first parent, if that defines it. */
  lemma GotFromFirstParent(types: Types, rank: Rank, table: Table, c: TypeName, p: TypeName, k: Key)
    requires Acyclic(types.known, rank) && ParentsOf(types.known, c) != [] && p == ParentsOf(types.known, c)[0]
    requires k !in EntryOf(table, c) && k in EntryOf(table, p)
    ensures Got(types, rank, table, c, k) == Some(table[p][k])
  {
    var ps, all := ParentsOf(types.known, c), ParentTypes(types.known, rank, c);
    assert all == Generations(types.known, rank, ps, rank(c));
    assert Below(ps, rank, rank(c));
    assert all == ps + Generations(types.known, rank, Pushed(types.known, rank, ps, rank(c)), rank(c) - 1);
    var line := [c] + all;
    assert line[0] == c && line[1..] == all && all[0] == p;
    assert Nearest(table, all, k) == Some(table[p][k]);
  }

  // ---------------------------------------------------------------- exactly when flattening is invisible

  /** `get` answers after flattening what it answered before, for every table and every key order. */
  ghost predicate Invisible(types: Types, rank: Rank)
    requires Acyclic(types.known, rank)
  {
    forall table: Table, order: seq<TypeName>, name: TypeName, k: Key ::
      (forall t :: t in order <==> t in table) ==>
        Got(types, rank, Flatten(types, rank, table, [], order), name, k) == Got(types, rank, table, name, k)
  }

  /** Known types are recognised, and so is every type they list; none is listed twice. */
  predicate WellListed(types: Types) {
    && types.known.Keys <= types.recognized
    && (forall t, p :: t in types.known && p in types.known[t] ==> p in types.recognized)
    && (forall t, i, j :: t in types.known && 0 <= i < j < |types.known[t]| ==> types.known[t][i] != types.known[t][j])
  }

  lemma GotIsEffective(types: Types, rank: Rank, table: Table, name: TypeName, k: Key)
    requires Acyclic(types.known, rank) && SingleParent(types.known)
    ensures Got(types, rank, table, name, k) == Effective(types.known, rank, table, name, k)
  {
    GetIsEffective(types.known, rank, table, name, k);
    MergedIsNearest(table, [name] + ParentTypes(types.known, rank, name), k);
  }

  lemma SeveralParentsShow(types: Types, rank: Rank, c: TypeName)
    requires Acyclic(types.known, rank) && WellListed(types) && c in types.known && |types.known[c]| > 1
    ensures !Invisible(types, rank)
  {
    var ps := types.known[c];
    var p, q := ps[0], ps[|ps| - 1];
    assert p in ps && q in ps;
    assert p in ParentsOf(types.known, c) && q in ParentsOf(types.known, c);
    var table, order := Disputed(c, p, q, "k", "other"), [c, p, q];
    assert forall t :: t in order <==> t in table;
    TwoParentsDisagree(types, rank, c, "k", "other", order);
  }

  /** Flattening is invisible, for every table and every key order, if and only if no type has
      several parents. */
  lemma InvisibleExactlyWhen(types: Types, rank: Rank)
    requires Acyclic(types.known, rank) && WellListed(types)
    ensures Invisible(types, rank) <==> SingleParent(types.known)
  {
    if SingleParent(types.known) {
      forall table: Table, order: seq<TypeName>, name: TypeName, k: Key | forall t :: t in order <==> t in table
        ensures Got(types, rank, Flatten(types, rank, table, [], order), name, k) == Got(types, rank, table, name, k)
      {
        FlatteningIsInvisible(types, rank, table, order, name, k);
        MergedIsNearest(Flatten(types, rank, table, [], order), [name] + ParentTypes(types.known, rank, name), k);
        GotIsEffective(types, rank, table, name, k);
      }
    } else {
      var c :| c in types.known && |types.known[c]| > 1;
      SeveralParentsShow(types, rank, c);
    }
  }

  // ---------------------------------------------------------------- the service

  predicate Blank(data: Entry, k: Key) {
    k !in data || data[k] == Null || data[k] == Text("")
  }

  /** Non-blank data stay, a blank key takes the value, if there is one. */
  predicate FilledWith(data: Entry, result: Entry, k: Key, value: Option<Value>) {
    if (k !in data || data[k] in {Null, Text("")}) && value.Some? then k in result && result[k] == value.value
    else (k in result <==> k in data) && (k in data ==> result[k] == data[k])
  }

  class CredentialsOverwrites {
    const types: Types
    ghost const rank: Rank
    var overwriteData: Table
    var resolvedTypes: seq<TypeName>

    constructor (types: Types, ghost rank: Rank)
      ensures this.types == types && this.rank == rank && overwriteData == map[] && resolvedTypes == []
    {
      this.types, this.rank := types, rank;
      overwriteData, resolvedTypes := map[], [];
    }

    method GetOverwrites(t: TypeName) returns (entry: Option<Entry>)
      requires Acyclic(types.known, rank)
      modifies `resolvedTypes
      ensures Resolution(entry, resolvedTypes) == Resolve(types, rank, overwriteData, old(resolvedTypes), t)
      decreases rank(t)
    {
      if t in resolvedTypes {
        return if t in overwriteData then Some(overwriteData[t]) else None;
      }
      if t !in types.recognized { return None; }
      if t !in types.known {
        resolvedTypes := resolvedTypes + [t];
        return if t in overwriteData then Some(overwriteData[t]) else None;
      }
      var ps := types.known[t];
      var overwrites: Entry := map[];
      var i := 0;
      ghost var all := ResolveAll(types, rank, overwriteData, resolvedTypes, ps, map[], rank(t));
      assert ps[0..] == ps;
      while i < |ps|
        invariant i <= |ps| && Below(ps[i..], rank, rank(t))
        invariant ResolveAll(types, rank, overwriteData, resolvedTypes, ps[i..], overwrites, rank(t)) == all
      {
        assert ps[i] in ParentsOf(types.known, t) && ps[i..][0] == ps[i] && ps[i..][1..] == ps[i + 1..];
        var inherited := GetOverwrites(ps[i]);
        if inherited.Some? {
          overwrites := overwrites + inherited.value;
        }
        i := i + 1;
      }
      assert overwrites + map[] == overwrites;
      if t in overwriteData {
        overwrites := overwrites + overwriteData[t];
      }
      resolvedTypes := resolvedTypes + [t];
      return Some(overwrites);
    }

    /** `order` is the order in which the keys of the table are enumerated. */
    method SetPlainData(data: Table, order: seq<TypeName>)
      requires Acyclic(types.known, rank)
      requires forall t :: t in order <==> t in data
      modifies this
      ensures overwriteData == Flatten(types, rank, data, [], order)
      ensures forall x, k :: x in data && k in data[x] ==>
                x in overwriteData && k in overwriteData[x] && overwriteData[x][k] == data[x][k]
      ensures SingleParent(types.known) ==> Between(types.known, rank, data, overwriteData)
      ensures SingleParent(types.known) && Distinct(order) ==>
                forall n :: 0 <= n < |order| && StandsApart(types, rank, order, n) ==>
                  forall k :: ValueAt(Some(EntryOf(overwriteData, order[n])), k)
                           == Effective(types.known, rank, data, order[n], k)
    {
      resolvedTypes := [];
      overwriteData := data;
      var i := 0;
      assert order[0..] == order;
      while i < |order|
        invariant i <= |order|
        invariant Flatten(types, rank, overwriteData, resolvedTypes, order[i..])
            == Flatten(types, rank, data, [], order)
      {
        assert order[i..][1..] == order[i + 1..];
        var overwrites := GetOverwrites(order[i]);
        if overwrites.Some? && overwrites.value != map[] {
          overwriteData := overwriteData[order[i] := overwrites.value];
        }
        i := i + 1;
      }
      forall x, k | x in data && k in data[x]
        ensures x in overwriteData && k in overwriteData[x] && overwriteData[x][k] == data[x][k]
      {
        FlattenKeepsOwn(types, rank, data, [], order, x, k);
      }
      if SingleParent(types.known) {
        BetweenItself(types.known, rank, data);
        FlattenStaysBetween(types, rank, data, data, [], order);
        if Distinct(order) {
          forall n | 0 <= n < |order| && StandsApart(types, rank, order, n)
            ensures forall k :: ValueAt(Some(EntryOf(overwriteData, order[n])), k)
                             == Effective(types.known, rank, data, order[n], k)
          {
            FlattenedFully(types, rank, data, order, n);
          }
        }
      }
    }

    /** `setData`: what is saved is the table that flattening has already changed. */
    method SetData(data: Table, order: seq<TypeName>, storeInDb: bool, persistence: bool) returns (saved: Option<Table>)
      requires Acyclic(types.known, rank)
      requires forall t :: t in order <==> t in data
      modifies this
      ensures overwriteData == Flatten(types, rank, data, [], order)
      ensures saved == if storeInDb && persistence then Some(Flatten(types, rank, data, [], order)) else None
    {
      SetPlainData(data, order);
      saved := if storeInDb && persistence then Some(overwriteData) else None;
    }

    method Get(name: TypeName) returns (entry: Entry)
      requires Acyclic(types.known, rank)
      ensures entry == Merged(overwriteData, [name] + ParentTypes(types.known, rank, name))
    {
      var parentTypes := GetParentTypes(types.known, name, rank);
      var line := [name] + parentTypes;
      entry := map[];
      var i := |line|;
      while i > 0
        invariant 0 <= i <= |line| && entry == Merged(overwriteData, line[i..])
      {
        i := i - 1;
        assert line[i..][1..] == line[i + 1..] && line[i..][0] == line[i];
        assert entry + map[] == entry;
        if line[i] in overwriteData {
          entry := entry + overwriteData[line[i]];
        }
      }
      assert line[0..] == line;
    }

    /** Non-blank data stay; a blank key takes what the first of the type and its listed ancestors
        defines. With single parents that is the value of the nearest type that defines it in the
        table originally given to `setPlainData`, whatever the flattening has done to it since; with
        several it need not be (`InvisibleExactlyWhen`). */
    method ApplyOverwrite(t: TypeName, data: Entry, ghost original: Table) returns (result: Entry)
      requires Acyclic(types.known, rank)
      ensures forall k :: FilledWith(data, result, k, Got(types, rank, overwriteData, t, k))
      ensures SingleParent(types.known) && Between(types.known, rank, original, overwriteData) ==>
                forall k :: FilledWith(data, result, k, Effective(types.known, rank, original, t, k))
    {
      var overwrites := Get(t);
      result := Fill(data, overwrites);
      forall k ensures FilledWith(data, result, k, Got(types, rank, overwriteData, t, k)) {
        MergedIsNearest(overwriteData, [t] + ParentTypes(types.known, rank, t), k);
      }
      if SingleParent(types.known) && Between(types.known, rank, original, overwriteData) {
        forall k ensures FilledWith(data, result, k, Effective(types.known, rank, original, t, k)) {
          SameEffective(types.known, rank, original, overwriteData, t, k);
          GotIsEffective(types, rank, overwriteData, t, k);
        }
      }
    }

    /** The loop of `applyOverwrite`. */
    method Fill(data: Entry, overwrites: Entry) returns (result: Entry)
      ensures forall k :: k in data || k in overwrites <==> k in result
      ensures forall k :: k in result ==>
                result[k] == if Blank(data, k) && k in overwrites then overwrites[k] else data[k]
    {
      result := data;
      var keys := overwrites.Keys;
      while keys != {}
        invariant keys <= overwrites.Keys
        invariant forall k :: k in overwrites && k !in keys && Blank(data, k) ==>
            k in result && result[k] == overwrites[k]
        invariant forall k :: k in keys || k !in overwrites || !Blank(data, k) ==>
          (k in result <==> k in data) && (k in data ==> result[k] == data[k])
        decreases |keys|
      {
        var k :| k in keys;
        if Blank(result, k) {
          result := result[k := overwrites[k]];
        }
        keys := keys - {k};
      }
    }
  }
}

/**
 The inheritance relation of credential types: `CredentialTypes.getParentTypes`.

 `known[t]` is what `knownCredentials[t].extends` lists; a type outside the map lists nothing. A
 rank that strictly decreases from a type to its parents witnesses that the relation is acyclic.
 */
module CredentialTypes {
  import Sequences

  type TypeName = string
  type Inheritance = map<TypeName, seq<TypeName>>
  type Rank = TypeName -> nat

  function ParentsOf(known: Inheritance, t: TypeName): seq<TypeName> {
    if t in known then known[t] else []
  }

  ghost predicate Acyclic(known: Inheritance, rank: Rank) {
    forall t, p :: p in ParentsOf(known, t) ==> rank(p) < rank(t)
  }

  predicate Below(ts: seq<TypeName>, rank: Rank, bound: nat) {
    forall t :: t in ts ==> rank(t) < bound
  }

  // ---------------------------------------------------------------- what the loop computes

  /** The list in generations: the direct parents, then everything they pushed, then everything that
      pushed, and so on. */
  ghost function ParentTypes(known: Inheritance, rank: Rank, t: TypeName): (ts: seq<TypeName>)
    requires Acyclic(known, rank)
    ensures Below(ts, rank, rank(t))
    decreases rank(t), 2, 0
  {
    Generations(known, rank, ParentsOf(known, t), rank(t))
  }

  ghost function Generations(known: Inheritance, rank: Rank, ts: seq<TypeName>, bound: nat): (all: seq<TypeName>)
    requires Acyclic(known, rank) && Below(ts, rank, bound)
    ensures Below(all, rank, bound)
    decreases bound, 1, 0
  {
    if ts == [] then []
    else ts + Generations(known, rank, Pushed(known, rank, ts, bound), bound - 1)
  }

  /** What visiting the types of one generation pushes onto the list. */
  ghost function Pushed(known: Inheritance, rank: Rank, ts: seq<TypeName>, bound: nat): (next: seq<TypeName>)
    requires Acyclic(known, rank) && Below(ts, rank, bound)
    ensures ts != [] ==> bound > 0 && Below(next, rank, bound - 1)
    ensures ts == [] ==> next == []
    decreases bound, 0, |ts|
  {
    if ts == [] then []
    else
      assert ts[0] in ts;
      ParentTypes(known, rank, ts[0]) + Pushed(known, rank, ts[1..], bound)
  }

  // ---------------------------------------------------------------- how often the loop turns

  /** Turns of the loop caused by one entry: its own, and those of everything it pushes. */
  ghost function Turns(known: Inheritance, rank: Rank, t: TypeName): nat
    requires Acyclic(known, rank)
    decreases rank(t), 2, 0
  {
    1 + SumTurns(known, rank, ParentTypes(known, rank, t), rank(t))
  }

  ghost function SumTurns(known: Inheritance, rank: Rank, ts: seq<TypeName>, bound: nat): nat
    requires Acyclic(known, rank) && Below(ts, rank, bound)
    decreases bound, 1, |ts|
  {
    if ts == [] then 0
    else
      assert ts[0] in ts;
      Turns(known, rank, ts[0]) + SumTurns(known, rank, ts[1..], bound)
  }

  lemma {:induction false} SumTurnsOfConcat(known: Inheritance, rank: Rank, a: seq<TypeName>, b: seq<TypeName>,
                                            bound: nat)
    requires Acyclic(known, rank) && Below(a, rank, bound) && Below(b, rank, bound)
    ensures Below(a + b, rank, bound)
    ensures SumTurns(known, rank, a + b, bound) == SumTurns(known, rank, a, bound) + SumTurns(known, rank, b, bound)
    decreases |a|
  {
    if a == [] {
      assert a + b == b;
    } else {
      assert (a + b)[1..] == a[1..] + b;
      SumTurnsOfConcat(known, rank, a[1..], b, bound);
    }
  }

  lemma {:induction false} SumTurnsBound(known: Inheritance, rank: Rank, ts: seq<TypeName>, bound: nat, other: nat)
    requires Acyclic(known, rank) && Below(ts, rank, bound) && Below(ts, rank, other)
    ensures SumTurns(known, rank, ts, bound) == SumTurns(known, rank, ts, other)
    decreases |ts|
  {
    if ts != [] {
      assert ts[0] in ts;
      SumTurnsBound(known, rank, ts[1..], bound, other);
    }
  }

  /** Visiting the head of the unvisited suffix and pushing its own parent types leaves one turn less. */
  lemma TurnTaken(known: Inheritance, rank: Rank, suffix: seq<TypeName>, bound: nat)
    requires Acyclic(known, rank) && Below(suffix, rank, bound) && suffix != []
    ensures var next := suffix[1..] + ParentTypes(known, rank, suffix[0]);
            && Below(next, rank, bound)
            && SumTurns(known, rank, next, bound) == SumTurns(known, rank, suffix, bound) - 1
  {
    assert suffix[0] in suffix;
    var pushed := ParentTypes(known, rank, suffix[0]);
    SumTurnsOfConcat(known, rank, suffix[1..], pushed, bound);
    SumTurnsBound(known, rank, pushed, bound, rank(suffix[0]));
  }

  /** The entries the loop still visits, in order, when `suffix` is the part of the list ahead of it. */
  ghost function Visits(known: Inheritance, rank: Rank, suffix: seq<TypeName>, bound: nat): seq<TypeName>
    requires Acyclic(known, rank) && Below(suffix, rank, bound)
    decreases SumTurns(known, rank, suffix, bound)
  {
    if suffix == [] then []
    else
      TurnTaken(known, rank, suffix, bound);
      [suffix[0]] + Visits(known, rank, suffix[1..] + ParentTypes(known, rank, suffix[0]), bound)
  }

  lemma VisitsHead(known: Inheritance, rank: Rank, t: TypeName, later: seq<TypeName>, bound: nat)
    requires Acyclic(known, rank) && rank(t) < bound && Below(later, rank, bound)
    ensures Below([t] + later, rank, bound) && Below(later + ParentTypes(known, rank, t), rank, bound)
    ensures Visits(known, rank, [t] + later, bound)
         == [t] + Visits(known, rank, later + ParentTypes(known, rank, t), bound)
  {
    assert ([t] + later)[1..] == later;
  }

  lemma {:induction false} VisitsOneGeneration(known: Inheritance, rank: Rank, ts: seq<TypeName>,
                                               later: seq<TypeName>, bound: nat)
    requires Acyclic(known, rank) && Below(ts, rank, bound) && Below(later, rank, bound)
    ensures Below(ts + later, rank, bound) && Below(later + Pushed(known, rank, ts, bound), rank, bound)
    ensures Visits(known, rank, ts + later, bound)
         == ts + Visits(known, rank, later + Pushed(known, rank, ts, bound), bound)
    decreases |ts|
  {
    if ts == [] {
      assert ts + later == later && later + Pushed(known, rank, ts, bound) == later;
    } else {
      var t, rest := ts[0], ts[1..];
      assert t in ts && ts == [t] + rest;
      var own, pushed := ParentTypes(known, rank, t), Pushed(known, rank, rest, bound);
      VisitsHead(known, rank, t, rest + later, bound);
      Sequences.Associate([t], rest, later);
      Sequences.Associate(rest, later, own);
      VisitsOneGeneration(known, rank, rest, later + own, bound);
      Sequences.Associate(later, own, pushed);
      Sequences.Associate([t], rest, Visits(known, rank, later + (own + pushed), bound));
    }
  }

  lemma {:induction false} VisitsBound(known: Inheritance, rank: Rank, ts: seq<TypeName>, bound: nat, other: nat)
    requires Acyclic(known, rank) && Below(ts, rank, bound) && Below(ts, rank, other)
    ensures Visits(known, rank, ts, bound) == Visits(known, rank, ts, other)
    decreases SumTurns(known, rank, ts, bound)
  {
    if ts != [] {
      TurnTaken(known, rank, ts, bound);
      TurnTaken(known, rank, ts, other);
      VisitsBound(known, rank, ts[1..] + ParentTypes(known, rank, ts[0]), bound, other);
    }
  }

  /** The self-extending list and the generations are the same sequence. */
  lemma {:induction false} VisitsAreGenerations(known: Inheritance, rank: Rank, ts: seq<TypeName>, bound: nat)
    requires Acyclic(known, rank) && Below(ts, rank, bound)
    ensures Visits(known, rank, ts, bound) == Generations(known, rank, ts, bound)
    decreases bound
  {
    if ts != [] {
      var next := Pushed(known, rank, ts, bound);
      assert ts + [] == ts && [] + next == next;
      VisitsOneGeneration(known, rank, ts, [], bound);
      VisitsBound(known, rank, next, bound, bound - 1);
      VisitsAreGenerations(known, rank, next, bound - 1);
    }
  }

  /** The list as far as visited, followed by what is still to be visited. */
  ghost function Whole(known: Inheritance, rank: Rank, all: seq<TypeName>, i: nat, bound: nat): seq<TypeName>
    requires Acyclic(known, rank) && i <= |all| && Below(all[i..], rank, bound)
  {
    all[..i] + Visits(known, rank, all[i..], bound)
  }

  lemma LoopTurn(known: Inheritance, rank: Rank, all: seq<TypeName>, i: nat, bound: nat, more: seq<TypeName>)
    requires Acyclic(known, rank) && i < |all| && Below(all[i..], rank, bound)
    requires more == ParentTypes(known, rank, all[i])
    ensures Below((all + more)[i + 1..], rank, bound)
    ensures Whole(known, rank, all + more, i + 1, bound) == Whole(known, rank, all, i, bound)
    ensures SumTurns(known, rank, (all + more)[i + 1..], bound) == SumTurns(known, rank, all[i..], bound) - 1
  {
    var suffix, next := all[i..], (all + more)[i + 1..];
    TurnTaken(known, rank, suffix, bound);
    assert next == suffix[1..] + more;
    assert (all + more)[..i + 1] == all[..i] + [suffix[0]];
    var rest := Visits(known, rank, next, bound);
    assert Visits(known, rank, suffix, bound) == [suffix[0]] + rest;
    assert all[..i] + ([suffix[0]] + rest) == (all[..i] + [suffix[0]]) + rest;
  }

  /** `getParentTypes`: the loop runs over the array it keeps extending. */
  method GetParentTypes(known: Inheritance, t: TypeName, ghost rank: Rank) returns (all: seq<TypeName>)
    requires Acyclic(known, rank)
    ensures all == ParentTypes(known, rank, t)
    decreases rank(t)
  {
    var extendsArr := if t in known then known[t] else [];
    if |extendsArr| == 0 { return []; }
    all := extendsArr;
    ghost var bound := rank(t);
    var i := 0;
    assert all[0..] == extendsArr && all[..0] == [];
    while i < |all|
      invariant i <= |all| && Below(all[i..], rank, bound)
      invariant Whole(known, rank, all, i, bound) == Visits(known, rank, extendsArr, bound)
      decreases SumTurns(known, rank, all[i..], bound)
    {
      assert all[i] in all[i..];
      var more := GetParentTypes(known, all[i], rank);
      LoopTurn(known, rank, all, i, bound, more);
      all := all + more;
      i := i + 1;
    }
    assert all[..i] == all && all[i..] == [];
    VisitsAreGenerations(known, rank, extendsArr, bound);
  }

  // ---------------------------------------------------------------- exactly the ancestors

  /** A path that climbs from a type to one of its parents at every step. */
  predicate Climbs(known: Inheritance, path: seq<TypeName>) {
    |path| >= 2 && forall i :: 0 <= i < |path| - 1 ==> path[i + 1] in ParentsOf(known, path[i])
  }

  ghost predicate Ancestor(known: Inheritance, a: TypeName, t: TypeName) {
    exists path :: Climbs(known, path) && path[0] == t && path[|path| - 1] == a
  }

  lemma ParentIsAncestor(known: Inheritance, p: TypeName, t: TypeName)
    requires p in ParentsOf(known, t)
    ensures Ancestor(known, p, t)
  {
    var path := [t, p];
    assert Climbs(known, path) && path[0] == t && path[|path| - 1] == p;
  }

  lemma AncestorsCompose(known: Inheritance, a: TypeName, p: TypeName, t: TypeName)
    requires Ancestor(known, a, p) && Ancestor(known, p, t)
    ensures Ancestor(known, a, t)
  {
    var up :| Climbs(known, up) && up[0] == p && up[|up| - 1] == a;
    var low :| Climbs(known, low) && low[0] == t && low[|low| - 1] == p;
    var path := low + up[1..];
    forall i | 0 <= i < |path| - 1 ensures path[i + 1] in ParentsOf(known, path[i]) {
      if i >= |low| - 1 { assert path[i] == up[i - (|low| - 1)] && path[i + 1] == up[i - (|low| - 1) + 1]; }
    }
    assert Climbs(known, path) && path[0] == t && path[|path| - 1] == a;
  }

  lemma {:induction false} PushedMembers(known: Inheritance, rank: Rank, ts: seq<TypeName>, bound: nat, a: TypeName)
    requires Acyclic(known, rank) && Below(ts, rank, bound)
    ensures a in Pushed(known, rank, ts, bound) <==> exists x :: x in ts && a in ParentTypes(known, rank, x)
    decreases |ts|
  {
    if ts != [] {
      assert ts[0] in ts;
      PushedMembers(known, rank, ts[1..], bound, a);
      if x :| x in ts && a in ParentTypes(known, rank, x) {
        assert x == ts[0] || x in ts[1..];
      }
    }
  }

  lemma {:induction false} GenerationsAreAncestors(known: Inheritance, rank: Rank, ts: seq<TypeName>,
                                                   bound: nat, a: TypeName)
    requires Acyclic(known, rank) && Below(ts, rank, bound)
    requires a in Generations(known, rank, ts, bound)
    ensures a in ts || exists x :: x in ts && Ancestor(known, a, x)
    decreases bound, 0
  {
    var next := Pushed(known, rank, ts, bound);
    if a !in ts {
      GenerationsAreAncestors(known, rank, next, bound - 1, a);
      var y :| y in next && (a == y || Ancestor(known, a, y));
      PushedMembers(known, rank, ts, bound, y);
      var x :| x in ts && y in ParentTypes(known, rank, x);
      ParentTypesAreAncestors(known, rank, x, y);
      if a != y { AncestorsCompose(known, a, y, x); }
    }
  }

  lemma {:induction false} ParentTypesAreAncestors(known: Inheritance, rank: Rank, t: TypeName, a: TypeName)
    requires Acyclic(known, rank) && a in ParentTypes(known, rank, t)
    ensures Ancestor(known, a, t)
    decreases rank(t), 1
  {
    var ts := ParentsOf(known, t);
    GenerationsAreAncestors(known, rank, ts, rank(t), a);
    if a in ts {
      ParentIsAncestor(known, a, t);
    } else {
      var x :| x in ts && Ancestor(known, a, x);
      ParentIsAncestor(known, x, t);
      AncestorsCompose(known, a, x, t);
    }
  }

  lemma GenerationMembers(known: Inheritance, rank: Rank, ts: seq<TypeName>, bound: nat, a: TypeName)
    requires Acyclic(known, rank) && Below(ts, rank, bound) && ts != []
    ensures a in Generations(known, rank, ts, bound) <==>
            a in ts || a in Generations(known, rank, Pushed(known, rank, ts, bound), bound - 1)
  {
  }

  /** Whatever is in the list has its own parent types in the list. */
  lemma {:induction false} GenerationsAreClosed(known: Inheritance, rank: Rank, ts: seq<TypeName>, bound: nat,
                                                y: TypeName, a: TypeName)
    requires Acyclic(known, rank) && Below(ts, rank, bound)
    requires y in Generations(known, rank, ts, bound) && a in ParentTypes(known, rank, y)
    ensures a in Generations(known, rank, ts, bound)
    decreases bound
  {
    if ts != [] {
      var next := Pushed(known, rank, ts, bound);
      GenerationMembers(known, rank, ts, bound, y);
      GenerationMembers(known, rank, ts, bound, a);
      if y in ts {
        PushedMembers(known, rank, ts, bound, a);
        GenerationMembers(known, rank, next, bound - 1, a);
      } else {
        GenerationsAreClosed(known, rank, next, bound - 1, y, a);
      }
    }
  }

  lemma {:induction false} ClimbersAreListed(known: Inheritance, rank: Rank, path: seq<TypeName>)
    requires Acyclic(known, rank) && Climbs(known, path)
    ensures path[|path| - 1] in ParentTypes(known, rank, path[0])
    decreases |path|
  {
    var t, p := path[0], path[1];
    assert p in ParentsOf(known, t);
    assert p in ParentTypes(known, rank, t);
    if |path| > 2 {
      ClimbersAreListed(known, rank, path[1..]);
      GenerationsAreClosed(known, rank, ParentsOf(known, t), rank(t), p, path[|path| - 1]);
    }
  }

  /** `getParentTypes(t)` lists exactly the proper ancestors of `t`. */
  lemma {:induction false} ListsExactlyTheAncestors(known: Inheritance, rank: Rank, t: TypeName, a: TypeName)
    requires Acyclic(known, rank)
    ensures a in ParentTypes(known, rank, t) <==> Ancestor(known, a, t)
  {
    if a in ParentTypes(known, rank, t) {
      ParentTypesAreAncestors(known, rank, t, a);
    }
    if Ancestor(known, a, t) {
      var path :| Climbs(known, path) && path[0] == t && path[|path| - 1] == a;
      ClimbersAreListed(known, rank, path);
    }
  }

  // ---------------------------------------------------------------- a rank is no more than acyclicity

  ghost predicate NoCycle(known: Inheritance) {
    forall t :: !Ancestor(known, t, t)
  }

  function Mentioned(known: Inheritance): set<TypeName> {
    set t, i | t in known && 0 <= i < |known[t]| :: known[t][i]
  }

  ghost function Ancestors(known: Inheritance, t: TypeName): set<TypeName> {
    set a | a in Mentioned(known) && Ancestor(known, a, t)
  }

  /** A relation without cycles has a rank (count the ancestors), and one with a rank has no cycle:
      `getParentTypes` is covered on every acyclic relation. */
  lemma {:induction false} RankedExactlyWhenAcyclic(known: Inheritance)
    ensures NoCycle(known) <==> exists rank: Rank :: Acyclic(known, rank)
  {
    if NoCycle(known) {
      var rank: Rank := t => |Ancestors(known, t)|;
      forall t, p | p in ParentsOf(known, t) ensures rank(p) < rank(t) {
        ParentIsAncestor(known, p, t);
        var i :| 0 <= i < |known[t]| && known[t][i] == p;
        assert p in Ancestors(known, t) && p !in Ancestors(known, p);
        forall a | a in Ancestors(known, p) ensures a in Ancestors(known, t) {
          AncestorsCompose(known, a, p, t);
        }
        ProperSubsetsAreSmaller(Ancestors(known, p), Ancestors(known, t));
      }
      assert Acyclic(known, rank);
    }
    if rank: Rank :| Acyclic(known, rank) {
      forall t ensures !Ancestor(known, t, t) {
        if Ancestor(known, t, t) { ListsExactlyTheAncestors(known, rank, t, t); }
      }
    }
  }

  lemma ProperSubsetsAreSmaller<T>(a: set<T>, b: set<T>)
    requires a < b
    ensures |a| < |b|
  {
    assert b == a + (b - a);
    assert b - a != {};
  }

  // ---------------------------------------------------------------- nearest first, on a chain

  predicate SingleParent(known: Inheritance) {
    forall t :: t in known ==> |known[t]| <= 1
  }

  /** parent, grandparent, ... */
  ghost function Chain(known: Inheritance, rank: Rank, t: TypeName): seq<TypeName>
    requires Acyclic(known, rank)
    decreases rank(t)
  {
    var ps := ParentsOf(known, t);
    if ps == [] then []
    else
      assert ps[0] in ps;
      [ps[0]] + Chain(known, rank, ps[0])
  }

  function FirstOccurrences(ts: seq<TypeName>): (firsts: seq<TypeName>)
    ensures forall t :: t in firsts <==> t in ts
  {
    if ts == [] then []
    else
      var last := |ts| - 1;
      assert forall t :: t in ts <==> t in ts[..last] || t == ts[last];
      if ts[last] in ts[..last] then FirstOccurrences(ts[..last])
      else FirstOccurrences(ts[..last]) + [ts[last]]
  }

  lemma {:induction false} RepeatsAddNothing(ts: seq<TypeName>, more: seq<TypeName>)
    requires forall t :: t in more ==> t in ts
    ensures FirstOccurrences(ts + more) == FirstOccurrences(ts)
    decreases |more|
  {
    if more == [] {
      assert ts + more == ts;
    } else {
      var last := |more| - 1;
      assert (ts + more)[..|ts + more| - 1] == ts + more[..last];
      assert more[last] in more;
      RepeatsAddNothing(ts, more[..last]);
    }
  }

  lemma FirstsOfAppend(ts: seq<TypeName>, t: TypeName)
    ensures FirstOccurrences(ts + [t]) == if t in ts then FirstOccurrences(ts) else FirstOccurrences(ts) + [t]
  {
    assert (ts + [t])[..|ts|] == ts;
  }

  lemma {:induction false} NewHeadStaysFirst(t: TypeName, ts: seq<TypeName>)
    requires t !in ts
    ensures FirstOccurrences([t] + ts) == [t] + FirstOccurrences(ts)
    decreases |ts|
  {
    if ts == [] {
      assert [t] + ts == [t];
    } else {
      var init, last := ts[..|ts| - 1], ts[|ts| - 1];
      assert [t] + ts == ([t] + init) + [last] && ts == init + [last];
      FirstsOfAppend([t] + init, last);
      FirstsOfAppend(init, last);
      NewHeadStaysFirst(t, init);
    }
  }

  /** With single inheritance the list names the ancestors nearest first, whatever duplicates the
      growing loop appends behind them. */
  lemma {:induction false} NearestFirstOnChains(known: Inheritance, rank: Rank, t: TypeName)
    requires Acyclic(known, rank) && SingleParent(known)
    ensures FirstOccurrences(ParentTypes(known, rank, t)) == Chain(known, rank, t)
    decreases rank(t)
  {
    var ps := ParentsOf(known, t);
    if ps != [] {
      var p := ps[0];
      assert p in ps && ps == [p];
      var own := ParentTypes(known, rank, p);
      var next := Pushed(known, rank, ps, rank(t));
      assert ps[1..] == [] && next == own;
      var all := Generations(known, rank, next, rank(t) - 1);
      assert ParentTypes(known, rank, t) == [p] + all;
      forall a | a in all ensures a in own {
        GenerationsAreAncestors(known, rank, own, rank(t) - 1, a);
        if a !in own {
          var x :| x in own && Ancestor(known, a, x);
          ListsExactlyTheAncestors(known, rank, x, a);
          GenerationsAreClosed(known, rank, ParentsOf(known, p), rank(p), x, a);
        }
      }
      var rest := if own == [] then [] else all[|own|..];
      assert all == own + rest;
      RepeatsAddNothing(own, rest);
      NewHeadStaysFirst(p, all);
      NearestFirstOnChains(known, rank, p);
    }
  }
}

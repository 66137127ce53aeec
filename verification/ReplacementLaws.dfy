/** What becomes of every credential reference of a workflow, told by positions in the database and in
    the nodes alone. */
module ReplacementLaws {
  import opened Wrappers
  import opened InvalidCredentials

  // ---------------------------------------------------------------- the database by index

  predicate Matches(db: Database, c: nat, name: Name, kind: Kind) {
    c < |db| && db[c].name == name && db[c].kind == kind
  }

  /** The name identifies credential `c`. */
  ghost predicate OnlyMatch(db: Database, c: nat, name: Name, kind: Kind) {
    Matches(db, c, name, kind) && forall d: nat :: Matches(db, d, name, kind) ==> d == c
  }

  predicate HasId(db: Database, c: nat, id: Id, kind: Kind) {
    c < |db| && db[c].id == id && db[c].kind == kind
  }

  function Naming(db: Database, c: nat): Reference
    requires c < |db|
  {
    Details(Some(db[c].id), db[c].name)
  }

  lemma NoneFound(db: Database, name: Name, kind: Kind)
    ensures FindBy(db, name, kind) == [] <==> forall c: nat :: !Matches(db, c, name, kind)
  {
    var found := FindBy(db, name, kind);
    if found != [] {
      assert found[0] in found;
      var c :| 0 <= c < |db| && db[c] == found[0];
      assert Matches(db, c, name, kind);
    }
    forall c: nat | Matches(db, c, name, kind) ensures found != [] {
      assert db[c] in found;
    }
  }

  lemma MatchesInTail(db: Database, d: nat, name: Name, kind: Kind)
    ensures d > 0 && db != [] ==> (Matches(db, d, name, kind) <==> Matches(db[1..], d - 1, name, kind))
  {
  }

  lemma {:induction false} OnlyMatchIsFound(db: Database, c: nat, name: Name, kind: Kind)
    requires OnlyMatch(db, c, name, kind)
    ensures FindBy(db, name, kind) == [db[c]]
    decreases |db|
  {
    assert Matches(db, c, name, kind);
    if c == 0 {
      forall d: nat ensures !Matches(db[1..], d, name, kind) {
        MatchesInTail(db, d + 1, name, kind);
      }
      NoneFound(db[1..], name, kind);
    } else {
      assert !Matches(db, 0, name, kind);
      forall d: nat | Matches(db[1..], d, name, kind) ensures d == c - 1 {
        assert Matches(db, d + 1, name, kind);
      }
      assert Matches(db[1..], c - 1, name, kind);
      OnlyMatchIsFound(db[1..], c - 1, name, kind);
    }
  }

  lemma {:induction false} OneFoundIsOnly(db: Database, name: Name, kind: Kind) returns (c: nat)
    requires |FindBy(db, name, kind)| == 1
    ensures OnlyMatch(db, c, name, kind)
    decreases |db|
  {
    if Matches(db, 0, name, kind) {
      c := 0;
      assert FindBy(db[1..], name, kind) == [];
      NoneFound(db[1..], name, kind);
      forall d: nat | Matches(db, d, name, kind) ensures d == 0 {
        MatchesInTail(db, d, name, kind);
      }
    } else {
      c := OneFoundIsOnly(db[1..], name, kind);
      assert Matches(db[1..], c, name, kind);
      forall d: nat | Matches(db, d, name, kind) ensures d == c + 1 {
        MatchesInTail(db, d, name, kind);
      }
      c := c + 1;
    }
  }

  ghost predicate Identified(db: Database, name: Name, kind: Kind) {
    exists c: nat :: OnlyMatch(db, c, name, kind)
  }

  lemma IdentifiedIsUniqueName(db: Database, name: Name, kind: Kind)
    ensures Identified(db, name, kind) <==> UniqueName(db, name, kind)
    ensures forall c: nat :: OnlyMatch(db, c, name, kind) ==> FindBy(db, name, kind)[0] == db[c]
  {
    forall c: nat | OnlyMatch(db, c, name, kind) ensures FindBy(db, name, kind) == [db[c]] {
      OnlyMatchIsFound(db, c, name, kind);
    }
    if UniqueName(db, name, kind) { var c := OneFoundIsOnly(db, name, kind); }
  }

  ghost predicate Exists(db: Database, id: Id, kind: Kind) {
    exists c: nat :: HasId(db, c, id, kind)
  }

  lemma ExistsIsFound(db: Database, id: Id, kind: Kind)
    requires UniqueIds(db)
    ensures Exists(db, id, kind) <==> FindOneBy(db, id, kind).Some?
    ensures forall c: nat :: HasId(db, c, id, kind) ==> FindOneBy(db, id, kind) == Some(db[c])
  {
    forall c: nat | HasId(db, c, id, kind) ensures FindOneBy(db, id, kind) == Some(db[c]) {
      TheOneWithThisId(db, db[c]);
    }
    var found := FindOneBy(db, id, kind);
    if found.Some? {
      var c :| 0 <= c < |db| && db[c] == found.value;
      assert HasId(db, c, id, kind);
    }
  }

  // ---------------------------------------------------------------- the uses by position

  /** An id that exists for no credential of the type, under a name that identifies none. */
  ghost predicate Lost(db: Database, use: Use) {
    && use.ref.Details? && use.ref.id.Some?
    && !Exists(db, use.ref.id.value, use.kind) && !Identified(db, use.ref.name, use.kind)
  }

  lemma LostIsDangling(db: Database, use: Use)
    requires UniqueIds(db)
    ensures Lost(db, use) <==> Dangling(db, use)
  {
    if use.ref.Details? && use.ref.id.Some? {
      ExistsIsFound(db, use.ref.id.value, use.kind);
      IdentifiedIsUniqueName(db, use.ref.name, use.kind);
    }
  }

  /** Use `j` of node `i`, which is not disabled. */
  predicate InUse(nodes: seq<Node>, i: nat, j: nat) {
    i < |nodes| && !nodes[i].disabled && nodes[i].credentials.Some? && j < |nodes[i].credentials.value|
  }

  function UseOf(nodes: seq<Node>, i: nat, j: nat): Use
    requires InUse(nodes, i, j)
  {
    nodes[i].credentials.value[j]
  }

  predicate Before(k: nat, l: nat, i: nat, j: nat) {
    k < i || (k == i && l < j)
  }

  /** An earlier use of the same id was lost. */
  ghost predicate LostBefore(db: Database, nodes: seq<Node>, k: nat, l: nat, i: nat, j: nat)
    requires InUse(nodes, i, j)
  {
    && InUse(nodes, k, l) && Before(k, l, i, j) && Lost(db, UseOf(nodes, k, l))
    && UseOf(nodes, k, l).kind == UseOf(nodes, i, j).kind
    && UseOf(nodes, i, j).ref.Details? && UseOf(nodes, k, l).ref.id == UseOf(nodes, i, j).ref.id
  }

  ghost predicate FirstLost(db: Database, nodes: seq<Node>, k: nat, l: nat, i: nat, j: nat)
    requires InUse(nodes, i, j)
  {
    && LostBefore(db, nodes, k, l, i, j)
    && forall m: nat, n: nat :: LostBefore(db, nodes, m, n, i, j) ==> !Before(m, n, k, l)
  }

  function Position(nodes: seq<Node>, i: nat, j: nat): nat
    requires InUse(nodes, i, j)
  {
    |UsesOf(nodes[..i])| + j
  }

  lemma NodesAreInOrder(nodes: seq<Node>, k: nat, l: nat, i: nat, j: nat)
    requires InUse(nodes, k, l) && InUse(nodes, i, j) && k < i
    ensures Position(nodes, k, l) < Position(nodes, i, j)
  {
    UsesOfAppend(nodes, k);
    UsesOfConcat(nodes[..k + 1], nodes[k + 1..i]);
    assert nodes[..k + 1] + nodes[k + 1..i] == nodes[..i];
  }

  lemma PositionsAreInOrder(nodes: seq<Node>, k: nat, l: nat, i: nat, j: nat)
    requires InUse(nodes, k, l) && InUse(nodes, i, j)
    ensures Position(nodes, k, l) < Position(nodes, i, j) <==> Before(k, l, i, j)
  {
    if k < i { NodesAreInOrder(nodes, k, l, i, j); }
    if i < k { NodesAreInOrder(nodes, i, j, k, l); }
  }

  predicate DanglesAs(db: Database, earlier: seq<Use>, p: nat, use: Use) {
    p < |earlier| && Dangling(db, earlier[p]) && SameId(earlier[p], use)
  }

  lemma {:induction false} FirstDanglingAt(db: Database, earlier: seq<Use>, use: Use) returns (p: nat)
    requires FirstDangling(db, earlier, use).Some?
    ensures DanglesAs(db, earlier, p, use) && earlier[p] == FirstDangling(db, earlier, use).value
    ensures forall o: nat :: DanglesAs(db, earlier, o, use) ==> p <= o
    decreases |earlier|
  {
    if DanglesAs(db, earlier, 0, use) {
      p := 0;
    } else {
      var rest := earlier[1..];
      p := FirstDanglingAt(db, rest, use);
      forall o: nat | DanglesAs(db, earlier, o, use) ensures p + 1 <= o {
        assert o > 0 && DanglesAs(db, rest, o - 1, use);
      }
      p := p + 1;
    }
  }

  lemma {:induction false} NoneDangles(db: Database, earlier: seq<Use>, use: Use, p: nat)
    requires DanglesAs(db, earlier, p, use)
    ensures FirstDangling(db, earlier, use).Some?
    decreases |earlier|
  {
    if !DanglesAs(db, earlier, 0, use) { NoneDangles(db, earlier[1..], use, p - 1); }
  }

  function Earlier(nodes: seq<Node>, i: nat, j: nat): seq<Use>
    requires InUse(nodes, i, j)
  {
    UsesOf(nodes[..i]) + nodes[i].credentials.value[..j]
  }

  /** Positions before a use and the uses that the pass has seen are the same. */
  lemma EarlierUses(nodes: seq<Node>, k: nat, l: nat, i: nat, j: nat)
    requires InUse(nodes, i, j) && InUse(nodes, k, l) && Before(k, l, i, j)
    ensures Position(nodes, k, l) < |Earlier(nodes, i, j)|
    ensures Earlier(nodes, i, j)[Position(nodes, k, l)] == UseOf(nodes, k, l)
  {
    PositionsAreInOrder(nodes, k, l, i, j);
    UseAt(nodes, i, j);
    UseAt(nodes, k, l);
    assert Earlier(nodes, i, j)[Position(nodes, k, l)] == UsesOf(nodes)[Position(nodes, k, l)];
  }

  lemma EarlierUseAt(nodes: seq<Node>, i: nat, j: nat, p: nat) returns (k: nat, l: nat)
    requires InUse(nodes, i, j) && p < |Earlier(nodes, i, j)|
    ensures InUse(nodes, k, l) && Before(k, l, i, j) && Position(nodes, k, l) == p
    ensures UseOf(nodes, k, l) == Earlier(nodes, i, j)[p]
  {
    UseAt(nodes, i, j);
    k, l := Locate(nodes, p);
    UseAt(nodes, k, l);
    PositionsAreInOrder(nodes, k, l, i, j);
    EarlierUses(nodes, k, l, i, j);
  }

  /** An earlier old-style use of the same name and type. */
  predicate NamedBefore(nodes: seq<Node>, k: nat, l: nat, i: nat, j: nat)
    requires InUse(nodes, i, j)
  {
    && InUse(nodes, k, l) && Before(k, l, i, j)
    && (UseOf(nodes, k, l).ref.Bare? || UseOf(nodes, k, l).ref.id.None?)
    && UseOf(nodes, k, l).kind == UseOf(nodes, i, j).kind
    && UseOf(nodes, k, l).ref.name == UseOf(nodes, i, j).ref.name
  }

  lemma NamedBeforeIsSeen(nodes: seq<Node>, i: nat, j: nat)
    requires InUse(nodes, i, j)
    ensures var use := UseOf(nodes, i, j);
            (exists k: nat, l: nat :: NamedBefore(nodes, k, l, i, j)) <==>
            NameSeen(Earlier(nodes, i, j), use.kind, use.ref.name)
  {
    var use, earlier := UseOf(nodes, i, j), Earlier(nodes, i, j);
    NameSeenWhere(earlier, use.kind, use.ref.name);
    if k: nat, l: nat :| NamedBefore(nodes, k, l, i, j) {
      EarlierUses(nodes, k, l, i, j);
    }
    if NameSeen(earlier, use.kind, use.ref.name) {
      var p :| 0 <= p < |earlier| && ByName(earlier[p].ref) && earlier[p].kind == use.kind
            && earlier[p].ref.name == use.ref.name;
      var k, l := EarlierUseAt(nodes, i, j, p);
      assert NamedBefore(nodes, k, l, i, j);
    }
  }

  // ---------------------------------------------------------------- what every reference becomes

  ghost predicate ReplacedByName(db: Database, use: Use, ref: Reference, seen: bool) {
    && (ref.Bare? <==> use.ref.Bare? && !Identified(db, use.ref.name, use.kind) && !seen)
    && (forall c: nat :: c < |db| ==> (ref == Naming(db, c) <==> OnlyMatch(db, c, use.ref.name, use.kind)))
    && (!Identified(db, use.ref.name, use.kind) ==> ref.name == use.ref.name && (ref.Bare? || ref.id.None?))
  }

  ghost predicate ReplacedById(db: Database, nodes: seq<Node>, i: nat, j: nat, id: Id, ref: Reference)
    requires InUse(nodes, i, j)
  {
    var use := UseOf(nodes, i, j);
    if Exists(db, id, use.kind) then forall c: nat :: HasId(db, c, id, use.kind) ==> ref == Naming(db, c)
    else if exists k: nat, l: nat :: LostBefore(db, nodes, k, l, i, j) then
      exists k: nat, l: nat :: FirstLost(db, nodes, k, l, i, j) && ref == UseOf(nodes, k, l).ref
    else if Identified(db, use.ref.name, use.kind) then
      forall c: nat :: OnlyMatch(db, c, use.ref.name, use.kind) ==> ref == Naming(db, c)
    else ref == use.ref
  }

  /** By name, or by id. */
  ghost predicate Replaced(db: Database, nodes: seq<Node>, i: nat, j: nat, ref: Reference)
    requires InUse(nodes, i, j)
  {
    var use := UseOf(nodes, i, j);
    if use.ref.Bare? || use.ref.id.None? then
      ReplacedByName(db, use, ref, exists k: nat, l: nat :: NamedBefore(nodes, k, l, i, j))
    else ReplacedById(db, nodes, i, j, use.ref.id.value, ref)
  }

  lemma OutcomeByName(db: Database, earlier: seq<Use>, use: Use)
    requires UniqueIds(db) && (use.ref.Bare? || use.ref.id.None?)
    ensures ReplacedByName(db, use, Outcome(db, earlier, use), NameSeen(earlier, use.kind, use.ref.name))
  {
    var ref := Outcome(db, earlier, use);
    IdentifiedIsUniqueName(db, use.ref.name, use.kind);
    if UniqueName(db, use.ref.name, use.kind) {
      var only := OneFoundIsOnly(db, use.ref.name, use.kind);
      assert ref == Naming(db, only);
      forall c: nat | c < |db| ensures ref == Naming(db, c) <==> OnlyMatch(db, c, use.ref.name, use.kind) {
        if ref == Naming(db, c) { assert db[c].id == db[only].id; }
      }
    }
  }

  lemma OutcomeWithoutLost(db: Database, earlier: seq<Use>, use: Use)
    requires UniqueIds(db) && use.ref.Details? && use.ref.id.Some?
    requires !Exists(db, use.ref.id.value, use.kind) && FirstDangling(db, earlier, use).None?
    ensures var ref := Outcome(db, earlier, use);
            if Identified(db, use.ref.name, use.kind) then
              forall c: nat :: OnlyMatch(db, c, use.ref.name, use.kind) ==> ref == Naming(db, c)
            else ref == use.ref
  {
    ExistsIsFound(db, use.ref.id.value, use.kind);
    IdentifiedIsUniqueName(db, use.ref.name, use.kind);
  }

  lemma LostBeforeIsSeen(db: Database, nodes: seq<Node>, k: nat, l: nat, i: nat, j: nat)
    requires UniqueIds(db) && InUse(nodes, i, j) && LostBefore(db, nodes, k, l, i, j)
    requires UseOf(nodes, i, j).ref.id.Some?
    ensures DanglesAs(db, Earlier(nodes, i, j), Position(nodes, k, l), UseOf(nodes, i, j))
  {
    EarlierUses(nodes, k, l, i, j);
    LostIsDangling(db, UseOf(nodes, k, l));
  }

  /** The first dangling use that the pass remembers is the first lost one by position. */
  lemma FirstSeenIsFirstLost(db: Database, nodes: seq<Node>, i: nat, j: nat) returns (k: nat, l: nat)
    requires UniqueIds(db) && InUse(nodes, i, j)
    requires UseOf(nodes, i, j).ref.Details? && UseOf(nodes, i, j).ref.id.Some?
    requires FirstDangling(db, Earlier(nodes, i, j), UseOf(nodes, i, j)).Some?
    ensures FirstLost(db, nodes, k, l, i, j)
    ensures UseOf(nodes, k, l) == FirstDangling(db, Earlier(nodes, i, j), UseOf(nodes, i, j)).value
  {
    var earlier, use := Earlier(nodes, i, j), UseOf(nodes, i, j);
    var p := FirstDanglingAt(db, earlier, use);
    k, l := EarlierUseAt(nodes, i, j, p);
    LostIsDangling(db, UseOf(nodes, k, l));
    assert LostBefore(db, nodes, k, l, i, j);
    forall m: nat, n: nat | LostBefore(db, nodes, m, n, i, j) ensures !Before(m, n, k, l) {
      LostBeforeIsSeen(db, nodes, m, n, i, j);
      PositionsAreInOrder(nodes, m, n, k, l);
    }
  }

  lemma OutcomeById(db: Database, nodes: seq<Node>, i: nat, j: nat)
    requires UniqueIds(db) && InUse(nodes, i, j)
    requires UseOf(nodes, i, j).ref.Details? && UseOf(nodes, i, j).ref.id.Some?
    ensures ReplacedById(db, nodes, i, j, UseOf(nodes, i, j).ref.id.value,
                         Outcome(db, Earlier(nodes, i, j), UseOf(nodes, i, j)))
  {
    var earlier, use := Earlier(nodes, i, j), UseOf(nodes, i, j);
    ExistsIsFound(db, use.ref.id.value, use.kind);
    if !Exists(db, use.ref.id.value, use.kind) {
      if FirstDangling(db, earlier, use).Some? {
        var k, l := FirstSeenIsFirstLost(db, nodes, i, j);
        assert LostBefore(db, nodes, k, l, i, j);
      } else {
        forall k: nat, l: nat ensures !LostBefore(db, nodes, k, l, i, j) {
          if LostBefore(db, nodes, k, l, i, j) {
            LostBeforeIsSeen(db, nodes, k, l, i, j);
            NoneDangles(db, earlier, use, Position(nodes, k, l));
          }
        }
        OutcomeWithoutLost(db, earlier, use);
      }
    }
  }

  /** After the pass, every reference of every node that is not disabled: an old-style one names the one
      credential of its type with its name, and keeps its name and no id if there is none or several,
      written as details if the name was used before.
      One with an id names the credential with that id and type. If there is none, it takes over the
      first reference with this id that was lost before it; the first itself goes by its name. */
  lemma ReplacedExactly(db: Database, nodes: seq<Node>, i: nat, j: nat)
    requires UniqueIds(db) && InUse(nodes, i, j)
    ensures var out := PassNodes(db, [], nodes);
            && InUse(out, i, j) && |out[i].credentials.value| == |nodes[i].credentials.value|
            && UseOf(out, i, j).kind == UseOf(nodes, i, j).kind
            && Replaced(db, nodes, i, j, UseOf(out, i, j).ref)
  {
    var own, use := nodes[i].credentials.value, UseOf(nodes, i, j);
    PassNodesAt(db, [], nodes, i);
    assert [] + UsesOf(nodes[..i]) == UsesOf(nodes[..i]);
    PassAt(db, UsesOf(nodes[..i]), own, j);
    assert Seen(UsesOf(nodes[..i]), own, j) == Earlier(nodes, i, j);
    if use.ref.Bare? || use.ref.id.None? {
      OutcomeByName(db, Earlier(nodes, i, j), use);
      NamedBeforeIsSeen(nodes, i, j);
    } else {
      OutcomeById(db, nodes, i, j);
    }
  }
}

/**
 `replaceInvalidCredentials`: every enabled node's credentials are looked up again in the database,
 by id or, for references of the old style, by name, with two caches in front of the queries.
 */
module InvalidCredentials {
  import opened Wrappers
  import Sequences

  type Id = string
  type Name = string
  type Kind = string          // credential type

  datatype Credential = Credential(id: Id, name: Name, kind: Kind)

  /** A node refers to a credential by a bare name, or by details whose id may be null. */
  datatype Reference = Bare(name: Name) | Details(id: Option<Id>, name: Name)

  datatype Use = Use(kind: Kind, ref: Reference)
  datatype Node = Node(disabled: bool, credentials: Option<seq<Use>>)

  // ---------------------------------------------------------------- the database

  type Database = seq<Credential>

  predicate UniqueIds(db: Database) {
    forall i, j :: 0 <= i < j < |db| ==> db[i].id != db[j].id
  }

  /** `findBy({ name, type })` */
  function FindBy(db: Database, name: Name, kind: Kind): (found: seq<Credential>)
    ensures forall c :: c in found <==> c in db && c.name == name && c.kind == kind
  {
    if db == [] then []
    else (if db[0].name == name && db[0].kind == kind then [db[0]] else []) + FindBy(db[1..], name, kind)
  }

  /** `findOneBy({ id, type })` */
  function FindOneBy(db: Database, id: Id, kind: Kind): (found: Option<Credential>)
    ensures found.Some? ==> found.value in db && found.value.id == id && found.value.kind == kind
    ensures found.None? ==> forall c :: c in db ==> c.id != id || c.kind != kind
  {
    if db == [] then None
    else if db[0].id == id && db[0].kind == kind then Some(db[0])
    else FindOneBy(db[1..], id, kind)
  }

  lemma TheOneWithThisId(db: Database, c: Credential)
    requires UniqueIds(db) && c in db
    ensures FindOneBy(db, c.id, c.kind) == Some(c)
  {
    var found := FindOneBy(db, c.id, c.kind);
    assert found.Some?;
  }

  function Found(c: Credential): Reference {
    Details(Some(c.id), c.name)
  }

  // ---------------------------------------------------------------- one use, resolved on its own

  predicate ByName(ref: Reference) {
    ref.Bare? || ref.id.None?
  }

  predicate UniqueName(db: Database, name: Name, kind: Kind) {
    |FindBy(db, name, kind)| == 1
  }

  /** No credential of the type has the id, and the name does not identify one either. */
  predicate Dangling(db: Database, use: Use) {
    && !ByName(use.ref)
    && FindOneBy(db, use.ref.id.value, use.kind).None?
    && !UniqueName(db, use.ref.name, use.kind)
  }

  /** The lookup without caches: by id, else by a name that is unique for the type, else unchanged. */
  function Resolve(db: Database, use: Use): Reference {
    if !ByName(use.ref) && FindOneBy(db, use.ref.id.value, use.kind).Some? then
      Found(FindOneBy(db, use.ref.id.value, use.kind).value)
    else if UniqueName(db, use.ref.name, use.kind) then
      Found(FindBy(db, use.ref.name, use.kind)[0])
    else use.ref
  }

  /** A bare name and details without id say the same. */
  function Norm(ref: Reference): Reference {
    if ref.Bare? then Details(None, ref.name) else ref
  }

  // ---------------------------------------------------------------- the pass, told by its history

  predicate SameId(use: Use, other: Use) {
    !ByName(use.ref) && !ByName(other.ref) && use.kind == other.kind && use.ref.id == other.ref.id
  }

  /** The name has been used before, in the old style and for this type. */
  predicate NameSeen(earlier: seq<Use>, kind: Kind, name: Name) {
    earlier != [] &&
    ((ByName(earlier[0].ref) && earlier[0].kind == kind && earlier[0].ref.name == name)
     || NameSeen(earlier[1..], kind, name))
  }

  /** The first earlier use of the same id that could not be resolved. */
  function FirstDangling(db: Database, earlier: seq<Use>, use: Use): Option<Use> {
    if earlier == [] then None
    else if Dangling(db, earlier[0]) && SameId(earlier[0], use) then Some(earlier[0])
    else FirstDangling(db, earlier[1..], use)
  }

  lemma {:induction false} FirstDanglingIs(db: Database, earlier: seq<Use>, use: Use)
    ensures var first := FirstDangling(db, earlier, use);
            first.Some? ==> first.value in earlier && Dangling(db, first.value) && SameId(first.value, use)
    decreases |earlier|
  {
    if earlier != [] { FirstDanglingIs(db, earlier[1..], use); }
  }

  /** What the pass makes of a use, given the uses it has seen before, without any cache. */
  function Outcome(db: Database, earlier: seq<Use>, use: Use): Reference {
    if ByName(use.ref) then
      if UniqueName(db, use.ref.name, use.kind) then Found(FindBy(db, use.ref.name, use.kind)[0])
      else if NameSeen(earlier, use.kind, use.ref.name) then Details(None, use.ref.name)
      else use.ref
    else if FindOneBy(db, use.ref.id.value, use.kind).Some? then
      Found(FindOneBy(db, use.ref.id.value, use.kind).value)
    else if FirstDangling(db, earlier, use).Some? then FirstDangling(db, earlier, use).value.ref
    else Resolve(db, use)
  }

  function Pass(db: Database, earlier: seq<Use>, uses: seq<Use>): (out: seq<Use>)
    ensures |out| == |uses|
    decreases |uses|
  {
    if uses == [] then []
    else [Use(uses[0].kind, Outcome(db, earlier, uses[0]))] + Pass(db, earlier + [uses[0]], uses[1..])
  }

  function Enabled(node: Node): bool {
    node.credentials.Some? && !node.disabled
  }

  function UsesOf(nodes: seq<Node>): seq<Use> {
    if nodes == [] then []
    else (if Enabled(nodes[0]) then nodes[0].credentials.value else []) + UsesOf(nodes[1..])
  }

  function PassNodes(db: Database, earlier: seq<Use>, nodes: seq<Node>): (out: seq<Node>)
    ensures |out| == |nodes|
    decreases |nodes|
  {
    if nodes == [] then []
    else if Enabled(nodes[0]) then
      var uses := nodes[0].credentials.value;
      [nodes[0].(credentials := Some(Pass(db, earlier, uses)))] + PassNodes(db, earlier + uses, nodes[1..])
    else [nodes[0]] + PassNodes(db, earlier, nodes[1..])
  }

  // ---------------------------------------------------------------- the caches

  type NameCache = map<(Kind, Name), Reference>
  type IdCache = map<(Kind, Id), Reference>

  /** What the two caches hold after the uses in `earlier`: every old-style name seen, with what it
      resolves to; every dangling id seen, with the first reference that dangled; and besides only
      ids that exist, with their credential. */
  ghost predicate Reflects(db: Database, earlier: seq<Use>, byName: NameCache, byId: IdCache) {
    && (forall kind, name :: (kind, name) in byName <==> NameSeen(earlier, kind, name))
    && (forall key :: key in byName ==>
          byName[key] ==
            if UniqueName(db, key.1, key.0) then Found(FindBy(db, key.1, key.0)[0]) else Details(None, key.1))
    && (forall kind, id, name :: FindOneBy(db, id, kind).None? ==>
          var use := Use(kind, Details(Some(id), name));
          && ((kind, id) in byId <==> FirstDangling(db, earlier, use).Some?)
          && ((kind, id) in byId ==> byId[(kind, id)] == FirstDangling(db, earlier, use).value.ref))
    && (forall key :: key in byId && FindOneBy(db, key.1, key.0).Some? ==>
          byId[key] == Found(FindOneBy(db, key.1, key.0).value))
  }

  lemma {:induction false} FirstDanglingOfAppend(db: Database, earlier: seq<Use>, u: Use, use: Use)
    ensures FirstDangling(db, earlier + [u], use) ==
            if FirstDangling(db, earlier, use).Some? then FirstDangling(db, earlier, use)
            else if Dangling(db, u) && SameId(u, use) then Some(u) else None
    decreases |earlier|
  {
    if earlier == [] {
      assert [] + [u] == [u] && [u][1..] == [];
    } else {
      assert (earlier + [u])[1..] == earlier[1..] + [u];
      FirstDanglingOfAppend(db, earlier[1..], u, use);
    }
  }

  lemma {:induction false} NameSeenOfAppend(earlier: seq<Use>, u: Use, kind: Kind, name: Name)
    ensures NameSeen(earlier + [u], kind, name) <==>
            NameSeen(earlier, kind, name) || (ByName(u.ref) && u.kind == kind && u.ref.name == name)
    decreases |earlier|
  {
    if earlier == [] {
      assert [] + [u] == [u] && [u][1..] == [];
    } else {
      assert (earlier + [u])[1..] == earlier[1..] + [u];
      NameSeenOfAppend(earlier[1..], u, kind, name);
    }
  }

  lemma NameCached(db: Database, earlier: seq<Use>, use: Use, byName: NameCache, byId: IdCache, byName': NameCache)
    requires Reflects(db, earlier, byName, byId) && ByName(use.ref)
    requires var key := (use.kind, use.ref.name);
             byName' == if key in byName then byName
                        else byName[key := if UniqueName(db, key.1, key.0) then Found(FindBy(db, key.1, key.0)[0])
                                           else Details(None, key.1)]
    ensures Reflects(db, earlier + [use], byName', byId)
  {
    forall kind, id, name
      ensures var u := Use(kind, Details(Some(id), name));
              FirstDangling(db, earlier + [use], u) == FirstDangling(db, earlier, u)
    {
      FirstDanglingOfAppend(db, earlier, use, Use(kind, Details(Some(id), name)));
    }
    forall kind, name
      ensures NameSeen(earlier + [use], kind, name) <==>
              NameSeen(earlier, kind, name) || (ByName(use.ref) && use.kind == kind && use.ref.name == name)
    {
      NameSeenOfAppend(earlier, use, kind, name);
    }
  }

  lemma IdCached(db: Database, earlier: seq<Use>, use: Use, byName: NameCache, byId: IdCache, byId': IdCache)
    requires UniqueIds(db) && Reflects(db, earlier, byName, byId) && !ByName(use.ref)
    requires var key := (use.kind, use.ref.id.value);
             if key in byId then byId' == byId
             else if FindOneBy(db, key.1, key.0).Some? then
               byId' == byId[key := Found(FindOneBy(db, key.1, key.0).value)]
             else if UniqueName(db, use.ref.name, use.kind) then
               var c := FindBy(db, use.ref.name, use.kind)[0];
               byId' == byId[(use.kind, c.id) := Found(c)]
             else byId' == byId[key := use.ref]
    ensures Reflects(db, earlier + [use], byName, byId')
  {
    forall kind, id, name
      ensures var u := Use(kind, Details(Some(id), name));
              FirstDangling(db, earlier + [use], u) ==
                if FirstDangling(db, earlier, u).Some? then FirstDangling(db, earlier, u)
                else if Dangling(db, use) && use.kind == kind && use.ref.id == Some(id) then Some(use) else None
    {
      FirstDanglingOfAppend(db, earlier, use, Use(kind, Details(Some(id), name)));
    }
    forall kind, name
      ensures NameSeen(earlier + [use], kind, name) <==>
              NameSeen(earlier, kind, name) || (ByName(use.ref) && use.kind == kind && use.ref.name == name)
    {
      NameSeenOfAppend(earlier, use, kind, name);
    }
    if UniqueName(db, use.ref.name, use.kind) {
      var c := FindBy(db, use.ref.name, use.kind)[0];
      assert c in FindBy(db, use.ref.name, use.kind);
      TheOneWithThisId(db, c);
    }
  }

  lemma CacheAnswersByName(db: Database, earlier: seq<Use>, use: Use, byName: NameCache, byId: IdCache)
    requires Reflects(db, earlier, byName, byId) && ByName(use.ref)
    ensures (use.kind, use.ref.name) in byName ==> byName[(use.kind, use.ref.name)] == Outcome(db, earlier, use)
    ensures (use.kind, use.ref.name) !in byName ==> !NameSeen(earlier, use.kind, use.ref.name)
  {
  }

  lemma CacheAnswersById(db: Database, earlier: seq<Use>, use: Use, byName: NameCache, byId: IdCache)
    requires Reflects(db, earlier, byName, byId) && !ByName(use.ref)
    ensures var key := (use.kind, use.ref.id.value);
            if key in byId then byId[key] == Outcome(db, earlier, use)
            else Outcome(db, earlier, use) == Resolve(db, use)
  {
    assert use == Use(use.kind, Details(Some(use.ref.id.value), use.ref.name));
  }

  // ---------------------------------------------------------------- the loops

  /** The body of the inner loop, in the order of the original's branches. */
  method ReplaceUse(db: Database, use: Use, byName: NameCache, byId: IdCache, ghost earlier: seq<Use>)
      returns (ref: Reference, byName': NameCache, byId': IdCache)
    requires UniqueIds(db) && Reflects(db, earlier, byName, byId)
    ensures ref == Outcome(db, earlier, use)
    ensures Reflects(db, earlier + [use], byName', byId')
  {
    ref, byName', byId' := use.ref, byName, byId;
    if use.ref.Bare? || use.ref.id.None? {
      var name := use.ref.name;
      if (use.kind, name) !in byName {
        var credentials := FindBy(db, name, use.kind);
        if |credentials| == 1 {
          byName' := byName[(use.kind, name) := Found(credentials[0])];
          ref := byName'[(use.kind, name)];
        } else {
          byName' := byName[(use.kind, name) := Details(None, name)];
        }
      } else {
        ref := byName[(use.kind, name)];
      }
      CacheAnswersByName(db, earlier, use, byName, byId);
      NameCached(db, earlier, use, byName, byId, byName');
    } else {
      var id := use.ref.id.value;
      if (use.kind, id) !in byId {
        var credentials := FindOneBy(db, id, use.kind);
        if credentials.Some? {
          byId' := byId[(use.kind, id) := Found(credentials.value)];
          ref := byId'[(use.kind, id)];
        } else {
          var credsByName := FindBy(db, use.ref.name, use.kind);
          if |credsByName| == 1 {
            byId' := byId[(use.kind, credsByName[0].id) := Found(credsByName[0])];
            ref := byId'[(use.kind, credsByName[0].id)];
          } else {
            byId' := byId[(use.kind, id) := use.ref];
          }
        }
      } else {
        ref := byId[(use.kind, id)];
      }
      CacheAnswersById(db, earlier, use, byName, byId);
      IdCached(db, earlier, use, byName, byId, byId');
    }
  }

  /** The uses seen before the `j`th one of a node. */
  function Seen(earlier: seq<Use>, uses: seq<Use>, j: nat): seq<Use>
    requires j <= |uses|
  {
    earlier + uses[..j]
  }

  lemma SeenBounds(earlier: seq<Use>, uses: seq<Use>)
    ensures Seen(earlier, uses, 0) == earlier && Seen(earlier, uses, |uses|) == earlier + uses
  {
    assert uses[..0] == [] && uses[..|uses|] == uses;
  }

  lemma SeenNext(earlier: seq<Use>, uses: seq<Use>, j: nat)
    requires j < |uses|
    ensures Seen(earlier, uses, j) + [uses[j]] == Seen(earlier, uses, j + 1)
  {
    assert uses[..j] + [uses[j]] == uses[..j + 1];
  }

  lemma SeenShift(earlier: seq<Use>, uses: seq<Use>, j: nat)
    requires 0 < j <= |uses|
    ensures Seen(earlier + [uses[0]], uses[1..], j - 1) == Seen(earlier, uses, j)
  {
    assert [uses[0]] + uses[1..][..j - 1] == uses[..j];
  }

  lemma {:induction false} PassAt(db: Database, earlier: seq<Use>, uses: seq<Use>, j: nat)
    requires j < |uses|
    ensures Pass(db, earlier, uses)[j] == Use(uses[j].kind, Outcome(db, Seen(earlier, uses, j), uses[j]))
    decreases |uses|
  {
    if j == 0 {
      SeenBounds(earlier, uses);
    } else {
      PassAt(db, earlier + [uses[0]], uses[1..], j - 1);
      SeenShift(earlier, uses, j);
    }
  }

  function NodeAfter(db: Database, earlier: seq<Use>, node: Node): Node {
    if Enabled(node) then node.(credentials := Some(Pass(db, earlier, node.credentials.value))) else node
  }

  lemma {:induction false} UsesOfConcat(a: seq<Node>, b: seq<Node>)
    ensures UsesOf(a + b) == UsesOf(a) + UsesOf(b)
    decreases |a|
  {
    if a == [] {
      assert a + b == b;
    } else {
      assert (a + b)[1..] == a[1..] + b;
      UsesOfConcat(a[1..], b);
    }
  }

  lemma UsesOfAppend(nodes: seq<Node>, i: nat)
    requires i < |nodes|
    ensures UsesOf(nodes[..i + 1]) == UsesOf(nodes[..i]) + if Enabled(nodes[i]) then nodes[i].credentials.value else []
  {
    UsesOfConcat(nodes[..i], [nodes[i]]);
    assert nodes[..i + 1] == nodes[..i] + [nodes[i]];
    assert UsesOf([nodes[i]][1..]) == [];
  }

  lemma {:induction false} PassNodesAt(db: Database, earlier: seq<Use>, nodes: seq<Node>, i: nat)
    requires i < |nodes|
    ensures PassNodes(db, earlier, nodes)[i] == NodeAfter(db, earlier + UsesOf(nodes[..i]), nodes[i])
    decreases |nodes|
  {
    if i == 0 {
      assert earlier + UsesOf(nodes[..0]) == earlier;
    } else {
      var own := if Enabled(nodes[0]) then nodes[0].credentials.value else [];
      PassNodesAt(db, earlier + own, nodes[1..], i - 1);
      assert nodes[..i][1..] == nodes[1..][..i - 1];
      assert (earlier + own) + UsesOf(nodes[1..][..i - 1]) == earlier + UsesOf(nodes[..i]);
      assert earlier + [] == earlier;
    }
  }

  /** Every use of one node, replaced by its outcome. */
  predicate Passed(db: Database, earlier: seq<Use>, uses: seq<Use>, out: seq<Use>) {
    && |out| == |uses|
    && forall j :: 0 <= j < |uses| ==> out[j] == Use(uses[j].kind, Outcome(db, Seen(earlier, uses, j), uses[j]))
  }

  lemma PassedIsPass(db: Database, earlier: seq<Use>, uses: seq<Use>, out: seq<Use>)
    requires Passed(db, earlier, uses, out)
    ensures out == Pass(db, earlier, uses)
  {
    forall j | 0 <= j < |uses| ensures out[j] == Pass(db, earlier, uses)[j] {
      PassAt(db, earlier, uses, j);
    }
  }

  /** The inner loop: the uses of one node, replaced one after the other. */
  method ReplaceUses(db: Database, uses: seq<Use>, byName: NameCache, byId: IdCache, ghost earlier: seq<Use>)
      returns (out: seq<Use>, byName': NameCache, byId': IdCache)
    requires UniqueIds(db) && Reflects(db, earlier, byName, byId)
    ensures Passed(db, earlier, uses, out)
    ensures Reflects(db, earlier + uses, byName', byId')
  {
    out, byName', byId' := uses, byName, byId;
    var j := 0;
    SeenBounds(earlier, uses);
    while j < |uses|
      invariant j <= |uses| == |out|
      invariant forall m :: 0 <= m < j ==> out[m] == Use(uses[m].kind, Outcome(db, Seen(earlier, uses, m), uses[m]))
      invariant forall m :: j <= m < |uses| ==> out[m] == uses[m]
      invariant Reflects(db, Seen(earlier, uses, j), byName', byId')
    {
      SeenNext(earlier, uses, j);
      var ref;
      ref, byName', byId' := ReplaceUse(db, out[j], byName', byId', Seen(earlier, uses, j));
      out := out[j := Use(out[j].kind, ref)];
      j := j + 1;
    }
  }

  /** `replaceInvalidCredentials`, updating the nodes in place. */
  method ReplaceInvalidCredentials(db: Database, nodes: array<Node>)
    requires UniqueIds(db)
    modifies nodes
    ensures nodes[..] == PassNodes(db, [], old(nodes[..]))
  {
    ghost var original := nodes[..];
    var byName: NameCache, byId: IdCache := map[], map[];
    var i := 0;
    while i < nodes.Length
      invariant i <= nodes.Length
      invariant forall m :: 0 <= m < i ==> nodes[m] == NodeAfter(db, UsesOf(original[..m]), original[m])
      invariant forall m :: i <= m < nodes.Length ==> nodes[m] == original[m]
      invariant Reflects(db, UsesOf(original[..i]), byName, byId)
    {
      ghost var earlier := UsesOf(original[..i]);
      UsesOfAppend(original, i);
      if nodes[i].credentials.Some? && !nodes[i].disabled {
        var out;
        out, byName, byId := ReplaceUses(db, nodes[i].credentials.value, byName, byId, earlier);
        PassedIsPass(db, earlier, original[i].credentials.value, out);
        nodes[i] := nodes[i].(credentials := Some(out));
      } else {
        assert earlier + [] == earlier;
      }
      i := i + 1;
    }
    forall m | 0 <= m < nodes.Length ensures nodes[m] == PassNodes(db, [], original)[m] {
      PassNodesAt(db, [], original, m);
      assert [] + UsesOf(original[..m]) == UsesOf(original[..m]);
    }
  }

  // ---------------------------------------------------------------- against the lookup without caches

  function ResolveUses(db: Database, uses: seq<Use>): (out: seq<Use>)
    ensures |out| == |uses|
    ensures forall j :: 0 <= j < |uses| ==> out[j] == Use(uses[j].kind, Resolve(db, uses[j]))
  {
    seq(|uses|, j requires 0 <= j < |uses| => Use(uses[j].kind, Resolve(db, uses[j])))
  }

  function ResolveNode(db: Database, node: Node): Node {
    if Enabled(node) then node.(credentials := Some(ResolveUses(db, node.credentials.value))) else node
  }

  function ResolveNodes(db: Database, nodes: seq<Node>): (out: seq<Node>)
    ensures |out| == |nodes|
    ensures forall i :: 0 <= i < |nodes| ==> out[i] == ResolveNode(db, nodes[i])
  {
    seq(|nodes|, i requires 0 <= i < |nodes| => ResolveNode(db, nodes[i]))
  }

  /** Equal up to writing a bare name as details without id. */
  predicate SameUses(a: seq<Use>, b: seq<Use>) {
    |a| == |b| && forall j :: 0 <= j < |a| ==> a[j].kind == b[j].kind && Norm(a[j].ref) == Norm(b[j].ref)
  }

  predicate SameNode(a: Node, b: Node) {
    && a.disabled == b.disabled
    && (a.credentials.Some? <==> b.credentials.Some?)
    && (a.credentials.Some? ==>
          if Enabled(a) then SameUses(a.credentials.value, b.credentials.value) else a == b)
  }

  predicate SameNodes(a: seq<Node>, b: seq<Node>) {
    |a| == |b| && forall i :: 0 <= i < |a| ==> SameNode(a[i], b[i])
  }

  /** No id that dangles is used again later under another name. */
  predicate NamesAgree(db: Database, uses: seq<Use>) {
    forall p, q :: 0 <= p < q < |uses| && Dangling(db, uses[p]) && SameId(uses[p], uses[q]) ==>
      uses[p].ref.name == uses[q].ref.name
  }

  lemma OutcomeAgreesExactlyWhen(db: Database, earlier: seq<Use>, use: Use)
    requires UniqueIds(db)
    ensures Norm(Outcome(db, earlier, use)) == Norm(Resolve(db, use)) <==>
            (ByName(use.ref) || FirstDangling(db, earlier, use).None?
             || FirstDangling(db, earlier, use).value.ref.name == use.ref.name)
  {
    FirstDanglingIs(db, earlier, use);
    if !ByName(use.ref) && FirstDangling(db, earlier, use).Some? {
      var first := FirstDangling(db, earlier, use).value;
      if UniqueName(db, use.ref.name, use.kind) {
        var c := FindBy(db, use.ref.name, use.kind)[0];
        assert c in FindBy(db, use.ref.name, use.kind);
        assert c.id != use.ref.id.value;
      }
    }
  }

  // Positions in the flat list of uses and in the nodes.

  lemma UseAt(nodes: seq<Node>, i: nat, j: nat)
    requires i < |nodes| && Enabled(nodes[i]) && j < |nodes[i].credentials.value|
    ensures var q, uses := |UsesOf(nodes[..i])| + j, UsesOf(nodes);
            && q < |uses| && uses[q] == nodes[i].credentials.value[j]
            && uses[..q] == UsesOf(nodes[..i]) + nodes[i].credentials.value[..j]
  {
    assert nodes[i..][1..] == nodes[i + 1..];
    assert nodes == nodes[..i] + nodes[i..];
    UsesOfConcat(nodes[..i], nodes[i..]);
    var own, rest := nodes[i].credentials.value, UsesOf(nodes[i + 1..]);
    assert UsesOf(nodes) == UsesOf(nodes[..i]) + (own + rest);
  }

  lemma {:induction false} Locate(nodes: seq<Node>, q: nat) returns (i: nat, j: nat)
    requires q < |UsesOf(nodes)|
    ensures i < |nodes| && Enabled(nodes[i]) && j < |nodes[i].credentials.value|
    ensures q == |UsesOf(nodes[..i])| + j
    decreases |nodes|
  {
    var own := if Enabled(nodes[0]) then nodes[0].credentials.value else [];
    if q < |own| {
      i, j := 0, q;
      assert nodes[..0] == [];
    } else {
      i, j := Locate(nodes[1..], q - |own|);
      i := i + 1;
      assert nodes[..i][1..] == nodes[1..][..i - 1];
    }
  }

  predicate AgreesAt(db: Database, uses: seq<Use>, q: nat)
    requires q < |uses|
  {
    Norm(Outcome(db, uses[..q], uses[q])) == Norm(Resolve(db, uses[q]))
  }

  predicate UseAgrees(db: Database, nodes: seq<Node>, i: nat, j: nat)
    requires i < |nodes| && Enabled(nodes[i]) && j < |nodes[i].credentials.value|
  {
    var own := nodes[i].credentials.value;
    Norm(Outcome(db, UsesOf(nodes[..i]) + own[..j], own[j])) == Norm(Resolve(db, own[j]))
  }

  lemma UseAgreesExactlyWhen(db: Database, nodes: seq<Node>, i: nat, j: nat)
    requires i < |nodes| && Enabled(nodes[i]) && j < |nodes[i].credentials.value|
    ensures var q := |UsesOf(nodes[..i])| + j;
            q < |UsesOf(nodes)| && (UseAgrees(db, nodes, i, j) <==> AgreesAt(db, UsesOf(nodes), q))
  {
    UseAt(nodes, i, j);
  }

  predicate NodeAgrees(db: Database, nodes: seq<Node>, i: nat)
    requires i < |nodes|
  {
    SameNode(PassNodes(db, [], nodes)[i], ResolveNodes(db, nodes)[i])
  }

  lemma NodeAgreesExactlyWhen(db: Database, nodes: seq<Node>, i: nat)
    requires i < |nodes|
    ensures NodeAgrees(db, nodes, i) <==>
            (Enabled(nodes[i]) ==> forall j :: 0 <= j < |nodes[i].credentials.value| ==> UseAgrees(db, nodes, i, j))
  {
    PassNodesAt(db, [], nodes, i);
    assert [] + UsesOf(nodes[..i]) == UsesOf(nodes[..i]);
    assert ResolveNodes(db, nodes)[i] == ResolveNode(db, nodes[i]);
    if Enabled(nodes[i]) {
      var own := nodes[i].credentials.value;
      var out, alone := Pass(db, UsesOf(nodes[..i]), own), ResolveUses(db, own);
      forall j | 0 <= j < |own|
        ensures out[j].kind == alone[j].kind && (Norm(out[j].ref) == Norm(alone[j].ref) <==> UseAgrees(db, nodes, i, j))
      {
        PassAt(db, UsesOf(nodes[..i]), own, j);
      }
      assert SameUses(out, alone) <==> forall j :: 0 <= j < |own| ==> UseAgrees(db, nodes, i, j);
    }
  }

  predicate AllAgree(db: Database, uses: seq<Use>) {
    forall q :: 0 <= q < |uses| ==> AgreesAt(db, uses, q)
  }

  lemma AgreesAtNode(db: Database, nodes: seq<Node>, i: nat)
    requires i < |nodes| && AllAgree(db, UsesOf(nodes))
    ensures NodeAgrees(db, nodes, i)
  {
    if Enabled(nodes[i]) {
      forall j | 0 <= j < |nodes[i].credentials.value| ensures UseAgrees(db, nodes, i, j) {
        UseAgreesExactlyWhen(db, nodes, i, j);
      }
    }
    NodeAgreesExactlyWhen(db, nodes, i);
  }

  lemma AgreesAtUse(db: Database, nodes: seq<Node>, q: nat)
    requires q < |UsesOf(nodes)| && forall i :: 0 <= i < |nodes| ==> NodeAgrees(db, nodes, i)
    ensures AgreesAt(db, UsesOf(nodes), q)
  {
    var i, j := Locate(nodes, q);
    AgreesInItsNode(db, nodes, i, j);
    UseAgreesExactlyWhen(db, nodes, i, j);
  }

  lemma AgreesInItsNode(db: Database, nodes: seq<Node>, i: nat, j: nat)
    requires i < |nodes| && NodeAgrees(db, nodes, i) && Enabled(nodes[i]) && j < |nodes[i].credentials.value|
    ensures UseAgrees(db, nodes, i, j)
  {
    NodeAgreesExactlyWhen(db, nodes, i);
  }

  lemma NodesAgreeExactlyWhen(db: Database, nodes: seq<Node>)
    ensures SameNodes(PassNodes(db, [], nodes), ResolveNodes(db, nodes)) <==> AllAgree(db, UsesOf(nodes))
  {
    if SameNodes(PassNodes(db, [], nodes), ResolveNodes(db, nodes)) {
      assert forall i :: 0 <= i < |nodes| ==> NodeAgrees(db, nodes, i);
      forall q | 0 <= q < |UsesOf(nodes)| { AgreesAtUse(db, nodes, q); }
    }
    if AllAgree(db, UsesOf(nodes)) {
      forall i | 0 <= i < |nodes| ensures SameNode(PassNodes(db, [], nodes)[i], ResolveNodes(db, nodes)[i]) {
        AgreesAtNode(db, nodes, i);
      }
    }
  }

  lemma {:induction false} FirstDanglingOfConcat(db: Database, a: seq<Use>, b: seq<Use>, use: Use)
    ensures FirstDangling(db, a + b, use) ==
            if FirstDangling(db, a, use).Some? then FirstDangling(db, a, use) else FirstDangling(db, b, use)
    decreases |a|
  {
    if a == [] {
      assert a + b == b;
    } else {
      assert (a + b)[1..] == a[1..] + b;
      FirstDanglingOfConcat(db, a[1..], b, use);
    }
  }

  lemma {:induction false} FirstDanglingByIdOnly(db: Database, earlier: seq<Use>, use: Use, other: Use)
    requires SameId(use, other)
    ensures FirstDangling(db, earlier, use) == FirstDangling(db, earlier, other)
    decreases |earlier|
  {
    if earlier != [] { FirstDanglingByIdOnly(db, earlier[1..], use, other); }
  }

  lemma AgreesIfNamesDo(db: Database, uses: seq<Use>, q: nat)
    requires UniqueIds(db) && NamesAgree(db, uses) && q < |uses|
    ensures AgreesAt(db, uses, q)
  {
    OutcomeAgreesExactlyWhen(db, uses[..q], uses[q]);
    FirstDanglingIs(db, uses[..q], uses[q]);
    var first := FirstDangling(db, uses[..q], uses[q]);
    if !ByName(uses[q].ref) && first.Some? {
      var p :| 0 <= p < q && uses[..q][p] == first.value;
      assert uses[p] == first.value;
    }
  }

  /** A use that dangles is the first of its id to do so, unless an earlier one agrees with it. */
  lemma FirstDanglingBefore(db: Database, uses: seq<Use>, p: nat, q: nat)
    requires p < q < |uses| && Dangling(db, uses[p]) && SameId(uses[p], uses[q])
    ensures FirstDangling(db, uses[..q], uses[q]) ==
            if FirstDangling(db, uses[..p], uses[p]).Some? then FirstDangling(db, uses[..p], uses[p]) else Some(uses[p])
  {
    FirstDanglingByIdOnly(db, uses[..p], uses[p], uses[q]);
    FirstDanglingOfConcat(db, uses[..p], uses[p..q], uses[q]);
    assert uses[..p] + uses[p..q] == uses[..q] && uses[p..q][0] == uses[p];
  }

  lemma NamesAgreeIfUsesDo(db: Database, uses: seq<Use>, p: nat, q: nat)
    requires UniqueIds(db) && p < q < |uses| && AgreesAt(db, uses, p) && AgreesAt(db, uses, q)
    requires Dangling(db, uses[p]) && SameId(uses[p], uses[q])
    ensures uses[p].ref.name == uses[q].ref.name
  {
    OutcomeAgreesExactlyWhen(db, uses[..p], uses[p]);
    OutcomeAgreesExactlyWhen(db, uses[..q], uses[q]);
    FirstDanglingBefore(db, uses, p, q);
  }

  lemma UsesAgreeExactlyWhen(db: Database, uses: seq<Use>)
    requires UniqueIds(db)
    ensures AllAgree(db, uses) <==> NamesAgree(db, uses)
  {
    if NamesAgree(db, uses) {
      forall q | 0 <= q < |uses| { AgreesIfNamesDo(db, uses, q); }
    }
    if AllAgree(db, uses) {
      forall p, q | 0 <= p < q < |uses| && Dangling(db, uses[p]) && SameId(uses[p], uses[q]) {
        NamesAgreeIfUsesDo(db, uses, p, q);
      }
    }
  }

  /** With unique ids, the cached pass gives every enabled node what looking each use up on its own
      gives, and leaves the others alone, if and only if no dangling id is used again under another
      name. */
  lemma CachesAgreeExactlyWhen(db: Database, nodes: seq<Node>)
    requires UniqueIds(db)
    ensures SameNodes(PassNodes(db, [], nodes), ResolveNodes(db, nodes)) <==>
            NamesAgree(db, UsesOf(nodes))
  {
    NodesAgreeExactlyWhen(db, nodes);
    UsesAgreeExactlyWhen(db, UsesOf(nodes));
  }

  /** Nodes that are disabled or have no credentials come out untouched, whatever else happens. */
  lemma DisabledAreUntouched(db: Database, nodes: seq<Node>, i: nat)
    requires i < |nodes| && (nodes[i].disabled || nodes[i].credentials.None?)
    ensures PassNodes(db, [], nodes)[i] == nodes[i]
  {
    PassNodesAt(db, [], nodes, i);
  }

  // ---------------------------------------------------------------- a second pass changes nothing

  lemma PassHead(db: Database, earlier: seq<Use>, use: Use, rest: seq<Use>)
    ensures Pass(db, earlier, [use] + rest)
         == [Use(use.kind, Outcome(db, earlier, use))] + Pass(db, earlier + [use], rest)
  {
    assert ([use] + rest)[1..] == rest;
  }

  lemma {:induction false} PassConcat(db: Database, earlier: seq<Use>, a: seq<Use>, b: seq<Use>)
    ensures Pass(db, earlier, a + b) == Pass(db, earlier, a) + Pass(db, earlier + a, b)
    decreases |a|
  {
    if a == [] {
      assert a + b == b && earlier + a == earlier;
    } else {
      var use, rest := a[0], a[1..];
      assert a == [use] + rest;
      Sequences.Associate([use], rest, b);
      Sequences.Associate(earlier, [use], rest);
      PassHead(db, earlier, use, rest + b);
      PassHead(db, earlier, use, rest);
      PassConcat(db, earlier + [use], rest, b);
      var head := [Use(use.kind, Outcome(db, earlier, use))];
      Sequences.Associate(head, Pass(db, earlier + [use], rest), Pass(db, earlier + a, b));
    }
  }

  lemma {:induction false} UsesAfterPass(db: Database, earlier: seq<Use>, nodes: seq<Node>)
    ensures UsesOf(PassNodes(db, earlier, nodes)) == Pass(db, earlier, UsesOf(nodes))
    decreases |nodes|
  {
    if nodes != [] {
      var own := if Enabled(nodes[0]) then nodes[0].credentials.value else [];
      UsesAfterPass(db, earlier + own, nodes[1..]);
      PassConcat(db, earlier, own, UsesOf(nodes[1..]));
      assert earlier + [] == earlier;
      var out := PassNodes(db, earlier, nodes);
      assert out[1..] == PassNodes(db, earlier + own, nodes[1..]);
    }
  }

  lemma {:induction false} FixedUsesFixNodes(db: Database, earlier: seq<Use>, nodes: seq<Node>)
    requires Pass(db, earlier, UsesOf(nodes)) == UsesOf(nodes)
    ensures PassNodes(db, earlier, nodes) == nodes
    decreases |nodes|
  {
    if nodes != [] {
      var own := if Enabled(nodes[0]) then nodes[0].credentials.value else [];
      var rest := UsesOf(nodes[1..]);
      PassConcat(db, earlier, own, rest);
      assert Pass(db, earlier, own) == (own + rest)[..|own|] == own;
      assert Pass(db, earlier + own, rest) == (own + rest)[|own|..] == rest;
      FixedUsesFixNodes(db, earlier + own, nodes[1..]);
      assert earlier + [] == earlier;
    }
  }

  lemma FoundIsStable(db: Database, earlier: seq<Use>, c: Credential)
    requires UniqueIds(db) && c in db
    ensures Outcome(db, earlier, Use(c.kind, Found(c))) == Found(c)
    ensures !Dangling(db, Use(c.kind, Found(c)))
  {
    TheOneWithThisId(db, c);
  }

  /** An outcome is a credential of the database, or it keeps the style of the use it came from. */
  lemma OutcomeKinds(db: Database, earlier: seq<Use>, use: Use)
    ensures var ref := Outcome(db, earlier, use);
            || (exists c :: c in db && c.kind == use.kind && ref == Found(c))
            || (ByName(use.ref) && ByName(ref) && ref.name == use.ref.name)
            || (!ByName(use.ref) && FirstDangling(db, earlier, use).None? && ref == use.ref && Dangling(db, use))
            || (!ByName(use.ref) && FirstDangling(db, earlier, use).Some?
                && Dangling(db, FirstDangling(db, earlier, use).value)
                && SameId(FirstDangling(db, earlier, use).value, use)
                && ref == FirstDangling(db, earlier, use).value.ref)
  {
    FirstDanglingIs(db, earlier, use);
    if UniqueName(db, use.ref.name, use.kind) {
      assert FindBy(db, use.ref.name, use.kind)[0] in FindBy(db, use.ref.name, use.kind);
    }
  }

  /** The first pass moves no dangling id and invents none. */
  lemma {:induction false} FirstDanglingUnchanged(db: Database, uses: seq<Use>, x: Use)
    requires UniqueIds(db) && !ByName(x.ref)
    ensures FirstDangling(db, Pass(db, [], uses), x) == FirstDangling(db, uses, x)
    decreases |uses|
  {
    if uses != [] {
      var init, last := uses[..|uses| - 1], uses[|uses| - 1];
      assert uses == init + [last];
      FirstDanglingUnchanged(db, init, x);
      FirstDanglingOfAppend(db, init, last, x);
      PassConcat(db, [], init, [last]);
      assert [] + init == init && [last][1..] == [];
      var out := Use(last.kind, Outcome(db, init, last));
      assert Pass(db, init, [last]) == [out];
      FirstDanglingOfAppend(db, Pass(db, [], init), out, x);
      OutcomeKinds(db, init, last);
      if SameId(last, x) { FirstDanglingByIdOnly(db, init, last, x); }
      if c :| c in db && c.kind == last.kind && out.ref == Found(c) {
        FoundIsStable(db, init, c);
      }
    }
  }

  lemma {:induction false} NameSeenWhere(earlier: seq<Use>, kind: Kind, name: Name)
    ensures NameSeen(earlier, kind, name) <==>
            exists j :: 0 <= j < |earlier| && ByName(earlier[j].ref) && earlier[j].kind == kind
                        && earlier[j].ref.name == name
    decreases |earlier|
  {
    if earlier != [] {
      NameSeenWhere(earlier[1..], kind, name);
      if NameSeen(earlier[1..], kind, name) {
        var j :| 0 <= j < |earlier| - 1 && ByName(earlier[1..][j].ref) && earlier[1..][j].kind == kind
              && earlier[1..][j].ref.name == name;
        assert earlier[1..][j] == earlier[j + 1];
      }
      if j :| 0 < j < |earlier| && ByName(earlier[j].ref) && earlier[j].kind == kind && earlier[j].ref.name == name {
        assert earlier[1..][j - 1] == earlier[j];
      }
    }
  }

  /** The pass leaves no old-style use under a name that had none. */
  lemma NoNameAppears(db: Database, uses: seq<Use>, kind: Kind, name: Name)
    requires !NameSeen(uses, kind, name)
    ensures !NameSeen(Pass(db, [], uses), kind, name)
  {
    var out := Pass(db, [], uses);
    NameSeenWhere(out, kind, name);
    NameSeenWhere(uses, kind, name);
    if m :| 0 <= m < |out| && ByName(out[m].ref) && out[m].kind == kind && out[m].ref.name == name {
      PassAt(db, [], uses, m);
      OutcomeKinds(db, Seen([], uses, m), uses[m]);
    }
  }

  lemma {:induction false} OutcomeIsStable(db: Database, uses: seq<Use>, use: Use)
    requires UniqueIds(db)
    ensures var out := Use(use.kind, Outcome(db, uses, use));
            Outcome(db, Pass(db, [], uses), out) == out.ref
  {
    var out := Use(use.kind, Outcome(db, uses, use));
    OutcomeKinds(db, uses, use);
    if c :| c in db && c.kind == use.kind && out.ref == Found(c) {
      FoundIsStable(db, Pass(db, [], uses), c);
    } else if ByName(use.ref) {
      if !NameSeen(uses, use.kind, use.ref.name) { NoNameAppears(db, uses, use.kind, use.ref.name); }
    } else {
      FirstDanglingUnchanged(db, uses, use);
      FirstDanglingByIdOnly(db, Pass(db, [], uses), use, out);
    }
  }

  lemma PassOfPrefix(db: Database, uses: seq<Use>, q: nat)
    requires q <= |uses|
    ensures Pass(db, [], uses)[..q] == Pass(db, [], uses[..q])
  {
    PassConcat(db, [], uses[..q], uses[q..]);
    assert uses[..q] + uses[q..] == uses;
  }

  lemma SecondPassAt(db: Database, uses: seq<Use>, q: nat)
    requires UniqueIds(db) && q < |uses|
    ensures var once := Pass(db, [], uses);
            Pass(db, [], once)[q] == once[q]
  {
    var once := Pass(db, [], uses);
    PassAt(db, [], uses, q);
    PassAt(db, [], once, q);
    assert Seen([], uses, q) == uses[..q] && Seen([], once, q) == once[..q];
    PassOfPrefix(db, uses, q);
    OutcomeIsStable(db, uses[..q], uses[q]);
  }

  lemma SecondPassIsIdentity(db: Database, uses: seq<Use>)
    requires UniqueIds(db)
    ensures Pass(db, [], Pass(db, [], uses)) == Pass(db, [], uses)
  {
    var once := Pass(db, [], uses);
    forall q | 0 <= q < |once| ensures Pass(db, [], once)[q] == once[q] {
      SecondPassAt(db, uses, q);
    }
  }

  /** With unique ids the pass is idempotent, with no hypothesis on names: although the first use of
      an unresolvable reference and the later ones are treated differently, a second pass changes
      nothing, not even the style of a reference. */
  lemma PassIsIdempotent(db: Database, nodes: seq<Node>)
    requires UniqueIds(db)
    ensures PassNodes(db, [], PassNodes(db, [], nodes)) == PassNodes(db, [], nodes)
  {
    UsesAfterPass(db, [], nodes);
    SecondPassIsIdentity(db, UsesOf(nodes));
    FixedUsesFixNodes(db, [], PassNodes(db, [], nodes));
  }
}

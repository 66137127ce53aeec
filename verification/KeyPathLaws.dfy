/** What `getAllKeyPaths` returns, in terms of following a path through the value. */
module KeyPathLaws {
  import opened Wrappers
  import opened KeyPaths

  // ---------------------------------------------------------------- following a path

  function Find(entries: seq<Property>, key: string): (j: nat)
    ensures j <= |entries|
    ensures j < |entries| ==> entries[j].key == key
    ensures forall i :: 0 <= i < j ==> entries[i].key != key
  {
    if entries == [] || entries[0].key == key then 0 else 1 + Find(entries[1..], key)
  }

  function Lookup(v: Json, path: Path): Option<Json>
    decreases |path|
  {
    if path == [] then Some(v)
    else if v.Arr? && path[0].Index? && path[0].i < |v.items| then Lookup(v.items[path[0].i], path[1..])
    else if v.Obj? && path[0].Key? && Find(v.entries, path[0].key) < |v.entries| then
      Lookup(v.entries[Find(v.entries, path[0].key)].value, path[1..])
    else None
  }

  /** The path ends in a property, and its value is a string that passes the filter. */
  predicate Reaches(v: Json, path: Path, filter: string -> bool) {
    && path != [] && path[|path| - 1].Key?
    && var found := Lookup(v, path);
       found.Some? && found.value.Str? && filter(found.value.s)
  }

  /** No object has a key twice. */
  predicate UniqueKeys(v: Json) {
    match v
    case Arr(items) => forall i :: 0 <= i < |items| ==> UniqueKeys(items[i])
    case Obj(entries) =>
      && (forall i :: 0 <= i < |entries| ==> UniqueKeys(entries[i].value))
      && (forall i, j :: 0 <= i < j < |entries| ==> entries[i].key != entries[j].key)
    case _ => true
  }

  /** Not empty, and free of the characters paths are written with. */
  predicate SafeKey(key: string) {
    key != "" && '.' !in key && '[' !in key && ']' !in key
  }

  predicate SafeKeys(v: Json) {
    match v
    case Arr(items) => forall i :: 0 <= i < |items| ==> SafeKeys(items[i])
    case Obj(entries) => forall i :: 0 <= i < |entries| ==> SafeKey(entries[i].key) && SafeKeys(entries[i].value)
    case _ => true
  }

  // ---------------------------------------------------------------- the search, on steps

  function Found(v: Json, prefix: Path, filter: string -> bool): seq<Path>
    decreases v, 0
  {
    match v
    case Arr(items) => FoundItems(items, 0, prefix, filter)
    case Obj(entries) => FoundEntries(entries, 0, prefix, filter)
    case _ => []
  }

  function FoundItems(items: seq<Json>, i: nat, prefix: Path, filter: string -> bool): seq<Path>
    requires i <= |items|
    decreases items, |items| - i
  {
    if i == |items| then []
    else Found(items[i], prefix + [Index(i)], filter) + FoundItems(items, i + 1, prefix, filter)
  }

  function FoundEntry(e: Property, prefix: Path, filter: string -> bool): seq<Path>
    decreases e, 0
  {
    var path := prefix + [Key(e.key)];
    if e.value.Str? && filter(e.value.s) then [path] else Found(e.value, path, filter)
  }

  function FoundEntries(entries: seq<Property>, i: nat, prefix: Path, filter: string -> bool): seq<Path>
    requires i <= |entries|
    decreases entries, |entries| - i
  {
    if i == |entries| then []
    else FoundEntry(entries[i], prefix, filter) + FoundEntries(entries, i + 1, prefix, filter)
  }

  function RenderAll(paths: seq<Path>): (rendered: seq<string>)
    ensures |rendered| == |paths| && forall k :: 0 <= k < |paths| ==> rendered[k] == Render(paths[k])
  {
    seq(|paths|, k requires 0 <= k < |paths| => Render(paths[k]))
  }

  lemma RenderAllConcat(a: seq<Path>, b: seq<Path>)
    ensures RenderAll(a + b) == RenderAll(a) + RenderAll(b)
  {
  }

  lemma RenderExtend(prefix: Path, step: Step)
    ensures Render(prefix + [step]) == Extend(Render(prefix), step)
  {
    assert (prefix + [step])[..|prefix|] == prefix;
  }

  /** The strings pushed are the paths found, written out. */
  lemma {:induction false} CollectIsRendered(v: Json, prefix: Path, filter: string -> bool)
    ensures Collect(v, Render(prefix), filter) == RenderAll(Found(v, prefix, filter))
    decreases v, 0
  {
    match v
    case Arr(items) => ItemsAreRendered(items, 0, prefix, filter);
    case Obj(entries) => EntriesAreRendered(entries, 0, prefix, filter);
    case _ =>
  }

  lemma {:induction false} ItemsAreRendered(items: seq<Json>, i: nat, prefix: Path, filter: string -> bool)
    requires i <= |items|
    ensures CollectItems(items, i, Render(prefix), filter) == RenderAll(FoundItems(items, i, prefix, filter))
    decreases items, |items| - i
  {
    if i < |items| {
      RenderExtend(prefix, Index(i));
      CollectIsRendered(items[i], prefix + [Index(i)], filter);
      ItemsAreRendered(items, i + 1, prefix, filter);
      RenderAllConcat(Found(items[i], prefix + [Index(i)], filter), FoundItems(items, i + 1, prefix, filter));
    }
  }

  lemma {:induction false} EntriesAreRendered(entries: seq<Property>, i: nat, prefix: Path, filter: string -> bool)
    requires i <= |entries|
    ensures CollectEntries(entries, i, Render(prefix), filter) == RenderAll(FoundEntries(entries, i, prefix, filter))
    decreases entries, |entries| - i
  {
    if i < |entries| {
      var e := entries[i];
      RenderExtend(prefix, Key(e.key));
      CollectIsRendered(e.value, prefix + [Key(e.key)], filter);
      assert CollectEntry(e, Render(prefix), filter) == RenderAll(FoundEntry(e, prefix, filter));
      EntriesAreRendered(entries, i + 1, prefix, filter);
      RenderAllConcat(FoundEntry(e, prefix, filter), FoundEntries(entries, i + 1, prefix, filter));
    }
  }

  // ---------------------------------------------------------------- which paths are found

  lemma {:induction false} ItemIsFound(items: seq<Json>, i: nat, prefix: Path, filter: string -> bool, p: Path, j: nat)
    requires i <= j < |items| && p in Found(items[j], prefix + [Index(j)], filter)
    ensures p in FoundItems(items, i, prefix, filter)
    decreases j - i
  {
    if i < j { ItemIsFound(items, i + 1, prefix, filter, p, j); }
  }

  lemma {:induction false} FoundInItem(items: seq<Json>, i: nat, prefix: Path, filter: string -> bool, p: Path)
      returns (j: nat)
    requires i <= |items| && p in FoundItems(items, i, prefix, filter)
    ensures i <= j < |items| && p in Found(items[j], prefix + [Index(j)], filter)
    decreases |items| - i
  {
    if p in Found(items[i], prefix + [Index(i)], filter) {
      j := i;
    } else {
      j := FoundInItem(items, i + 1, prefix, filter, p);
    }
  }

  lemma InItems(items: seq<Json>, i: nat, prefix: Path, filter: string -> bool, p: Path)
    requires i <= |items|
    ensures p in FoundItems(items, i, prefix, filter) <==>
            exists j :: i <= j < |items| && p in Found(items[j], prefix + [Index(j)], filter)
  {
    if p in FoundItems(items, i, prefix, filter) {
      var j := FoundInItem(items, i, prefix, filter, p);
    }
    if j :| i <= j < |items| && p in Found(items[j], prefix + [Index(j)], filter) {
      ItemIsFound(items, i, prefix, filter, p, j);
    }
  }

  lemma {:induction false} EntryIsFound(entries: seq<Property>, i: nat, prefix: Path, filter: string -> bool,
                                        p: Path, j: nat)
    requires i <= j < |entries| && p in FoundEntry(entries[j], prefix, filter)
    ensures p in FoundEntries(entries, i, prefix, filter)
    decreases j - i
  {
    if i < j { EntryIsFound(entries, i + 1, prefix, filter, p, j); }
  }

  lemma {:induction false} FoundInSomeEntry(entries: seq<Property>, i: nat, prefix: Path, filter: string -> bool,
                                            p: Path)
      returns (j: nat)
    requires i <= |entries| && p in FoundEntries(entries, i, prefix, filter)
    ensures i <= j < |entries| && p in FoundEntry(entries[j], prefix, filter)
    decreases |entries| - i
  {
    if p in FoundEntry(entries[i], prefix, filter) {
      j := i;
    } else {
      j := FoundInSomeEntry(entries, i + 1, prefix, filter, p);
    }
  }

  lemma InEntries(entries: seq<Property>, i: nat, prefix: Path, filter: string -> bool, p: Path)
    requires i <= |entries|
    ensures p in FoundEntries(entries, i, prefix, filter) <==>
            exists j :: i <= j < |entries| && p in FoundEntry(entries[j], prefix, filter)
  {
    if p in FoundEntries(entries, i, prefix, filter) {
      var j := FoundInSomeEntry(entries, i, prefix, filter, p);
    }
    if j :| i <= j < |entries| && p in FoundEntry(entries[j], prefix, filter) {
      EntryIsFound(entries, i, prefix, filter, p, j);
    }
  }

  predicate Under(p: Path, prefix: Path) {
    |p| > |prefix| && p[..|prefix|] == prefix
  }

  lemma UnderStep(p: Path, prefix: Path, step: Step)
    requires Under(p, prefix + [step]) || p == prefix + [step]
    ensures Under(p, prefix) && p[|prefix|] == step
  {
    assert p[..|prefix|] == p[..|prefix| + 1][..|prefix|];
    assert p[..|prefix| + 1] == prefix + [step];
    assert p[|prefix|] == p[..|prefix| + 1][|prefix|];
  }

  lemma {:induction false} FoundIsUnder(v: Json, prefix: Path, filter: string -> bool, p: Path)
    requires p in Found(v, prefix, filter)
    ensures Under(p, prefix)
    decreases v
  {
    match v
    case Arr(items) =>
      InItems(items, 0, prefix, filter, p);
      var j :| 0 <= j < |items| && p in Found(items[j], prefix + [Index(j)], filter);
      FoundIsUnder(items[j], prefix + [Index(j)], filter, p);
      UnderStep(p, prefix, Index(j));
    case Obj(entries) =>
      InEntries(entries, 0, prefix, filter, p);
      var j :| 0 <= j < |entries| && p in FoundEntry(entries[j], prefix, filter);
      EntryIsUnder(entries[j], prefix, filter, p);
  }

  lemma {:induction false} EntryIsUnder(e: Property, prefix: Path, filter: string -> bool, p: Path)
    requires p in FoundEntry(e, prefix, filter)
    ensures Under(p, prefix) && p[|prefix|] == Key(e.key)
    decreases e
  {
    if !(e.value.Str? && filter(e.value.s)) { FoundIsUnder(e.value, prefix + [Key(e.key)], filter, p); }
    UnderStep(p, prefix, Key(e.key));
  }

  lemma ReachesInItem(items: seq<Json>, rel: Path, filter: string -> bool)
    ensures Reaches(Arr(items), rel, filter) <==>
            && |rel| > 1 && rel[0].Index? && rel[0].i < |items|
            && Reaches(items[rel[0].i], rel[1..], filter)
  {
    if |rel| > 1 { assert rel[1..][|rel| - 2] == rel[|rel| - 1]; }
  }

  lemma ReachesInEntry(entries: seq<Property>, rel: Path, filter: string -> bool, j: nat)
    requires UniqueKeys(Obj(entries)) && j < |entries|
    requires rel != [] && rel[0] == Key(entries[j].key)
    ensures Reaches(Obj(entries), rel, filter) <==>
            var value := entries[j].value;
            if |rel| == 1 then value.Str? && filter(value.s)
            else Reaches(value, rel[1..], filter)
  {
    assert Find(entries, rel[0].key) == j;
    assert Lookup(Obj(entries), rel) == Lookup(entries[j].value, rel[1..]);
    if |rel| > 1 { assert rel[1..][|rel| - 2] == rel[|rel| - 1]; } else { assert rel[1..] == []; }
  }

  lemma Regroup(prefix: Path, rel: Path)
    requires rel != []
    ensures prefix + rel == (prefix + [rel[0]]) + rel[1..]
  {
  }

  /** A path is found exactly when it reaches an accepted string property. */
  lemma {:induction false} FoundExactly(v: Json, prefix: Path, filter: string -> bool, rel: Path)
    requires UniqueKeys(v)
    ensures prefix + rel in Found(v, prefix, filter) <==> Reaches(v, rel, filter)
    decreases v
  {
    match v
    case Arr(items) => FoundInItems(items, prefix, filter, rel);
    case Obj(entries) => FoundInEntries(entries, prefix, filter, rel);
    case _ => assert rel != [] ==> Lookup(v, rel) == None;
  }

  lemma {:induction false} FoundInItems(items: seq<Json>, prefix: Path, filter: string -> bool, rel: Path)
    requires UniqueKeys(Arr(items))
    ensures prefix + rel in FoundItems(items, 0, prefix, filter) <==> Reaches(Arr(items), rel, filter)
    decreases items
  {
    var p := prefix + rel;
    InItems(items, 0, prefix, filter, p);
    ReachesInItem(items, rel, filter);
    if j :| 0 <= j < |items| && p in Found(items[j], prefix + [Index(j)], filter) {
      FoundIsUnder(items[j], prefix + [Index(j)], filter, p);
      UnderStep(p, prefix, Index(j));
      assert rel[0] == p[|prefix|];
    }
    if |rel| > 1 && rel[0].Index? && rel[0].i < |items| {
      Regroup(prefix, rel);
      FoundExactly(items[rel[0].i], prefix + [rel[0]], filter, rel[1..]);
    }
  }

  lemma {:induction false} FoundInEntries(entries: seq<Property>, prefix: Path, filter: string -> bool, rel: Path)
    requires UniqueKeys(Obj(entries))
    ensures prefix + rel in FoundEntries(entries, 0, prefix, filter) <==> Reaches(Obj(entries), rel, filter)
    decreases entries
  {
    var p := prefix + rel;
    InEntries(entries, 0, prefix, filter, p);
    if j :| 0 <= j < |entries| && p in FoundEntry(entries[j], prefix, filter) {
      EntryIsUnder(entries[j], prefix, filter, p);
      assert rel[0] == p[|prefix|];
      FoundInEntry(entries, j, prefix, filter, rel);
    } else if Reaches(Obj(entries), rel, filter) {
      var j := Find(entries, rel[0].key);
      FoundInEntry(entries, j, prefix, filter, rel);
    }
  }

  lemma {:induction false} FoundInEntry(entries: seq<Property>, j: nat, prefix: Path, filter: string -> bool, rel: Path)
    requires UniqueKeys(Obj(entries)) && j < |entries| && rel != [] && rel[0] == Key(entries[j].key)
    ensures prefix + rel in FoundEntry(entries[j], prefix, filter) <==> Reaches(Obj(entries), rel, filter)
    decreases entries, 0
  {
    var value, path := entries[j].value, prefix + [rel[0]];
    ReachesInEntry(entries, rel, filter, j);
    Regroup(prefix, rel);
    if value.Str? && filter(value.s) {
      assert |rel| > 1 ==> Lookup(value, rel[1..]) == None;
      assert |rel| == 1 ==> rel[1..] == [] && path + [] == path;
    } else {
      FoundExactly(value, path, filter, rel[1..]);
    }
  }

  // ---------------------------------------------------------------- each once

  predicate Distinct<T(==)>(s: seq<T>) {
    forall i, j :: 0 <= i < j < |s| ==> s[i] != s[j]
  }

  lemma DistinctConcat<T>(a: seq<T>, b: seq<T>)
    requires Distinct(a) && Distinct(b) && forall x :: x in a ==> x !in b
    ensures Distinct(a + b)
  {
    forall i, j | 0 <= i < j < |a + b| ensures (a + b)[i] != (a + b)[j] {
      if i < |a| <= j { assert a[i] in a && b[j - |a|] in b; }
    }
  }

  lemma {:induction false} FoundIsDistinct(v: Json, prefix: Path, filter: string -> bool)
    requires UniqueKeys(v)
    ensures Distinct(Found(v, prefix, filter))
    decreases v, 0
  {
    match v
    case Arr(items) => ItemsAreDistinct(items, 0, prefix, filter);
    case Obj(entries) => EntriesAreDistinct(entries, 0, prefix, filter);
    case _ =>
  }

  lemma {:induction false} ItemsAreDistinct(items: seq<Json>, i: nat, prefix: Path, filter: string -> bool)
    requires UniqueKeys(Arr(items)) && i <= |items|
    ensures Distinct(FoundItems(items, i, prefix, filter))
    decreases items, |items| - i
  {
    if i < |items| {
      var here, rest := Found(items[i], prefix + [Index(i)], filter), FoundItems(items, i + 1, prefix, filter);
      FoundIsDistinct(items[i], prefix + [Index(i)], filter);
      ItemsAreDistinct(items, i + 1, prefix, filter);
      forall p | p in here ensures p !in rest {
        FoundIsUnder(items[i], prefix + [Index(i)], filter, p);
        UnderStep(p, prefix, Index(i));
        InItems(items, i + 1, prefix, filter, p);
        if j :| i + 1 <= j < |items| && p in Found(items[j], prefix + [Index(j)], filter) {
          FoundIsUnder(items[j], prefix + [Index(j)], filter, p);
          UnderStep(p, prefix, Index(j));
        }
      }
      DistinctConcat(here, rest);
    }
  }

  lemma {:induction false} EntriesAreDistinct(entries: seq<Property>, i: nat, prefix: Path, filter: string -> bool)
    requires UniqueKeys(Obj(entries)) && i <= |entries|
    ensures Distinct(FoundEntries(entries, i, prefix, filter))
    decreases entries, |entries| - i
  {
    if i < |entries| {
      var here, rest := FoundEntry(entries[i], prefix, filter), FoundEntries(entries, i + 1, prefix, filter);
      FoundIsDistinct(entries[i].value, prefix + [Key(entries[i].key)], filter);
      EntriesAreDistinct(entries, i + 1, prefix, filter);
      forall p | p in here ensures p !in rest {
        EntryIsUnder(entries[i], prefix, filter, p);
        InEntries(entries, i + 1, prefix, filter, p);
        if j :| i + 1 <= j < |entries| && p in FoundEntry(entries[j], prefix, filter) {
          EntryIsUnder(entries[j], prefix, filter, p);
        }
      }
      DistinctConcat(here, rest);
    }
  }

  // ---------------------------------------------------------------- paths can be read back

  predicate SafeStep(step: Step) {
    step.Key? ==> SafeKey(step.key)
  }

  predicate SafePath(p: Path) {
    forall k :: 0 <= k < |p| ==> SafeStep(p[k])
  }

  predicate Special(c: char) {
    c == '.' || c == '[' || c == ']'
  }

  predicate Plain(s: string) {
    forall k :: 0 <= k < |s| ==> !Special(s[k])
  }

  lemma Straddles(a: string, k: string, b: string, l: string)
    requires a + k == b + l && |a| > |b|
    ensures l[|a| - 1 - |b|] == a[|a| - 1]
  {
    assert (b + l)[|a| - 1] == (a + k)[|a| - 1];
  }

  /** A plain last part is determined by the whole, if nothing or a special character precedes it. */
  lemma LastPart(a: string, k: string, b: string, l: string)
    requires a + k == b + l && Plain(k) && Plain(l)
    requires (a == [] || Special(a[|a| - 1])) && (b == [] || Special(b[|b| - 1]))
    ensures a == b && k == l
  {
    if |a| > |b| {
      Straddles(a, k, b, l);
    } else if |b| > |a| {
      Straddles(b, l, a, k);
    } else {
      assert a == (a + k)[..|a|] == b && k == (a + k)[|a|..] == l;
    }
  }

  lemma DigitsArePlain(n: nat)
    ensures Plain(Decimal(n))
  {
    var d := Decimal(n);
    forall k | 0 <= k < |d| ensures !Special(d[k]) { assert d[k] in d; }
  }

  lemma {:induction false} DecimalIsInjective(m: nat, n: nat)
    requires Decimal(m) == Decimal(n)
    ensures m == n
    decreases m
  {
    var d, last := Decimal(m), |Decimal(m)| - 1;
    assert d[last] == "0123456789"[m % 10] == "0123456789"[n % 10];
    assert d[..last] == (if m < 10 then [] else Decimal(m / 10));
    assert d[..last] == (if n < 10 then [] else Decimal(n / 10));
    if m >= 10 && n >= 10 { DecimalIsInjective(m / 10, n / 10); }
  }

  function DigitValue(c: char): nat
    requires c in "0123456789"
  {
    (c - '0') as nat
  }

  function NumberOf(digits: string): nat
    requires forall c :: c in digits ==> c in "0123456789"
  {
    if digits == [] then 0 else 10 * NumberOf(digits[..|digits| - 1]) + DigitValue(digits[|digits| - 1])
  }

  /** The digits are those of the number, without leading zeros. */
  lemma {:induction false} DecimalReads(n: nat)
    ensures NumberOf(Decimal(n)) == n
    ensures Decimal(n)[0] == '0' ==> n == 0
    decreases n
  {
    var digits := Decimal(n);
    assert digits[|digits| - 1] == "0123456789"[n % 10];
    if n < 10 {
      assert digits[..|digits| - 1] == [];
    } else {
      assert digits[..|digits| - 1] == Decimal(n / 10);
      DecimalReads(n / 10);
    }
  }

  lemma SafeKeyIsPlain(key: string)
    requires SafeKey(key)
    ensures Plain(key)
  {
  }

  lemma {:induction false} RenderIsNotEmpty(p: Path)
    requires SafePath(p)
    ensures Render(p) == "" <==> p == []
  {
    if p != [] { assert SafeStep(p[|p| - 1]); }
  }

  /** The text before a key: nothing, or what its object is called and a dot. */
  function BeforeKey(current: string): (before: string)
    ensures before == [] || Special(before[|before| - 1])
  {
    if current == "" then "" else current + "."
  }

  function BeforeIndex(current: string): (before: string)
    ensures before != "" && Special(before[|before| - 1])
  {
    current + "["
  }

  /** The last step of a rendered path and the path before it can be read off the text. */
  lemma ExtendIsInjective(a: string, s: Step, b: string, t: Step)
    requires SafeStep(s) && SafeStep(t) && Extend(a, s) == Extend(b, t)
    ensures s == t && a == b
  {
    if s.Key? && t.Key? {
      SafeKeyIsPlain(s.key);
      SafeKeyIsPlain(t.key);
      assert Extend(a, s) == BeforeKey(a) + s.key && Extend(b, t) == BeforeKey(b) + t.key;
      LastPart(BeforeKey(a), s.key, BeforeKey(b), t.key);
      assert a == (if BeforeKey(a) == "" then "" else BeforeKey(a)[..|BeforeKey(a)| - 1]);
      assert b == (if BeforeKey(b) == "" then "" else BeforeKey(b)[..|BeforeKey(b)| - 1]);
    } else if s.Index? && t.Index? {
      DigitsArePlain(s.i);
      DigitsArePlain(t.i);
      var x, y := BeforeIndex(a) + Decimal(s.i), BeforeIndex(b) + Decimal(t.i);
      assert Extend(a, s) == x + "]" && Extend(b, t) == y + "]";
      assert x == (x + "]")[..|x|] && y == (y + "]")[..|y|];
      LastPart(BeforeIndex(a), Decimal(s.i), BeforeIndex(b), Decimal(t.i));
      DecimalIsInjective(s.i, t.i);
      assert a == BeforeIndex(a)[..|a|] && b == BeforeIndex(b)[..|b|];
    } else {
      LastOfExtend(a, s);
      LastOfExtend(b, t);
    }
  }

  lemma LastOfExtend(current: string, step: Step)
    requires SafeStep(step)
    ensures Extend(current, step) != ""
    ensures Extend(current, step)[|Extend(current, step)| - 1] == ']' <==> step.Index?
  {
    if step.Key? {
      var key, text := step.key, Extend(current, step);
      assert text[|text| - 1] == key[|key| - 1];
      assert key[|key| - 1] in key;
    }
  }

  /** A path from its front: a dot before every key but the first, brackets around every index. */
  function Spelled(p: Path): string {
    if p != [] && p[0].Key? then p[0].key + Further(p[1..]) else Further(p)
  }

  function Further(p: Path): string {
    if p == [] then ""
    else (match p[0] case Key(key) => "." + key case Index(i) => "[" + Decimal(i) + "]") + Further(p[1..])
  }

  lemma {:induction false} FurtherOfAppend(p: Path, step: Step)
    ensures Further(p + [step]) == Further(p) + Further([step])
    decreases |p|
  {
    if p == [] {
      assert [] + [step] == [step];
    } else {
      assert (p + [step])[1..] == p[1..] + [step];
      FurtherOfAppend(p[1..], step);
    }
  }

  lemma StepIsSpelled(p: Path, step: Step)
    requires SafePath(p) && p != []
    ensures Spelled(p + [step]) == Spelled(p) + Further([step])
  {
    assert (p + [step])[1..] == p[1..] + [step] && (p + [step])[0] == p[0];
    FurtherOfAppend(p, step);
    FurtherOfAppend(p[1..], step);
  }

  /** What the search writes step by step, reads from front to back. */
  lemma {:induction false} RenderIsSpelled(p: Path)
    requires SafePath(p)
    ensures Render(p) == Spelled(p)
    decreases |p|
  {
    if p != [] {
      var init, step := p[..|p| - 1], p[|p| - 1];
      assert p == init + [step];
      assert [step][1..] == [];
      assert Further([]) == "";
      if init == [] {
        assert p == [step] && Render(init) == "";
      } else {
        RenderIsSpelled(init);
        RenderIsNotEmpty(init);
        StepIsSpelled(init, step);
      }
    }
  }

  lemma {:induction false} RenderIsInjective(p: Path, q: Path)
    requires SafePath(p) && SafePath(q) && Render(p) == Render(q)
    ensures p == q
    decreases |p|
  {
    RenderIsNotEmpty(p);
    RenderIsNotEmpty(q);
    if p != [] && q != [] {
      var p', q' := p[..|p| - 1], q[..|q| - 1];
      assert SafeStep(p[|p| - 1]) && SafeStep(q[|q| - 1]);
      ExtendIsInjective(Render(p'), p[|p| - 1], Render(q'), q[|q| - 1]);
      RenderIsInjective(p', q');
      assert p == p' + [p[|p| - 1]] && q == q' + [q[|q| - 1]];
    }
  }

  lemma {:induction false} ReachedIsSafe(v: Json, path: Path)
    requires SafeKeys(v) && Lookup(v, path).Some?
    ensures SafePath(path)
    decreases |path|
  {
    if path != [] {
      var inner := if v.Arr? then v.items[path[0].i] else v.entries[Find(v.entries, path[0].key)].value;
      ReachedIsSafe(inner, path[1..]);
      assert SafeStep(path[0]);
      forall k | 0 <= k < |path| ensures SafeStep(path[k]) {
        if k > 0 { assert SafeStep(path[1..][k - 1]); }
      }
    }
  }

  // ---------------------------------------------------------------- the result

  function AllKeyPaths(v: Json, filter: string -> bool): seq<string> {
    Collect(v, "", filter)
  }

  lemma FoundFromTheRoot(v: Json, filter: string -> bool, p: Path)
    requires UniqueKeys(v)
    ensures p in Found(v, [], filter) <==> Reaches(v, p, filter)
  {
    assert [] + p == p;
    FoundExactly(v, [], filter, p);
  }

  /** Whatever the keys look like, a text is returned if and only if it is how the path of an accepted
      string property is written. */
  lemma ReturnsWhatIsReached(v: Json, filter: string -> bool, text: string)
    requires UniqueKeys(v)
    ensures text in AllKeyPaths(v, filter) <==> exists p :: Reaches(v, p, filter) && Render(p) == text
  {
    var found := Found(v, [], filter);
    CollectIsRendered(v, [], filter);
    var texts := RenderAll(found);
    if text in texts {
      var k :| 0 <= k < |texts| && texts[k] == text;
      assert found[k] in found;
      FoundFromTheRoot(v, filter, found[k]);
    }
    if p :| Reaches(v, p, filter) && Render(p) == text {
      FoundFromTheRoot(v, filter, p);
      var k :| 0 <= k < |found| && found[k] == p;
      assert texts[k] == text;
    }
  }

  /** Following a returned text back leads to one property only. */
  ghost predicate Unambiguous(v: Json, filter: string -> bool) {
    forall p, q :: Reaches(v, p, filter) && Reaches(v, q, filter) && Render(p) == Render(q) ==> p == q
  }

  /** No text is returned twice if and only if no two accepted properties are written alike. */
  lemma ReturnsOnceExactlyWhen(v: Json, filter: string -> bool)
    requires UniqueKeys(v)
    ensures Distinct(AllKeyPaths(v, filter)) <==> Unambiguous(v, filter)
  {
    var found := Found(v, [], filter);
    CollectIsRendered(v, [], filter);
    FoundIsDistinct(v, [], filter);
    var texts := RenderAll(found);
    if Unambiguous(v, filter) {
      forall i, j | 0 <= i < j < |texts| ensures texts[i] != texts[j] {
        assert found[i] in found && found[j] in found;
        FoundFromTheRoot(v, filter, found[i]);
        FoundFromTheRoot(v, filter, found[j]);
      }
    }
    if Distinct(texts) {
      forall p, q | Reaches(v, p, filter) && Reaches(v, q, filter) && Render(p) == Render(q) ensures p == q {
        FoundFromTheRoot(v, filter, p);
        FoundFromTheRoot(v, filter, q);
        var i :| 0 <= i < |found| && found[i] == p;
        var j :| 0 <= j < |found| && found[j] == q;
        assert texts[i] == texts[j];
      }
    }
  }

  lemma SafeKeysAreUnambiguous(v: Json, filter: string -> bool)
    requires SafeKeys(v)
    ensures Unambiguous(v, filter)
  {
    forall p, q | Reaches(v, p, filter) && Reaches(v, q, filter) && Render(p) == Render(q) ensures p == q {
      ReachedIsSafe(v, p);
      ReachedIsSafe(v, q);
      RenderIsInjective(p, q);
    }
  }

  /** With safe keys, a text is returned if and only if it is the path of an accepted string property;
      each is returned once, and names that property alone. */
  lemma ReturnsEveryPathOnce(v: Json, filter: string -> bool)
    requires UniqueKeys(v) && SafeKeys(v)
    ensures Distinct(AllKeyPaths(v, filter)) && Unambiguous(v, filter)
    ensures forall text :: text in AllKeyPaths(v, filter) <==> exists p :: Reaches(v, p, filter) && Render(p) == text
  {
    SafeKeysAreUnambiguous(v, filter);
    ReturnsOnceExactlyWhen(v, filter);
    forall text ensures text in AllKeyPaths(v, filter) <==> exists p :: Reaches(v, p, filter) && Render(p) == text {
      ReturnsWhatIsReached(v, filter, text);
    }
  }

  /** A key with a dot reads like a path: two properties, one text, returned twice. */
  lemma DottedKeysCollide(s: string, t: string, filter: string -> bool)
    requires filter(s) && filter(t)
    ensures var v := Obj([Property("a.b", Str(s)), Property("a", Obj([Property("b", Str(t))]))]);
            AllKeyPaths(v, filter) == ["a.b", "a.b"]
  {
    var inner := [Property("b", Str(t))];
    var entries := [Property("a.b", Str(s)), Property("a", Obj(inner))];
    assert Extend("", Key("a")) == "a" && Extend("a", Key("b")) == "a.b";
    assert CollectEntries(inner, 1, "a", filter) == [];
    assert CollectEntries(inner, 0, "a", filter) == ["a.b"];
    assert CollectEntry(entries[0], "", filter) == ["a.b"];
    assert CollectEntry(entries[1], "", filter) == ["a.b"];
    assert CollectEntries(entries, 2, "", filter) == [];
    assert CollectEntries(entries, 1, "", filter) == ["a.b"];
    assert CollectEntries(entries, 0, "", filter) == ["a.b"] + ["a.b"];
    assert AllKeyPaths(Obj(entries), filter) == CollectEntries(entries, 0, "", filter);
  }

  /** A string that is an element of an array is never found; its path is never returned, unless an
      unsafe key makes a property look like it. */
  lemma ElementsAreSkipped(v: Json, filter: string -> bool, p: Path)
    requires UniqueKeys(v) && p != [] && p[|p| - 1].Index?
    ensures p !in Found(v, [], filter)
    ensures Render(p) in AllKeyPaths(v, filter) <==>
            exists q :: q != p && Reaches(v, q, filter) && Render(q) == Render(p)
    ensures SafeKeys(v) && Lookup(v, p).Some? ==> Render(p) !in AllKeyPaths(v, filter)
  {
    FoundFromTheRoot(v, filter, p);
    ReturnsWhatIsReached(v, filter, Render(p));
    if SafeKeys(v) && Lookup(v, p).Some? {
      ReachedIsSafe(v, p);
      if q :| Reaches(v, q, filter) && Render(q) == Render(p) {
        ReachedIsSafe(v, q);
        RenderIsInjective(p, q);
      }
    }
  }
}

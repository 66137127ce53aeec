/**
 `getAllKeyPaths`: the paths of all string properties of a JSON value that pass a filter, written
 like `nodes[0].parameters.url`.
 */
module KeyPaths {
  import opened Wrappers
  import Sequences

  datatype Json =
    | Null
    | Bool(b: bool)
    | Num(n: int)
    | Str(s: string)
    | Arr(items: seq<Json>)
    | Obj(entries: seq<Property>)

  datatype Property = Property(key: string, value: Json)

  datatype Step = Key(key: string) | Index(i: nat)

  type Path = seq<Step>

  // ---------------------------------------------------------------- writing paths

  function Decimal(n: nat): (digits: string)
    ensures digits != [] && forall c :: c in digits ==> c in "0123456789"
  {
    (if n < 10 then [] else Decimal(n / 10)) + ["0123456789"[n % 10]]
  }

  function Extend(current: string, step: Step): string {
    match step
    case Key(key) => if current == "" then key else current + "." + key
    case Index(i) => current + "[" + Decimal(i) + "]"
  }

  function Render(path: Path): string {
    if path == [] then "" else Extend(Render(path[..|path| - 1]), path[|path| - 1])
  }

  // ---------------------------------------------------------------- the search

  /** What one call adds to the list. */
  function Collect(v: Json, current: string, filter: string -> bool): seq<string>
    decreases v, 0
  {
    match v
    case Arr(items) => CollectItems(items, 0, current, filter)
    case Obj(entries) => CollectEntries(entries, 0, current, filter)
    case _ => []
  }

  function CollectItems(items: seq<Json>, i: nat, current: string, filter: string -> bool): seq<string>
    requires i <= |items|
    decreases items, |items| - i
  {
    if i == |items| then []
    else Collect(items[i], Extend(current, Index(i)), filter) + CollectItems(items, i + 1, current, filter)
  }

  function CollectEntry(e: Property, current: string, filter: string -> bool): seq<string>
    decreases e, 0
  {
    var path := Extend(current, Key(e.key));
    if e.value.Str? && filter(e.value.s) then [path] else Collect(e.value, path, filter)
  }

  function CollectEntries(entries: seq<Property>, i: nat, current: string, filter: string -> bool): seq<string>
    requires i <= |entries|
    decreases entries, |entries| - i
  {
    if i == |entries| then []
    else CollectEntry(entries[i], current, filter) + CollectEntries(entries, i + 1, current, filter)
  }

  /** The array that all recursive calls push to. */
  class PathList {
    var paths: seq<string>

    constructor ()
      ensures paths == []
    {
      paths := [];
    }

    method Push(path: string)
      modifies this
      ensures paths == old(paths) + [path]
    {
      paths := paths + [path];
    }
  }

  method GetAllKeyPaths(v: Json, current: string, list: PathList, filter: string -> bool)
    modifies list
    ensures list.paths == old(list.paths) + Collect(v, current, filter)
    decreases v
  {
    match v
    case Arr(items) =>
      var i := 0;
      while i < |items|
        invariant i <= |items|
        invariant list.paths + CollectItems(items, i, current, filter)
               == old(list.paths) + CollectItems(items, 0, current, filter)
      {
        ghost var before := list.paths;
        GetAllKeyPaths(items[i], current + "[" + Decimal(i) + "]", list, filter);
        Sequences.Associate(before, Collect(items[i], Extend(current, Index(i)), filter),
                            CollectItems(items, i + 1, current, filter));
        i := i + 1;
      }
    case Obj(entries) =>
      var i := 0;
      while i < |entries|
        invariant i <= |entries|
        invariant list.paths + CollectEntries(entries, i, current, filter)
               == old(list.paths) + CollectEntries(entries, 0, current, filter)
      {
        ghost var before := list.paths;
        var (key, value) := (entries[i].key, entries[i].value);
        var path := if current != "" then current + "." + key else key;
        if value.Str? && filter(value.s) {
          list.Push(path);
        } else {
          GetAllKeyPaths(value, path, list, filter);
        }
        Sequences.Associate(before, CollectEntry(entries[i], current, filter),
                            CollectEntries(entries, i + 1, current, filter));
        i := i + 1;
      }
    case _ =>
  }
}

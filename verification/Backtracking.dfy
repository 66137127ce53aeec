/**
 Backtracking a paired item through the run data of a finished workflow, from the last node that ran
 to the first.
 */
module Backtracking {
  import opened Wrappers

  type NodeName = string

  /** `INodeExecutionData.pairedItem`: absent, an index, details, or a list of details. */
  datatype PairedItem =
    | Undefined
    | Index(n: int)
    | One(item: Option<int>, input: Option<int>)
    | Many(items: seq<(int, Option<int>)>)

  datatype Item = Item(pairedItem: PairedItem)

  datatype Source = Source(previousNode: NodeName, previousNodeRun: Option<int>)

  /** `source` and `data.main` of a task; an absent array is an empty one. */
  datatype Task = Task(source: seq<Option<Source>>, main: seq<Option<seq<Item>>>)

  type RunData = map<NodeName, seq<Task>>

  datatype Run = Run(lastNodeExecuted: NodeName, runData: RunData)   // "" when undefined

  // ---------------------------------------------------------------- one step

  function At<T>(s: seq<T>, i: int): (x: Option<T>)
    ensures x.Some? <==> 0 <= i < |s|
    ensures x.Some? ==> x.value == s[i]
  {
    if 0 <= i < |s| then Some(s[i]) else None
  }

  /** A run that the source names; one without a run index names the first. */
  predicate NamesRun(runData: RunData, source: Source, run: nat) {
    && source.previousNode != "" && source.previousNode in runData && run < |runData[source.previousNode]|
    && (source.previousNodeRun == Some(run) || (source.previousNodeRun.None? && run == 0))
  }

  /** The task a task got its input from. */
  function PreviousTaskData(runData: RunData, task: Task): (previous: Option<Task>)
    ensures previous.Some? <==>
              && task.source != [] && task.source[0].Some?
              && exists run: nat :: NamesRun(runData, task.source[0].value, run)
    ensures previous.Some? ==> forall run: nat :: NamesRun(runData, task.source[0].value, run) ==>
              previous.value == runData[task.source[0].value.previousNode][run]
  {
    if task.source == [] || task.source[0].None? then None
    else
      var source := task.source[0].value;
      if source.previousNode == "" || source.previousNode !in runData then None
      else
        var run := source.previousNodeRun.UnwrapOr(0);
        assert 0 <= run < |runData[source.previousNode]| ==> NamesRun(runData, source, run);
        At(runData[source.previousNode], run)
  }

  function ItemAt(task: Task, input: int, index: int): Option<Item> {
    if 0 <= input < |task.main| && task.main[input].Some? then At(task.main[input].value, index) else None
  }

  /** Where a reference points; without one, at the item index the search was asked for. */
  function Target(ref: PairedItem, itemIndex: int): (int, int) {
    match ref
    case Index(n) => (0, n)
    case One(item, input) => (input.UnwrapOr(0), item.UnwrapOr(itemIndex))
    case _ => (0, itemIndex)
  }

  function Lookup(task: Task, ref: PairedItem, itemIndex: int): PairedItem {
    var target := Target(ref, itemIndex);
    match ItemAt(task, target.0, target.1)
    case Some(item) => item.pairedItem
    case None => Undefined
  }

  // ---------------------------------------------------------------- the source chain

  /** The `n`th task back along the sources. */
  function Back(runData: RunData, task: Option<Task>, n: nat): Option<Task>
    decreases n
  {
    if n == 0 || task.None? then task else Back(runData, PreviousTaskData(runData, task.value), n - 1)
  }

  /** The source chain of a task ends within `n` tasks. */
  predicate EndsWithin(runData: RunData, task: Option<Task>, n: nat) {
    Back(runData, task, n).None?
  }

  function Chain(runData: RunData, task: Option<Task>, n: nat): (tasks: seq<Task>)
    requires EndsWithin(runData, task, n)
    ensures |tasks| <= n
    ensures task.Some? <==> tasks != []
    ensures tasks != [] ==> tasks[0] == task.value && PreviousTaskData(runData, tasks[|tasks| - 1]).None?
    ensures forall k :: 0 < k < |tasks| ==> PreviousTaskData(runData, tasks[k - 1]) == Some(tasks[k])
    decreases n
  {
    if task.None? then [] else [task.value] + Chain(runData, PreviousTaskData(runData, task.value), n - 1)
  }

  /** Sources only name tasks of smaller rank, such as tasks that ran earlier. */
  ghost predicate Ranked(runData: RunData, rank: Task -> nat) {
    forall task, previous :: PreviousTaskData(runData, task) == Some(previous) ==> rank(previous) < rank(task)
  }

  /** A rank bounds the chain. */
  lemma {:induction false} RankedChainsEnd(runData: RunData, rank: Task -> nat, task: Option<Task>)
    requires Ranked(runData, rank)
    ensures EndsWithin(runData, task, if task.None? then 0 else rank(task.value) + 1)
    decreases if task.None? then 0 else rank(task.value) + 1
  {
    if task.Some? {
      var previous := PreviousTaskData(runData, task.value);
      RankedChainsEnd(runData, rank, previous);
      BackFurther(runData, previous, if previous.None? then 0 else rank(previous.value) + 1, rank(task.value));
    }
  }

  lemma {:induction false} BackFurther(runData: RunData, task: Option<Task>, n: nat, m: nat)
    requires EndsWithin(runData, task, n) && n <= m
    ensures EndsWithin(runData, task, m)
    decreases n
  {
    if task.Some? {
      BackFurther(runData, PreviousTaskData(runData, task.value), n - 1, m - 1);
    }
  }

  // ---------------------------------------------------------------- the search

  /** The lookups composed along a chain. */
  function Trace(tasks: seq<Task>, ref: PairedItem, itemIndex: int): PairedItem {
    if tasks == [] then ref else Trace(tasks[1..], Lookup(tasks[0], ref, itemIndex), itemIndex)
  }

  function StartTask(run: Run): Option<Task> {
    if run.lastNodeExecuted == "" || run.lastNodeExecuted !in run.runData then None
    else
      var tasks := run.runData[run.lastNodeExecuted];
      At(tasks, |tasks| - 1)
  }

  /** The second last task: the reference of the item points there. */
  function FirstSource(run: Run): Option<Task> {
    var task := StartTask(run);
    if task.None? then None else PreviousTaskData(run.runData, task.value)
  }

  method FindPairedItemThroughWorkflowData(run: Run, item: Item, itemIndex: int, ghost n: nat)
      returns (pairedItem: PairedItem)
    requires EndsWithin(run.runData, FirstSource(run), n)
    ensures pairedItem == if StartTask(run).None? then Undefined
                          else Trace(Chain(run.runData, FirstSource(run), n), item.pairedItem, itemIndex)
  {
    if run.lastNodeExecuted == "" || run.lastNodeExecuted !in run.runData { return Undefined; }
    var runs := run.runData[run.lastNodeExecuted];
    var task := At(runs, |runs| - 1);
    if task.None? { return Undefined; }
    var runDataItem := PreviousTaskData(run.runData, task.value);
    pairedItem := item.pairedItem;
    ghost var left := n;
    while runDataItem.Some?
      invariant EndsWithin(run.runData, runDataItem, left)
      invariant Trace(Chain(run.runData, FirstSource(run), n), item.pairedItem, itemIndex)
             == Trace(Chain(run.runData, runDataItem, left), pairedItem, itemIndex)
      decreases left
    {
      var main := runDataItem.value.main;
      var inputIndex, nodeIndex := 0, itemIndex;
      if pairedItem.One? || pairedItem.Many? {
        inputIndex := if pairedItem.One? then pairedItem.input.UnwrapOr(0) else 0;
        nodeIndex := if pairedItem.One? then pairedItem.item.UnwrapOr(itemIndex) else itemIndex;
      } else if pairedItem.Index? {
        nodeIndex := pairedItem.n;
        inputIndex := 0;
      }
      var found := None;
      if 0 <= inputIndex < |main| && main[inputIndex].Some? {
        found := At(main[inputIndex].value, nodeIndex);
      }
      pairedItem := if found.Some? then found.value.pairedItem else Undefined;
      runDataItem := PreviousTaskData(run.runData, runDataItem.value);
      left := left - 1;
    }
  }

  /** It starts with the last run of the node that ran last. */
  lemma StartsWithTheLastRun(run: Run, before: seq<Task>, last: Task)
    requires run.lastNodeExecuted != "" && run.lastNodeExecuted in run.runData
    requires run.runData[run.lastNodeExecuted] == before + [last]
    ensures StartTask(run) == Some(last) && FirstSource(run) == PreviousTaskData(run.runData, last)
  {
    assert (before + [last])[|before|] == last;
  }

  // ---------------------------------------------------------------- what the search means

  /** Searching through a chain is searching through its parts one after the other. */
  lemma {:induction false} TraceComposes(a: seq<Task>, b: seq<Task>, ref: PairedItem, itemIndex: int)
    ensures Trace(a + b, ref, itemIndex) == Trace(b, Trace(a, ref, itemIndex), itemIndex)
    decreases |a|
  {
    if a == [] {
      assert a + b == b;
    } else {
      assert (a + b)[1..] == a[1..] + b;
      TraceComposes(a[1..], b, Lookup(a[0], ref, itemIndex), itemIndex);
    }
  }

  /** Every step finds an item. */
  predicate Complete(tasks: seq<Task>, ref: PairedItem, itemIndex: int) {
    tasks == [] ||
    (&& ItemAt(tasks[0], Target(ref, itemIndex).0, Target(ref, itemIndex).1).Some?
     && Complete(tasks[1..], Lookup(tasks[0], ref, itemIndex), itemIndex))
  }

  /** `items[k]` is the item of `tasks[k]` that the item before it is paired with; at the start, the
      one `ref` names. */
  predicate Linked(tasks: seq<Task>, ref: PairedItem, itemIndex: int, items: seq<Item>, k: nat)
    requires k < |tasks| == |items|
  {
    var target := Target(if k == 0 then ref else items[k - 1].pairedItem, itemIndex);
    ItemAt(tasks[k], target.0, target.1) == Some(items[k])
  }

  predicate Lineage(tasks: seq<Task>, ref: PairedItem, itemIndex: int, items: seq<Item>) {
    |items| == |tasks| && forall k :: 0 <= k < |tasks| ==> Linked(tasks, ref, itemIndex, items, k)
  }

  lemma {:induction false} LineageOf(tasks: seq<Task>, ref: PairedItem, itemIndex: int) returns (items: seq<Item>)
    requires Complete(tasks, ref, itemIndex)
    ensures Lineage(tasks, ref, itemIndex, items)
    decreases |tasks|
  {
    if tasks == [] {
      items := [];
    } else {
      var item := ItemAt(tasks[0], Target(ref, itemIndex).0, Target(ref, itemIndex).1).value;
      var rest := LineageOf(tasks[1..], item.pairedItem, itemIndex);
      items := [item] + rest;
      forall k | 0 <= k < |tasks| ensures Linked(tasks, ref, itemIndex, items, k) {
        if k > 0 { assert Linked(tasks[1..], item.pairedItem, itemIndex, rest, k - 1); }
      }
    }
  }

  /** Where every step finds an item, the result is what the last item of the one lineage from the
      given item is paired with. */
  lemma {:induction false} TraceFollowsTheLineage(tasks: seq<Task>, ref: PairedItem, itemIndex: int, items: seq<Item>)
    requires Lineage(tasks, ref, itemIndex, items)
    ensures Complete(tasks, ref, itemIndex)
    ensures Trace(tasks, ref, itemIndex) == if tasks == [] then ref else items[|items| - 1].pairedItem
    decreases |tasks|
  {
    if tasks != [] {
      assert Linked(tasks, ref, itemIndex, items, 0);
      forall k | 0 <= k < |tasks| - 1 ensures Linked(tasks[1..], items[0].pairedItem, itemIndex, items[1..], k) {
        assert Linked(tasks, ref, itemIndex, items, k + 1);
      }
      TraceFollowsTheLineage(tasks[1..], items[0].pairedItem, itemIndex, items[1..]);
    }
  }

  /** How many tasks have been passed when the last step that found no item is over. */
  function AfterLastMiss(tasks: seq<Task>, ref: PairedItem, itemIndex: int): (j: nat)
    ensures j <= |tasks|
  {
    if tasks == [] then 0
    else
      var target := Target(ref, itemIndex);
      var rest := AfterLastMiss(tasks[1..], Lookup(tasks[0], ref, itemIndex), itemIndex);
      if rest > 0 || ItemAt(tasks[0], target.0, target.1).None? then 1 + rest else 0
  }

  lemma UndefinedIsTheItemIndex(tasks: seq<Task>, itemIndex: int)
    requires tasks != []
    ensures Trace(tasks, Undefined, itemIndex) == Trace(tasks, Index(itemIndex), itemIndex)
    ensures Complete(tasks, Undefined, itemIndex) <==> Complete(tasks, Index(itemIndex), itemIndex)
  {
  }

  /** A step that finds no item does not end the search: it goes on from the item with the requested
      index in the next task, and all that came before is forgotten. */
  lemma {:induction false} RestartsAfterTheLastMiss(tasks: seq<Task>, ref: PairedItem, itemIndex: int)
    ensures var j := AfterLastMiss(tasks, ref, itemIndex);
            if j == 0 then Complete(tasks, ref, itemIndex)
            else if j == |tasks| then Trace(tasks, ref, itemIndex) == Undefined
            else
              && Complete(tasks[j..], Index(itemIndex), itemIndex)
              && Trace(tasks, ref, itemIndex) == Trace(tasks[j..], Index(itemIndex), itemIndex)
    decreases |tasks|
  {
    if tasks != [] {
      var next := Lookup(tasks[0], ref, itemIndex);
      RestartsAfterTheLastMiss(tasks[1..], next, itemIndex);
      var rest := AfterLastMiss(tasks[1..], next, itemIndex);
      assert tasks[1..][rest..] == tasks[rest + 1..];
      if rest == 0 && |tasks| > 1 && ItemAt(tasks[0], Target(ref, itemIndex).0, Target(ref, itemIndex).1).None? {
        UndefinedIsTheItemIndex(tasks[1..], itemIndex);
      }
    }
  }

  lemma {:induction false} NoMissExactlyWhenComplete(tasks: seq<Task>, ref: PairedItem, itemIndex: int)
    ensures AfterLastMiss(tasks, ref, itemIndex) == 0 <==> Complete(tasks, ref, itemIndex)
    decreases |tasks|
  {
    if tasks != [] {
      NoMissExactlyWhenComplete(tasks[1..], Lookup(tasks[0], ref, itemIndex), itemIndex);
    }
  }

  lemma LastOfTail(tasks: seq<Task>, j: nat)
    requires j < |tasks|
    ensures |tasks[j..]| == |tasks| - j && tasks[j..][|tasks| - j - 1] == tasks[|tasks| - 1]
  {
  }

  /** "If we cannot backtrack correctly, we return undefined": so it is if and only if no step misses
      its item, or the last one does, or the lineage from the requested index in the task after the
      last miss ends in an item without a pairing. That lineage exists (`LineageOf`). */
  lemma UndefinedWhenBrokenExactlyWhen(tasks: seq<Task>, ref: PairedItem, itemIndex: int, items: seq<Item>)
    requires var j := AfterLastMiss(tasks, ref, itemIndex);
             0 < j < |tasks| ==> Lineage(tasks[j..], Index(itemIndex), itemIndex, items)
    ensures (Complete(tasks, ref, itemIndex) || Trace(tasks, ref, itemIndex) == Undefined) <==>
            var j := AfterLastMiss(tasks, ref, itemIndex);
            j == 0 || j == |tasks| || items[|items| - 1].pairedItem == Undefined
  {
    RestartsAfterTheLastMiss(tasks, ref, itemIndex);
    NoMissExactlyWhenComplete(tasks, ref, itemIndex);
    var j := AfterLastMiss(tasks, ref, itemIndex);
    if 0 < j < |tasks| {
      TraceFollowsTheLineage(tasks[j..], Index(itemIndex), itemIndex, items);
    }
  }

  /** Every item of the task is paired with something. */
  predicate Paired(task: Task) {
    forall input, k :: 0 <= input < |task.main| && task.main[input].Some? && 0 <= k < |task.main[input].value| ==>
      task.main[input].value[k].pairedItem != Undefined
  }

  /** Where the items of the first task of the run are paired, the promise holds if
      and only if no step misses its item or the last one does. */
  lemma UndefinedWhenPairedExactlyWhen(tasks: seq<Task>, ref: PairedItem, itemIndex: int)
    requires tasks != [] && Paired(tasks[|tasks| - 1])
    ensures (Complete(tasks, ref, itemIndex) || Trace(tasks, ref, itemIndex) == Undefined) <==>
            AfterLastMiss(tasks, ref, itemIndex) in {0, |tasks|}
  {
    var j := AfterLastMiss(tasks, ref, itemIndex);
    var items := [];
    if 0 < j < |tasks| {
      RestartsAfterTheLastMiss(tasks, ref, itemIndex);
      items := LineageOf(tasks[j..], Index(itemIndex), itemIndex);
      LastOfTail(tasks, j);
      assert Linked(tasks[j..], Index(itemIndex), itemIndex, items, |items| - 1);
    }
    UndefinedWhenBrokenExactlyWhen(tasks, ref, itemIndex, items);
  }

  // A run of three nodes, each the source of the next.

  function NodeTask(source: NodeName, pairing: int): Task {
    Task(if source == "" then [] else [Some(Source(source, None))], [Some([Item(Index(pairing))])])
  }

  function ThreeNodes(origin: int): Run {
    Run("Last", map["First" := [NodeTask("", origin)],
                    "Second" := [NodeTask("First", 0)],
                    "Last" := [NodeTask("Second", 0)]])
  }

  lemma ThreeNodesChain(origin: int)
    ensures var run := ThreeNodes(origin);
            && StartTask(run).Some?
            && EndsWithin(run.runData, FirstSource(run), 2)
            && Chain(run.runData, FirstSource(run), 2) == [NodeTask("First", 0), NodeTask("", origin)]
  {
    var data := ThreeNodes(origin).runData;
    var second, first := NodeTask("First", 0), NodeTask("", origin);
    assert PreviousTaskData(data, NodeTask("Second", 0)) == Some(second);
    assert PreviousTaskData(data, second) == Some(first);
    assert PreviousTaskData(data, first) == None;
    assert Back(data, None, 0) == None && Chain(data, None, 0) == [];
    assert Back(data, Some(first), 1) == None && Chain(data, Some(first), 1) == [first];
    assert Back(data, Some(second), 2) == None && Chain(data, Some(second), 2) == [second] + [first];
  }

  /** The item asked for names item `n` of the second node, which does not exist; the search answers
      with the pairing of the first node's item 0, which has nothing to do with it. */
  lemma BrokenLinkIsMasked(n: int, origin: int)
    requires n != 0
    ensures var run := ThreeNodes(origin);
            && StartTask(run).Some? && EndsWithin(run.runData, FirstSource(run), 2)
            && FirstSource(run).Some? && ItemAt(FirstSource(run).value, 0, n) == None
            && Trace(Chain(run.runData, FirstSource(run), 2), Index(n), 0) == Index(origin)
  {
    ThreeNodesChain(origin);
    var second, first := NodeTask("First", 0), NodeTask("", origin);
    assert [second, first][1..] == [first] && [first][1..] == [];
    assert Lookup(second, Index(n), 0) == Undefined;
    assert first.main[0].value[0] == Item(Index(origin));
    assert Lookup(first, Undefined, 0) == Index(origin);
    assert Trace([], Index(origin), 0) == Index(origin);
    assert Trace([first], Undefined, 0) == Index(origin);
  }

  // ---------------------------------------------------------------- items that name items

  /** For each output and each of its items, the input and the item that it was made from. */
  type Origins = seq<seq<(nat, nat)>>

  predicate Names(ref: PairedItem, at: (nat, nat)) {
    || (ref == Index(at.1) && at.0 == 0)
    || (ref.One? && ref.item == Some(at.1) && ref.input.UnwrapOr(0) == at.0)
  }

  predicate Within(at: (nat, nat), origins: Origins) {
    at.0 < |origins| && at.1 < |origins[at.0]|
  }

  predicate Wired(task: Task, origins: Origins) {
    && |task.main| == |origins|
    && forall o, k :: 0 <= o < |origins| && 0 <= k < |origins[o]| ==>
         && task.main[o].Some? && k < |task.main[o].value|
         && Names(task.main[o].value[k].pairedItem, origins[o][k])
  }

  /** Each task's items name items of the task before it in time, which comes next in the chain. */
  predicate Connected(all: seq<Origins>) {
    forall j, o, k :: 0 <= j < |all| - 1 && 0 <= o < |all[j]| && 0 <= k < |all[j][o]| ==>
      Within(all[j][o][k], all[j + 1])
  }

  function Composed(all: seq<Origins>, at: (nat, nat)): (nat, nat)
    requires Connected(all) && (all != [] ==> Within(at, all[0]))
  {
    if all == [] then at
    else
      assert forall j, o, k :: 0 <= j < |all| - 2 && 0 <= o < |all[1..][j]| && 0 <= k < |all[1..][j][o]| ==>
          all[1..][j][o][k] == all[j + 1][o][k];
      Composed(all[1..], all[0][at.0][at.1])
  }

  /** Through any number of nodes with any number of inputs and outputs, the result is the composition of
      what the items name, whatever the item index. */
  lemma {:induction false} NamedTracesCompose(tasks: seq<Task>, all: seq<Origins>, ref: PairedItem, at: (nat, nat),
                                              itemIndex: int)
    requires |all| == |tasks| && Connected(all) && forall j :: 0 <= j < |tasks| ==> Wired(tasks[j], all[j])
    requires Names(ref, at) && (all != [] ==> Within(at, all[0]))
    ensures Names(Trace(tasks, ref, itemIndex), Composed(all, at))
    decreases |tasks|
  {
    if tasks != [] {
      assert Wired(tasks[0], all[0]);
      var next := Lookup(tasks[0], ref, itemIndex);
      assert Names(next, all[0][at.0][at.1]);
      forall j | 0 <= j < |tasks| - 1 ensures Wired(tasks[1..][j], all[1..][j]) {
        assert Wired(tasks[j + 1], all[j + 1]);
      }
      NamedTracesCompose(tasks[1..], all[1..], next, all[0][at.0][at.1], itemIndex);
    }
  }

  /** A reference without an item is one to the item asked for, of the input it names, if any. */
  lemma MissingPartsDefault(task: Task, item: Option<int>, input: Option<int>, items: seq<(int, Option<int>)>, n: int)
    ensures Lookup(task, One(None, input), n) == Lookup(task, One(Some(n), input), n)
    ensures Lookup(task, One(item, None), n) == Lookup(task, One(item, Some(0)), n)
    ensures Lookup(task, Undefined, n) == Lookup(task, Many(items), n) == Lookup(task, Index(n), n)
    ensures Lookup(task, Index(n), n) == Lookup(task, One(Some(n), Some(0)), n)
  {
  }
}

/**
 Writers and the truncation loop running concurrently. Each step is one critical section of the
 program: finding or creating a storage, inserting into a storage, visiting a storage while the heap is
 built, and removing a storage's oldest envelope. A writer keeps its storage between its two steps, even
 if the truncation has meanwhile emptied that storage and taken it out of the index.
 */
module Interleaving {
  import opened Envelopes
  import opened StoreModel

  /** A storage as allocated; storages are never freed, so they are named by their allocation order. */
  datatype Cell = Cell(sourceId: SourceId, entries: map<int, Envelope>)

  /** What a writer holds between its two critical sections. */
  datatype Pending = Pending(cell: nat, e: Envelope)

  datatype Item = Item(timestamp: int, sourceId: SourceId, cell: nat)

  datatype Truncator =
    | Waiting
    | Building(quota: nat, start: set<SourceId>, visited: set<SourceId>, heap: seq<Item>)
    | Pruning(left: nat, heap: seq<Item>)
    | Crashed

  datatype World = World(
    cells: seq<Cell>,
    index: map<SourceId, nat>,
    writers: map<nat, Pending>,
    count: int,
    overwritten: nat,
    truncator: Truncator)

  const START := World([], map[], map[], 0, 0, Waiting)

  datatype Action =
    | Begin(writer: nat, id: SourceId, e: Envelope)
    | Insert(writer: nat)
    | StartTruncation(quantity: nat)
    | Visit(id: SourceId)
    | FinishBuild
    | Prune(pick: nat)
    | Finish

  ghost predicate IsMinimal(heap: seq<Item>, i: nat) {
    i < |heap| && forall j :: 0 <= j < |heap| ==> heap[i].timestamp <= heap[j].timestamp
  }

  /** Only these actions can happen in a world. Pruning an empty heap is enabled: it is the crash. */
  ghost predicate Enabled(w: World, a: Action) {
    match a
    case Begin(writer, _, _) => writer !in w.writers
    case Insert(writer) => writer in w.writers && w.writers[writer].cell < |w.cells|
    case StartTruncation(q) => w.truncator.Waiting? && q > 0 && w.count >= 0
    case Visit(id) =>
      w.truncator.Building? && id in w.index && id !in w.truncator.visited && w.index[id] < |w.cells|
    case FinishBuild => w.truncator.Building? && w.truncator.start <= w.truncator.visited
    case Prune(i) =>
      && w.truncator.Pruning? && w.truncator.left > 0
      && (w.truncator.heap == [] || (IsMinimal(w.truncator.heap, i) && w.truncator.heap[i].cell < |w.cells|))
    case Finish => w.truncator.Pruning? && w.truncator.left == 0
  }

  function WithoutItem(heap: seq<Item>, i: nat): seq<Item>
    requires i < |heap|
  {
    heap[..i] + heap[i + 1..]
  }

  /** `insertOrSwap` on the writer's cell. */
  ghost function AfterInsert(w: World, p: Pending, max: nat): World
    requires 1 <= max && p.cell < |w.cells|
  {
    var s := Source(w.cells[p.cell].entries, 0, 0, 0);
    var m := Room(s, max);
    w.(
      cells := w.cells[p.cell := Cell(w.cells[p.cell].sourceId, m[KeyFor(m, p.e.timestamp) := p.e])],
      count := if Full(s, max) then w.count else w.count + 1,
      overwritten := if Overwrites(s, p.e, max) then w.overwritten + 1 else w.overwritten)
  }

  /** `heap.Pop`, `removeOldestEnvelope` and, if the source survives, `heap.Push`. */
  ghost function AfterPrune(w: World, i: nat): World
    requires w.truncator.Pruning? && w.truncator.left > 0
    requires w.truncator.heap != [] ==> i < |w.truncator.heap| && w.truncator.heap[i].cell < |w.cells|
  {
    if w.truncator.heap == [] then w.(truncator := Crashed) else
    var x := w.truncator.heap[i];
    var rest := WithoutItem(w.truncator.heap, i);
    var cell := w.cells[x.cell];
    if cell.entries == map[] then w.(truncator := Pruning(w.truncator.left - 1, rest)) else
    var m := cell.entries - {LeastKey(cell.entries)};
    var cells := w.cells[x.cell := Cell(cell.sourceId, m)];
    if m == map[] then
      w.(cells := cells, count := w.count - 1, index := w.index - {x.sourceId},
         truncator := Pruning(w.truncator.left - 1, rest))
    else
      w.(cells := cells, count := w.count - 1,
         truncator := Pruning(w.truncator.left - 1, rest + [Item(LeastKey(m), x.sourceId, x.cell)]))
  }

  ghost function Step(w: World, a: Action, max: nat): World
    requires 1 <= max && Enabled(w, a)
  {
    match a
    case Begin(writer, id, e) =>
      if id in w.index then w.(writers := w.writers[writer := Pending(w.index[id], e)])
      else w.(cells := w.cells + [Cell(id, map[])], index := w.index[id := |w.cells|],
              writers := w.writers[writer := Pending(|w.cells|, e)])
    case Insert(writer) =>
      AfterInsert(w, w.writers[writer], max).(writers := w.writers - {writer})
    case StartTruncation(q) =>
      w.(truncator := Building(Min(q, w.count), w.index.Keys, {}, []))
    case Visit(id) =>
      var cell := w.cells[w.index[id]];
      if cell.entries == map[] then w.(truncator := Crashed)
      else w.(truncator := w.truncator.(visited := w.truncator.visited + {id},
                                        heap := w.truncator.heap + [Item(LeastKey(cell.entries), id, w.index[id])]))
    case FinishBuild => w.(truncator := Pruning(w.truncator.quota, w.truncator.heap))
    case Prune(i) => AfterPrune(w, i)
    case Finish => w.(truncator := Waiting)
  }

  // ---------- the invariant ----------

  ghost function Held(cells: seq<Cell>): nat {
    if cells == [] then 0 else Held(cells[..|cells| - 1]) + |cells[|cells| - 1].entries|
  }

  lemma {:induction false} HeldUpdate(cells: seq<Cell>, i: nat, c: Cell)
    requires i < |cells|
    ensures Held(cells[i := c]) == Held(cells) - |cells[i].entries| + |c.entries|
  {
    var n := |cells| - 1;
    if i == n {
      assert cells[i := c][..n] == cells[..n];
    } else {
      assert cells[i := c][..n] == cells[..n][i := c];
      HeldUpdate(cells[..n], i, c);
    }
  }

  lemma HeldAppend(cells: seq<Cell>, c: Cell)
    ensures Held(cells + [c]) == Held(cells) + |c.entries|
  {
    assert (cells + [c])[..|cells|] == cells;
  }

  /** The count is what all storages ever created hold, in the index or not, plus what was overwritten. */
  ghost predicate Counted(w: World) {
    w.count == Held(w.cells) + w.overwritten
  }

  /** The index maps each source to a storage made for it. */
  ghost predicate Indexed(w: World) {
    forall id :: id in w.index ==> w.index[id] < |w.cells| && w.cells[w.index[id]].sourceId == id
  }

  ghost predicate WritersHoldCells(w: World) {
    forall p :: p in w.writers ==> w.writers[p].cell < |w.cells|
  }

  ghost predicate Bounded(w: World, max: nat) {
    forall i :: 0 <= i < |w.cells| ==> |w.cells[i].entries| <= max
  }

  ghost function HeapOf(t: Truncator): seq<Item> {
    match t
    case Building(_, _, _, heap) => heap
    case Pruning(_, heap) => heap
    case _ => []
  }

  ghost predicate IsIndexed(w: World, x: Item) {
    && x.sourceId in w.index && w.index[x.sourceId] == x.cell
    && x.cell < |w.cells| && w.cells[x.cell].entries != map[]
  }

  /** Every tree on the heap is non-empty and is the one the index maps its source to. */
  ghost predicate HeapIsIndexed(w: World, heap: seq<Item>) {
    forall i :: 0 <= i < |heap| ==> IsIndexed(w, heap[i])
  }

  ghost predicate HeapIsDistinct(heap: seq<Item>) {
    forall i, j :: 0 <= i < j < |heap| ==> heap[i].sourceId != heap[j].sourceId
  }

  /** While the heap is built only visited sources are on it. */
  ghost predicate HeapIsVisited(t: Truncator) {
    t.Building? ==> forall i :: 0 <= i < |t.heap| ==> t.heap[i].sourceId in t.visited
  }

  /** No source is on the heap twice, and its tree there is the indexed one. */
  ghost predicate HeapIsSound(w: World) {
    && HeapIsIndexed(w, HeapOf(w.truncator))
    && HeapIsDistinct(HeapOf(w.truncator))
    && HeapIsVisited(w.truncator)
  }

  /** An indexed storage is empty only while a writer is on its way to fill it. */
  ghost predicate EmptyIsPending(w: World) {
    forall id :: id in w.index && w.index[id] < |w.cells| && w.cells[w.index[id]].entries == map[] ==>
      exists p :: p in w.writers && w.writers[p].cell == w.index[id]
  }

  ghost predicate Invariant(w: World, max: nat) {
    && Counted(w) && Indexed(w) && WritersHoldCells(w) && Bounded(w, max)
    && HeapIsSound(w) && EmptyIsPending(w)
  }

  lemma BeginKeeps(w: World, writer: nat, id: SourceId, e: Envelope, max: nat)
    requires 1 <= max && Invariant(w, max) && Enabled(w, Begin(writer, id, e))
    ensures Invariant(Step(w, Begin(writer, id, e), max), max)
  {
    var v := Step(w, Begin(writer, id, e), max);
    if id in w.index {
      assert v.cells == w.cells && v.index == w.index;
      PendingGrows(w, v, writer);
    } else {
      HeldAppend(w.cells, Cell(id, map[]));
      CreatedKeeps(w, v, writer, id, e, max);
    }
  }

  lemma CreatedKeeps(w: World, v: World, writer: nat, id: SourceId, e: Envelope, max: nat)
    requires Indexed(w) && WritersHoldCells(w) && Bounded(w, max) && HeapIsSound(w) && EmptyIsPending(w)
    requires id !in w.index && writer !in w.writers && v.truncator == w.truncator
    requires v.cells == w.cells + [Cell(id, map[])] && v.index == w.index[id := |w.cells|]
    requires v.writers == w.writers[writer := Pending(|w.cells|, e)]
    ensures Indexed(v) && WritersHoldCells(v) && Bounded(v, max) && HeapIsSound(v) && EmptyIsPending(v)
  {
    assert forall i :: 0 <= i < |w.cells| ==> v.cells[i] == w.cells[i];
    assert forall x :: IsIndexed(w, x) ==> IsIndexed(v, x);
    CreatedIsPending(w, v, writer, id, e);
  }

  lemma CreatedIsPending(w: World, v: World, writer: nat, id: SourceId, e: Envelope)
    requires Indexed(w) && EmptyIsPending(w) && id !in w.index && writer !in w.writers
    requires v.cells == w.cells + [Cell(id, map[])] && v.index == w.index[id := |w.cells|]
    requires v.writers == w.writers[writer := Pending(|w.cells|, e)]
    ensures EmptyIsPending(v)
  {
    forall j | j in v.index && v.cells[v.index[j]].entries == map[]
      ensures exists p :: p in v.writers && v.writers[p].cell == v.index[j]
    {
      if j == id {
        assert v.writers[writer].cell == v.index[j];
      } else {
        var p :| p in w.writers && w.writers[p].cell == w.index[j];
        assert p in v.writers && v.writers[p].cell == v.index[j];
      }
    }
  }

  lemma PendingGrows(w: World, v: World, writer: nat)
    requires EmptyIsPending(w) && v.cells == w.cells && v.index == w.index
    requires writer !in w.writers && writer in v.writers && v.writers == w.writers[writer := v.writers[writer]]
    ensures EmptyIsPending(v)
  {
    forall j | j in v.index && v.index[j] < |v.cells| && v.cells[v.index[j]].entries == map[]
      ensures exists p :: p in v.writers && v.writers[p].cell == v.index[j]
    {
      var p :| p in w.writers && w.writers[p].cell == w.index[j];
      assert p in v.writers && v.writers[p].cell == v.index[j];
    }
  }

  /** What an insert does to the one cell it touches. */
  lemma InsertCell(w: World, p: Pending, max: nat)
    requires 1 <= max && p.cell < |w.cells| && |w.cells[p.cell].entries| <= max
    ensures var v := AfterInsert(w, p, max);
      && v.cells == w.cells[p.cell := v.cells[p.cell]]
      && v.cells[p.cell].sourceId == w.cells[p.cell].sourceId
      && v.cells[p.cell].entries != map[] && |v.cells[p.cell].entries| <= max
      && v.count - v.overwritten == w.count - w.overwritten + |v.cells[p.cell].entries| - |w.cells[p.cell].entries|
      && v.index == w.index && v.truncator == w.truncator
  {
    var s := Source(w.cells[p.cell].entries, 0, 0, 0);
    InsertSize(s, p.e, max);
    RoomSize(s, max);
    var m := Room(s, max);
    assert KeyFor(m, p.e.timestamp) in m[KeyFor(m, p.e.timestamp) := p.e];
    assert AfterInsert(w, p, max).cells[p.cell].entries == StoreModel.Insert(s, p.e, max).entries;
  }

  lemma InsertKeeps(w: World, writer: nat, max: nat)
    requires 1 <= max && Invariant(w, max) && Enabled(w, Insert(writer))
    ensures Invariant(Step(w, Insert(writer), max), max)
  {
    hide AfterInsert, Room, Overwrites, Full;
    var p := w.writers[writer];
    var v := Step(w, Insert(writer), max);
    InsertCell(w, p, max);
    HeldUpdate(w.cells, p.cell, v.cells[p.cell]);
    CellFilled(w, v, writer, p.cell);
  }

  lemma CellFilled(w: World, v: World, writer: nat, c: nat)
    requires EmptyIsPending(w) && HeapIsSound(w) && Indexed(w) && WritersHoldCells(w)
    requires c < |w.cells| == |v.cells| && v.cells == w.cells[c := v.cells[c]]
    requires v.cells[c].sourceId == w.cells[c].sourceId && v.cells[c].entries != map[]
    requires v.index == w.index && v.truncator == w.truncator
    requires writer in w.writers && w.writers[writer].cell == c && v.writers == w.writers - {writer}
    ensures EmptyIsPending(v) && HeapIsSound(v) && Indexed(v) && WritersHoldCells(v)
  {
    forall j | j in v.index && v.index[j] < |v.cells| && v.cells[v.index[j]].entries == map[]
      ensures exists p :: p in v.writers && v.writers[p].cell == v.index[j]
    {
      var p :| p in w.writers && w.writers[p].cell == w.index[j];
      assert p in v.writers && v.writers[p].cell == v.index[j];
    }
  }

  lemma VisitKeeps(w: World, id: SourceId, max: nat)
    requires 1 <= max && Invariant(w, max) && Enabled(w, Visit(id))
    ensures Invariant(Step(w, Visit(id), max), max)
  {
    var v, cell := Step(w, Visit(id), max), w.cells[w.index[id]];
    hide Counted, WritersHoldCells, Bounded, EmptyIsPending, HeapIsSound, Held;
    SameCells(w, v, max);
    if cell.entries != map[] {
      VisitedHeapIsSound(w, v, Item(LeastKey(cell.entries), id, w.index[id]));
    } else {
      CrashedHeapIsSound(v);
    }
  }

  lemma SameCells(w: World, v: World, max: nat)
    requires v == w.(truncator := v.truncator)
    ensures Counted(w) ==> Counted(v)
    ensures WritersHoldCells(w) ==> WritersHoldCells(v)
    ensures Bounded(w, max) ==> Bounded(v, max)
    ensures EmptyIsPending(w) ==> EmptyIsPending(v)
  {
  }

  lemma CrashedHeapIsSound(v: World)
    requires v.truncator.Crashed?
    ensures HeapIsSound(v)
  {
  }

  lemma VisitedHeapIsSound(w: World, v: World, x: Item)
    requires HeapIsSound(w) && w.truncator.Building? && IsIndexed(w, x) && x.sourceId !in w.truncator.visited
    requires v == w.(truncator := w.truncator.(visited := w.truncator.visited + {x.sourceId}, heap := w.truncator.heap + [x]))
    ensures HeapIsSound(v)
  {
    assert HeapOf(w.truncator) == w.truncator.heap;
    HeapGrows(w.truncator.heap, x);
    assert HeapIsIndexed(v, w.truncator.heap);
  }

  lemma HeapGrows(heap: seq<Item>, x: Item)
    requires HeapIsDistinct(heap) && forall i :: 0 <= i < |heap| ==> heap[i].sourceId != x.sourceId
    ensures HeapIsDistinct(heap + [x])
  {
  }

  lemma WithoutKeeps(heap: seq<Item>, i: nat)
    requires i < |heap| && HeapIsDistinct(heap)
    ensures var rest := WithoutItem(heap, i);
      && (forall k :: 0 <= k < |rest| ==> rest[k] in heap && rest[k].sourceId != heap[i].sourceId)
      && HeapIsDistinct(rest)
  {
    var rest := WithoutItem(heap, i);
    assert forall k :: 0 <= k < |rest| ==> rest[k] == heap[if k < i then k else k + 1];
  }

  /** Removing the oldest envelope of the cell of `x` and, if it ran empty, its index entry. */
  ghost predicate Removed(w: World, v: World, x: Item) {
    && x.cell < |w.cells| && w.cells[x.cell].entries != map[]
    && v.writers == w.writers && v.overwritten == w.overwritten && v.count == w.count - 1
    && |v.cells| == |w.cells|
    && v.cells == w.cells[x.cell := Cell(w.cells[x.cell].sourceId, w.cells[x.cell].entries - {LeastKey(w.cells[x.cell].entries)})]
    && v.index == if v.cells[x.cell].entries == map[] then w.index - {x.sourceId} else w.index
  }

  lemma RemovedKeeps(w: World, v: World, x: Item, max: nat)
    requires Invariant(w, max) && Removed(w, v, x) && x.sourceId in w.index && w.index[x.sourceId] == x.cell
    ensures Counted(v) && Indexed(v) && WritersHoldCells(v) && Bounded(v, max) && EmptyIsPending(v)
  {
    hide Removed, Counted, Indexed, WritersHoldCells, Bounded, EmptyIsPending, HeapIsSound;
    RemovedIsCounted(w, v, x);
    RemovedIsPending(w, v, x);
    RemovedKeepsCells(w, v, x, max);
  }

  lemma RemovedKeepsCells(w: World, v: World, x: Item, max: nat)
    requires Indexed(w) && WritersHoldCells(w) && Bounded(w, max) && Removed(w, v, x)
    ensures Indexed(v) && WritersHoldCells(v) && Bounded(v, max)
  {
    RemovedIsCounted(w, v, x);
    assert forall i :: 0 <= i < |v.cells| ==> v.cells[i].sourceId == w.cells[i].sourceId;
  }

  lemma RemovedIsCounted(w: World, v: World, x: Item)
    requires Removed(w, v, x)
    ensures |v.cells[x.cell].entries| == |w.cells[x.cell].entries| - 1
    ensures Counted(w) ==> Counted(v)
  {
    ExpireSize(Source(w.cells[x.cell].entries, 0, 0, 0));
    HeldUpdate(w.cells, x.cell, v.cells[x.cell]);
  }

  lemma RemovedIsPending(w: World, v: World, x: Item)
    requires Indexed(w) && EmptyIsPending(w) && Removed(w, v, x) && x.sourceId in w.index && w.index[x.sourceId] == x.cell
    ensures EmptyIsPending(v)
  {
    forall j | j in v.index && v.index[j] < |v.cells| && v.cells[v.index[j]].entries == map[]
      ensures exists p :: p in v.writers && v.writers[p].cell == v.index[j]
    {
      assert j != x.sourceId;
      assert v.index[j] != x.cell;
      var p :| p in w.writers && w.writers[p].cell == w.index[j];
    }
  }

  lemma RemovedKeepsHeap(w: World, v: World, x: Item, heap: seq<Item>, rest: seq<Item>)
    requires Indexed(w) && HeapIsIndexed(w, heap) && Removed(w, v, x) && IsIndexed(w, x)
    requires forall k :: 0 <= k < |rest| ==> rest[k] in heap && rest[k].sourceId != x.sourceId
    ensures HeapIsIndexed(v, rest)
    ensures v.cells[x.cell].entries != map[] ==> IsIndexed(v, Item(0, x.sourceId, x.cell))
  {
    forall k | 0 <= k < |rest| ensures IsIndexed(v, rest[k]) {
      assert IsIndexed(w, rest[k]);
      assert w.cells[rest[k].cell].sourceId == rest[k].sourceId;
    }
  }

  lemma PruneKeeps(w: World, i: nat, max: nat)
    requires 1 <= max && Invariant(w, max) && Enabled(w, Prune(i))
    ensures Invariant(Step(w, Prune(i), max), max)
  {
    hide AfterPrune, Removed;
    var v, heap := Step(w, Prune(i), max), w.truncator.heap;
    assert HeapOf(w.truncator) == heap;
    if heap != [] {
      var x, rest := heap[i], WithoutItem(heap, i);
      assert IsIndexed(w, x);
      WithoutKeeps(heap, i);
      PruneRemoves(w, i);
      RemovedKeeps(w, v, x, max);
      RemovedKeepsHeap(w, v, x, heap, rest);
      PrunedHeapIsSound(v, x, rest);
    } else {
      CrashKeeps(w, i, max);
    }
  }

  lemma CrashKeeps(w: World, i: nat, max: nat)
    requires Invariant(w, max) && w.truncator.Pruning? && w.truncator.left > 0 && w.truncator.heap == []
    ensures Invariant(AfterPrune(w, i), max)
  {
  }

  lemma PrunedHeapIsSound(v: World, x: Item, rest: seq<Item>)
    requires HeapIsIndexed(v, rest) && HeapIsDistinct(rest) && x.cell < |v.cells| && v.truncator.Pruning?
    requires forall k :: 0 <= k < |rest| ==> rest[k].sourceId != x.sourceId
    requires v.cells[x.cell].entries != map[] ==> IsIndexed(v, Item(0, x.sourceId, x.cell))
    requires if v.cells[x.cell].entries == map[] then v.truncator.heap == rest
             else v.truncator.heap == rest + [Item(LeastKey(v.cells[x.cell].entries), x.sourceId, x.cell)]
    ensures HeapIsSound(v)
  {
    if v.cells[x.cell].entries != map[] {
      HeapGrows(rest, Item(LeastKey(v.cells[x.cell].entries), x.sourceId, x.cell));
    }
  }

  lemma PruneRemoves(w: World, i: nat)
    requires w.truncator.Pruning? && w.truncator.left > 0 && i < |w.truncator.heap|
    requires IsIndexed(w, w.truncator.heap[i])
    ensures var v, x := AfterPrune(w, i), w.truncator.heap[i];
      && Removed(w, v, x) && x.cell < |v.cells|
      && var rest := WithoutItem(w.truncator.heap, i);
         && v.truncator.Pruning? && v.truncator.left == w.truncator.left - 1
         && if v.cells[x.cell].entries == map[] then v.truncator.heap == rest
            else v.truncator.heap == rest + [Item(LeastKey(v.cells[x.cell].entries), x.sourceId, x.cell)]
  {
  }

  lemma StepKeepsInvariant(w: World, a: Action, max: nat)
    requires 1 <= max && Invariant(w, max) && Enabled(w, a)
    ensures Invariant(Step(w, a, max), max)
  {
    match a
    case Begin(writer, id, e) => BeginKeeps(w, writer, id, e, max);
    case Insert(writer) => InsertKeeps(w, writer, max);
    case Visit(id) => VisitKeeps(w, id, max);
    case Prune(i) => PruneKeeps(w, i, max);
    case StartTruncation(_) =>
    case FinishBuild => assert HeapOf(Step(w, a, max).truncator) == HeapOf(w.truncator);
    case Finish =>
  }

  // ---------- every interleaving ----------

  /** The actions lead from each world of the trace to the next. */
  ghost predicate Follows(trace: seq<World>, actions: seq<Action>, max: nat)
    requires 1 <= max
  {
    && |trace| == |actions| + 1
    && forall i :: 0 <= i < |actions| ==> Enabled(trace[i], actions[i]) && trace[i + 1] == Step(trace[i], actions[i], max)
  }

  /** A run of the program from the empty store. */
  ghost predicate IsRun(trace: seq<World>, actions: seq<Action>, max: nat)
    requires 1 <= max
  {
    Follows(trace, actions, max) && trace[0] == START
  }

  lemma OneStep(trace: seq<World>, actions: seq<Action>, max: nat, i: nat)
    requires 1 <= max && Follows(trace, actions, max) && i < |actions|
    ensures |trace| == |actions| + 1 && Enabled(trace[i], actions[i]) && trace[i + 1] == Step(trace[i], actions[i], max)
  {
  }

  lemma {:induction false} StepsKeepInvariant(trace: seq<World>, actions: seq<Action>, max: nat, i: nat)
    requires 1 <= max && Follows(trace, actions, max) && i < |trace| && Invariant(trace[0], max)
    ensures Invariant(trace[i], max)
  {
    hide Step, Enabled, Invariant;
    if i > 0 {
      StepsKeepInvariant(trace, actions, max, i - 1);
      StepKeepsInvariant(trace[i - 1], actions[i - 1], max);
    }
  }

  lemma NothingKeepsInvariant(w: World, max: nat)
    requires w.cells == [] && w.index == map[] && w.writers == map[] && w.count == 0 && w.overwritten == 0
    requires w.truncator == Waiting
    ensures Invariant(w, max)
  {
  }

  lemma StartKeepsInvariant(max: nat)
    ensures Invariant(START, max)
  {
    hide Invariant;
    NothingKeepsInvariant(START, max);
  }

  lemma EveryInterleavingKeepsInvariant(trace: seq<World>, actions: seq<Action>, max: nat, i: nat)
    requires 1 <= max && IsRun(trace, actions, max) && i < |trace|
    ensures Invariant(trace[i], max)
  {
    hide Invariant, Follows;
    StartKeepsInvariant(max);
    StepsKeepInvariant(trace, actions, max, i);
  }

  ghost predicate Reachable(w: World, max: nat)
    requires 1 <= max
  {
    exists trace, actions :: IsRun(trace, actions, max) && trace[|trace| - 1] == w
  }

  lemma ReachableKeepsInvariant(w: World, max: nat)
    requires 1 <= max && Reachable(w, max)
    ensures Invariant(w, max)
  {
    var trace, actions :| IsRun(trace, actions, max) && trace[|trace| - 1] == w;
    EveryInterleavingKeepsInvariant(trace, actions, max, |trace| - 1);
  }

  lemma StartIsReachable(max: nat)
    requires 1 <= max
    ensures Reachable(START, max)
  {
    assert IsRun([START], [], max);
  }

  /** One more action at the end. */
  lemma Extend(trace: seq<World>, actions: seq<Action>, a: Action, max: nat)
    requires 1 <= max && Follows(trace, actions, max) && Enabled(trace[|trace| - 1], a)
    ensures Follows(trace + [Step(trace[|trace| - 1], a, max)], actions + [a], max)
  {
    hide Step, Enabled;
    var longer, more := trace + [Step(trace[|trace| - 1], a, max)], actions + [a];
    forall i | 0 <= i < |more| ensures Enabled(longer[i], more[i]) && longer[i + 1] == Step(longer[i], more[i], max) {
      if i < |actions| {
        assert longer[i] == trace[i] && longer[i + 1] == trace[i + 1] && more[i] == actions[i];
      }
    }
  }

  lemma StepIsReachable(w: World, a: Action, v: World, max: nat)
    requires 1 <= max && Reachable(w, max) && Enabled(w, a) && v == Step(w, a, max)
    ensures Reachable(v, max)
  {
    hide Step, Enabled;
    var trace, actions :| IsRun(trace, actions, max) && trace[|trace| - 1] == w;
    Extend(trace, actions, a, max);
    assert IsRun(trace + [v], actions + [a], max);
  }
}

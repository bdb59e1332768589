/**
 When the truncation loop crashes: by popping an empty heap, or by visiting a storage that a writer has
 created and not filled yet.
 */
module TruncationCrashes {
  import opened Envelopes
  import opened StoreModel
  import opened Interleaving

  // ---------- when the truncation loop can crash ----------

  /** What the cells in `live` hold. */
  ghost function HeldIn(cells: seq<Cell>, live: set<nat>): nat {
    if cells == [] then 0 else
    var n := |cells| - 1;
    HeldIn(cells[..n], live) + if n in live then |cells[n].entries| else 0
  }

  lemma {:induction false} HeldInUpdate(cells: seq<Cell>, live: set<nat>, i: nat, c: Cell)
    requires i < |cells|
    ensures HeldIn(cells[i := c], live) ==
      HeldIn(cells, live) + if i in live then |c.entries| - |cells[i].entries| else 0
  {
    var n := |cells| - 1;
    if i == n {
      assert cells[i := c][..n] == cells[..n];
    } else {
      assert cells[i := c][..n] == cells[..n][i := c];
      HeldInUpdate(cells[..n], live, i, c);
    }
  }

  /** Adding or dropping only empty or out-of-range cells changes nothing; adding others only adds. */
  lemma {:induction false} HeldInMonotone(cells: seq<Cell>, a: set<nat>, b: set<nat>)
    requires forall i :: 0 <= i < |cells| && i in a ==> i in b || cells[i].entries == map[]
    ensures HeldIn(cells, a) <= HeldIn(cells, b)
  {
    if cells != [] { HeldInMonotone(cells[..|cells| - 1], a, b); }
  }

  lemma HeldInAppend(cells: seq<Cell>, live: set<nat>, id: SourceId)
    ensures HeldIn(cells + [Cell(id, map[])], live) == HeldIn(cells, live)
  {
    assert (cells + [Cell(id, map[])])[..|cells|] == cells;
  }

  lemma {:induction false} HeldInAll(cells: seq<Cell>, live: set<nat>)
    requires forall i :: 0 <= i < |cells| ==> i in live || cells[i].entries == map[]
    ensures HeldIn(cells, live) == Held(cells)
  {
    if cells != [] { HeldInAll(cells[..|cells| - 1], live); }
  }

  ghost function HeapCells(heap: seq<Item>): set<nat> {
    set i | 0 <= i < |heap| :: heap[i].cell
  }

  /** The cells the truncation under way can still take envelopes from. */
  ghost function Live(w: World): set<nat> {
    HeapCells(HeapOf(w.truncator)) +
    (if w.truncator.Building? then set id | id in w.index && id in w.truncator.start - w.truncator.visited :: w.index[id] else {})
  }

  /** The source's storage was created and not filled yet. */
  ghost predicate IsUnfilled(w: World, id: SourceId) {
    id in w.index && w.index[id] < |w.cells| && w.cells[w.index[id]].entries == map[]
  }

  /** The storages that have to be filled before the truncation under way can visit them. */
  ghost function Unfilled(w: World): set<SourceId> {
    if w.truncator.Building? then set id | id in w.truncator.start - w.truncator.visited && IsUnfilled(w, id) else {}
  }

  /** There is or will be enough to prune: the loop cannot outrun its heap. */
  ghost predicate Covered(w: World) {
    match w.truncator
    case Building(quota, start, _, _) => start <= w.index.Keys && quota <= HeldIn(w.cells, Live(w)) + |Unfilled(w)|
    case Pruning(left, _) => left <= HeldIn(w.cells, Live(w))
    case _ => true
  }

  /** Every storage that holds something is in the index. */
  ghost predicate NoOrphans(w: World) {
    forall i :: 0 <= i < |w.cells| && w.cells[i].entries != map[] ==>
      w.cells[i].sourceId in w.index && w.index[w.cells[i].sourceId] == i
  }

  /** The storages a truncation that starts now will visit. */
  ghost function IndexedCells(w: World): set<nat> {
    set id | id in w.index :: w.index[id]
  }

  ghost function UnfilledIndex(w: World): set<SourceId> {
    set id | id in w.index && IsUnfilled(w, id)
  }

  /** How many envelopes a truncation that starts now finds at least: unfilled storages will hold one when it visits them. */
  ghost function Reach(w: World): nat {
    HeldIn(w.cells, IndexedCells(w)) + |UnfilledIndex(w)|
  }

  /** The number to prune does not exceed what can be found. */
  ghost predicate WithinReach(w: World, quantity: nat) {
    Min(quantity, w.count) <= Reach(w)
  }

  lemma StartIsCoveredIff(w: World, q: nat, max: nat)
    requires 1 <= max && Enabled(w, StartTruncation(q))
    ensures Covered(Step(w, StartTruncation(q), max)) <==> WithinReach(w, q)
    ensures Live(Step(w, StartTruncation(q), max)) == IndexedCells(w)
    ensures Unfilled(Step(w, StartTruncation(q), max)) == UnfilledIndex(w)
  {
    var v := Step(w, StartTruncation(q), max);
    assert HeapCells(HeapOf(v.truncator)) == {};
    assert Live(v) == IndexedCells(w);
    assert Unfilled(v) == UnfilledIndex(w);
  }

  lemma NoOrphansIsWithinReach(w: World, q: nat, max: nat)
    requires Invariant(w, max) && NoOrphans(w) && w.overwritten == 0
    ensures WithinReach(w, q)
  {
    forall i | 0 <= i < |w.cells| ensures i in IndexedCells(w) || w.cells[i].entries == map[] {
      if w.cells[i].entries != map[] {
        var id := w.cells[i].sourceId;
        assert id in w.index && w.index[id] == i;
      }
    }
    HeldInAll(w.cells, IndexedCells(w));
  }

  lemma BeginIsCovered(w: World, writer: nat, id: SourceId, e: Envelope, max: nat)
    requires 1 <= max && Invariant(w, max) && Enabled(w, Begin(writer, id, e)) && Covered(w)
    ensures Covered(Step(w, Begin(writer, id, e), max))
  {
    hide HeldIn, Live, Unfilled;
    var v := Step(w, Begin(writer, id, e), max);
    HeldInAppend(w.cells, Live(w), id);
    if w.truncator.Building? {
      SameWhileBuilding(w, v);
    } else {
      SameHeap(w, v);
    }
  }

  /** New index entries and empty storages do not matter to a truncation under way. */
  lemma SameWhileBuilding(w: World, v: World)
    requires Indexed(w) && w.truncator.Building? && v.truncator == w.truncator && w.truncator.start <= w.index.Keys
    requires w.cells <= v.cells && forall j :: j in w.index ==> j in v.index && v.index[j] == w.index[j]
    ensures Live(v) == Live(w) && Unfilled(v) == Unfilled(w)
  {
    forall j | j in w.truncator.start ensures j in w.index && v.index[j] == w.index[j] {
      assert j in w.index.Keys;
    }
  }

  lemma SameHeap(w: World, v: World)
    requires v.truncator == w.truncator && !w.truncator.Building?
    ensures Live(v) == Live(w)
  {
  }

  lemma InsertIsCovered(w: World, writer: nat, max: nat)
    requires 1 <= max && Invariant(w, max) && Enabled(w, Action.Insert(writer)) && Covered(w)
    requires Step(w, Action.Insert(writer), max).overwritten == w.overwritten
    ensures Covered(Step(w, Action.Insert(writer), max))
  {
    hide AfterInsert, HeldIn;
    var p, v := w.writers[writer], Step(w, Action.Insert(writer), max);
    InsertCell(w, p, max);
    InsertNeverShrinks(w, p, max);
    HeldInUpdate(w.cells, Live(w), p.cell, v.cells[p.cell]);
    assert Live(v) == Live(w);
    FillingCounts(w, v, p.cell);
  }

  /** A filled storage is worth the envelope it was counted for. */
  lemma FillingCounts(w: World, v: World, c: nat)
    requires Indexed(w) && c < |w.cells| == |v.cells| && v.cells == w.cells[c := v.cells[c]] && v.cells[c].entries != map[]
    requires v.index == w.index && v.truncator == w.truncator && |v.cells[c].entries| >= |w.cells[c].entries|
    ensures (if c in Live(w) then |v.cells[c].entries| - |w.cells[c].entries| else 0) + |Unfilled(v)| >= |Unfilled(w)|
  {
    if id :| id in Unfilled(w) && w.index[id] == c {
      assert Unfilled(v) == Unfilled(w) - {id};
      assert c in Live(w);
      assert |v.cells[c].entries| > 0;
    } else {
      assert Unfilled(v) == Unfilled(w);
    }
  }

  lemma InsertNeverShrinks(w: World, p: Pending, max: nat)
    requires 1 <= max && p.cell < |w.cells| && |w.cells[p.cell].entries| <= max
    requires AfterInsert(w, p, max).overwritten == w.overwritten
    ensures |AfterInsert(w, p, max).cells[p.cell].entries| >= |w.cells[p.cell].entries|
  {
    var s := Source(w.cells[p.cell].entries, 0, 0, 0);
    InsertSize(s, p.e, max);
    RoomSize(s, max);
    assert AfterInsert(w, p, max).cells[p.cell].entries == StoreModel.Insert(s, p.e, max).entries;
  }

  lemma HeapCellsGrow(heap: seq<Item>, x: Item)
    ensures HeapCells(heap + [x]) == HeapCells(heap) + {x.cell}
  {
    var more := heap + [x];
    assert forall i :: 0 <= i < |heap| ==> more[i] == heap[i];
    assert more[|heap|] == x;
    forall c | c in HeapCells(heap) ensures c in HeapCells(more) {
      var i :| 0 <= i < |heap| && heap[i].cell == c;
      assert more[i].cell == c;
    }
    forall c | c in HeapCells(more) ensures c in HeapCells(heap) + {x.cell} {
      var i :| 0 <= i < |more| && more[i].cell == c;
      if i < |heap| { assert heap[i].cell == c; }
    }
  }

  /** Visiting a filled storage moves it from those still to visit to the heap. */
  lemma VisitedIsStillLive(w: World, v: World, x: Item)
    requires Indexed(w) && w.truncator.Building? && v.cells == w.cells && v.index == w.index
    requires x.sourceId in w.index && x.cell == w.index[x.sourceId] && w.cells[x.cell].entries != map[]
    requires v.truncator == w.truncator.(visited := w.truncator.visited + {x.sourceId}, heap := w.truncator.heap + [x])
    ensures Live(w) <= Live(v) && Unfilled(v) == Unfilled(w)
  {
    HeapCellsGrow(w.truncator.heap, x);
    hide HeapCells;
    forall c | c in Live(w) ensures c in Live(v) {
      if c !in HeapCells(w.truncator.heap) && c != x.cell {
        var id :| id in w.index && id in w.truncator.start - w.truncator.visited && w.index[id] == c;
        assert id != x.sourceId;
      }
    }
  }

  lemma VisitIsCovered(w: World, id: SourceId, max: nat)
    requires 1 <= max && Invariant(w, max) && Enabled(w, Visit(id)) && Covered(w)
    ensures Covered(Step(w, Visit(id), max))
  {
    hide Live, Unfilled, HeldIn, Counted, WritersHoldCells, Bounded, EmptyIsPending, HeapIsSound;
    var v, cell := Step(w, Visit(id), max), w.cells[w.index[id]];
    if cell.entries != map[] {
      VisitedIsStillLive(w, v, Item(LeastKey(cell.entries), id, w.index[id]));
      HeldInMonotone(v.cells, Live(w), Live(v));
    }
  }

  lemma HeapCellsWithout(heap: seq<Item>, i: nat)
    requires i < |heap|
    ensures HeapCells(heap) == HeapCells(WithoutItem(heap, i)) + {heap[i].cell}
  {
    var rest := WithoutItem(heap, i);
    forall c | c in HeapCells(heap) ensures c in HeapCells(rest) + {heap[i].cell} {
      var k :| 0 <= k < |heap| && heap[k].cell == c;
      if k != i { assert rest[if k < i then k else k - 1] == heap[k]; }
    }
    forall c | c in HeapCells(rest) ensures c in HeapCells(heap) {
      var k :| 0 <= k < |rest| && rest[k].cell == c;
      assert rest[k] == heap[if k < i then k else k + 1];
    }
  }

  lemma {:induction false} NothingHeld(cells: seq<Cell>)
    ensures HeldIn(cells, {}) == 0
  {
    if cells != [] { NothingHeld(cells[..|cells| - 1]); }
  }

  /** One round takes exactly one envelope off what the heap can reach. */
  lemma PruneTakesOne(u: World, i: nat, max: nat)
    requires 1 <= max && Invariant(u, max) && Enabled(u, Prune(i)) && u.truncator.heap != []
    ensures var v := Step(u, Prune(i), max);
      && v.truncator.Pruning? && v.truncator.left == u.truncator.left - 1
      && HeldIn(v.cells, HeapCells(v.truncator.heap)) == HeldIn(u.cells, HeapCells(u.truncator.heap)) - 1
  {
    var heap := u.truncator.heap;
    var x, v, rest := heap[i], Step(u, Prune(i), max), WithoutItem(heap, i);
    assert HeapOf(u.truncator)[i] == x && IsIndexed(u, x);
    PruneRemoves(u, i);
    ExpireSize(Source(u.cells[x.cell].entries, 0, 0, 0));
    HeapCellsWithout(heap, i);
    HeldInUpdate(u.cells, HeapCells(heap), x.cell, v.cells[x.cell]);
    if v.cells[x.cell].entries != map[] {
      HeapCellsGrow(rest, v.truncator.heap[|rest|]);
    } else {
      HeldInMonotone(v.cells, HeapCells(heap), HeapCells(rest));
      HeldInMonotone(v.cells, HeapCells(rest), HeapCells(heap));
    }
  }

  lemma NothingLeft(w: World)
    requires Covered(w) && w.truncator.Pruning? && w.truncator.heap == []
    ensures w.truncator.left == 0
  {
    NothingHeld(w.cells);
    assert Live(w) == {};
  }

  lemma LiveWhilePruning(w: World)
    requires w.truncator.Pruning?
    ensures Live(w) == HeapCells(w.truncator.heap)
  {
  }

  /** With enough to prune the heap is not empty, and one round keeps it so. */
  lemma PruneIsCovered(w: World, i: nat, max: nat)
    requires 1 <= max && Invariant(w, max) && Enabled(w, Prune(i)) && Covered(w)
    ensures w.truncator.heap != [] && Covered(Step(w, Prune(i), max))
  {
    hide Live, HeldIn, HeapCells, Invariant, AfterPrune;
    if w.truncator.heap == [] {
      NothingLeft(w);
    } else {
      PruneTakesOne(w, i, max);
      LiveWhilePruning(w);
      LiveWhilePruning(Step(w, Prune(i), max));
    }
  }

  ghost predicate UnderWay(w: World) {
    w.truncator.Building? || w.truncator.Pruning?
  }

  lemma FinishIsCovered(w: World, max: nat)
    requires 1 <= max && Enabled(w, FinishBuild) && Covered(w)
    ensures Covered(Step(w, FinishBuild, max))
  {
    assert w.truncator.start - w.truncator.visited == {};
    assert Live(Step(w, FinishBuild, max)) == Live(w) && Unfilled(w) == {};
  }

  /** One step keeps enough to prune, and no step of the loop pops an empty heap. */
  lemma CoveredIsKept(w: World, a: Action, max: nat)
    requires 1 <= max && Invariant(w, max) && Enabled(w, a) && Covered(w)
    requires UnderWay(w) ==> Step(w, a, max).overwritten == w.overwritten
    requires a.StartTruncation? ==> WithinReach(w, a.quantity)
    ensures Covered(Step(w, a, max))
    ensures a.Prune? ==> w.truncator.heap != [] && !Step(w, a, max).truncator.Crashed?
  {
    hide HeldIn, Invariant;
    match a
    case Begin(writer, id, e) => BeginIsCovered(w, writer, id, e, max);
    case Insert(writer) => if UnderWay(w) { InsertIsCovered(w, writer, max); }
    case StartTruncation(q) => StartIsCoveredIff(w, q, max);
    case Visit(id) => VisitIsCovered(w, id, max);
    case FinishBuild =>
      FinishIsCovered(w, max);
    case Prune(i) =>
      PruneIsCovered(w, i, max);
      PruneTakesOne(w, i, max);
    case Finish =>
  }

  // ---------- whole runs ----------

  /** Every truncation of the run starts with a number within reach. */
  ghost predicate StartsWithinReach(trace: seq<World>, actions: seq<Action>)
    requires |trace| == |actions| + 1
  {
    forall i :: 0 <= i < |actions| && actions[i].StartTruncation? ==> WithinReach(trace[i], actions[i].quantity)
  }

  /** Nothing is overwritten while a truncation is under way. */
  ghost predicate Quiet(trace: seq<World>) {
    forall i :: 0 < i < |trace| && UnderWay(trace[i - 1]) ==> trace[i].overwritten == trace[i - 1].overwritten
  }

  lemma {:induction false} RunStaysCovered(trace: seq<World>, actions: seq<Action>, max: nat, i: nat)
    requires 1 <= max && Follows(trace, actions, max) && i < |trace| && Invariant(trace[0], max) && Covered(trace[0])
    requires StartsWithinReach(trace, actions) && Quiet(trace)
    ensures Covered(trace[i])
    ensures i > 0 && actions[i - 1].Prune? ==> HeapOf(trace[i - 1].truncator) != [] && !trace[i].truncator.Crashed?
  {
    hide Step, Enabled, Invariant, Covered, WithinReach;
    if i > 0 {
      RunStaysCovered(trace, actions, max, i - 1);
      StepsKeepInvariant(trace, actions, max, i - 1);
      OneStep(trace, actions, max, i - 1);
      CoveredIsKept(trace[i - 1], actions[i - 1], max);
    }
  }

  lemma WaitingIsCovered(w: World)
    requires w.truncator == Waiting
    ensures Covered(w)
  {
  }

  lemma StartIsCovered(max: nat)
    ensures Invariant(START, max) && Covered(START)
  {
    hide Invariant, Covered;
    StartKeepsInvariant(max);
    WaitingIsCovered(START);
  }

  /**
   Over every run whose truncations start within reach and are not disturbed by overwriting, the loop never
   pops an empty heap, whatever the writers do meanwhile.
   */
  lemma NoRunPopsAnEmptyHeap(trace: seq<World>, actions: seq<Action>, max: nat)
    requires 1 <= max && IsRun(trace, actions, max) && StartsWithinReach(trace, actions) && Quiet(trace)
    ensures forall i :: 0 <= i < |actions| && actions[i].Prune? ==>
      HeapOf(trace[i].truncator) != [] && !trace[i + 1].truncator.Crashed?
  {
    hide Invariant, Covered, Follows, StartsWithinReach, Quiet;
    StartIsCovered(max);
    SameLength(trace, actions, max);
    forall i | 0 <= i < |actions| && actions[i].Prune? ensures HeapOf(trace[i].truncator) != [] && !trace[i + 1].truncator.Crashed? {
      RunStaysCovered(trace, actions, max, i + 1);
    }
  }

  lemma {:induction false} OverwrittenGrows(trace: seq<World>, actions: seq<Action>, max: nat, i: nat, j: nat)
    requires 1 <= max && Follows(trace, actions, max) && i <= j < |trace|
    ensures trace[i].overwritten <= trace[j].overwritten
    decreases j
  {
    if i < j {
      OverwrittenGrows(trace, actions, max, i, j - 1);
      assert trace[j] == Step(trace[j - 1], actions[j - 1], max);
    }
  }

  /** In particular if nothing is ever overwritten and no truncation starts while an envelope sits outside the index. */
  lemma RunsWithoutOrphansStayWithinReach(trace: seq<World>, actions: seq<Action>, max: nat)
    requires 1 <= max && IsRun(trace, actions, max) && trace[|trace| - 1].overwritten == 0
    requires forall i :: 0 <= i < |actions| && actions[i].StartTruncation? ==> NoOrphans(trace[i])
    ensures StartsWithinReach(trace, actions) && Quiet(trace)
  {
    forall i | 0 <= i < |trace| ensures trace[i].overwritten == 0 {
      OverwrittenGrows(trace, actions, max, i, |trace| - 1);
    }
    forall i | 0 <= i < |actions| && actions[i].StartTruncation? ensures WithinReach(trace[i], actions[i].quantity) {
      EveryInterleavingKeepsInvariant(trace, actions, max, i);
      NoOrphansIsWithinReach(trace[i], actions[i].quantity, max);
    }
  }

  // ---------- a truncation out of reach ----------

  /** The actions get from one world to the other without overwriting anything or starting a truncation. */
  ghost predicate LeadsBy(w: World, v: World, trace: seq<World>, actions: seq<Action>, max: nat)
    requires 1 <= max
  {
    && Follows(trace, actions, max) && trace[0] == w && trace[|trace| - 1] == v
    && (forall i :: 0 <= i < |actions| ==> !actions[i].StartTruncation?)
    && (forall i :: 0 <= i < |trace| ==> trace[i].overwritten == w.overwritten)
  }

  ghost predicate Leads(w: World, v: World, max: nat)
    requires 1 <= max
  {
    exists trace, actions :: LeadsBy(w, v, trace, actions, max)
  }

  lemma LeadsToItself(w: World, max: nat)
    requires 1 <= max
    ensures Leads(w, w, max)
  {
    assert LeadsBy(w, w, [w], [], max);
  }

  lemma LeadsFurther(w: World, u: World, a: Action, max: nat)
    requires 1 <= max && Leads(w, u, max) && Enabled(u, a) && !a.StartTruncation?
    requires Step(u, a, max).overwritten == u.overwritten
    ensures Leads(w, Step(u, a, max), max)
  {
    hide Step, Enabled;
    var trace, actions :| LeadsBy(w, u, trace, actions, max);
    Extend(trace, actions, a, max);
    assert LeadsBy(w, Step(u, a, max), trace + [Step(u, a, max)], actions + [a], max);
  }

  // ---------- first every created storage is filled ----------

  lemma FirstKey(e: Envelope, max: nat)
    requires 1 <= max
    ensures var s := Source(map[], 0, 0, 0);
      Room(s, max) == map[] && KeyFor(map[], e.timestamp) == e.timestamp && !Overwrites(s, e, max) && !Full(s, max)
  {
    KeyIsUnique(map[], e.timestamp, e.timestamp);
  }

  /** The first insert into a storage leaves exactly one envelope in it and overwrites nothing. */
  lemma FirstInsert(u: World, writer: nat, max: nat)
    requires 1 <= max && Enabled(u, Action.Insert(writer)) && u.cells[u.writers[writer].cell].entries == map[]
    ensures var v, c := Step(u, Action.Insert(writer), max), u.writers[writer].cell;
      && v.cells == u.cells[c := v.cells[c]] && |v.cells[c].entries| == 1 && v.cells[c].sourceId == u.cells[c].sourceId
      && v.index == u.index && v.truncator == u.truncator && v.overwritten == u.overwritten
  {
    FirstKey(u.writers[writer].e, max);
  }

  /** Before the first visit the writers can fill every storage that is still empty, with one envelope each. */
  lemma {:induction false} FillsAll(w: World, u: World, max: nat) returns (v: World)
    requires 1 <= max && Leads(w, u, max) && Invariant(u, max)
    requires u.truncator.Building? && u.truncator.visited == {} && u.truncator.start == u.index.Keys
    ensures Leads(w, v, max) && Invariant(v, max) && IndexIsFilled(v) && v.truncator == u.truncator && v.index == u.index
    ensures HeldIn(v.cells, Live(v)) == HeldIn(u.cells, Live(u)) + |Unfilled(u)|
    decreases |Unfilled(u)|
  {
    hide Step, Leads, HeldIn;
    if Unfilled(u) == {} {
      AllAreFilled(u);
      return u;
    }
    var id :| id in Unfilled(u);
    var writer :| writer in u.writers && u.writers[writer].cell == u.index[id];
    var c := u.index[id];
    FirstInsert(u, writer, max);
    LeadsFurther(w, u, Action.Insert(writer), max);
    StepKeepsInvariant(u, Action.Insert(writer), max);
    var next := Step(u, Action.Insert(writer), max);
    HeldInUpdate(u.cells, Live(u), c, next.cells[c]);
    OneLessUnfilled(u, next, id);
    v := FillsAll(w, next, max);
  }

  lemma AllAreFilled(u: World)
    requires Indexed(u) && u.truncator.Building? && u.truncator.visited == {} && u.truncator.start == u.index.Keys
    requires Unfilled(u) == {}
    ensures IndexIsFilled(u)
  {
    forall id | id in u.index ensures u.cells[u.index[id]].entries != map[] {
      assert id !in Unfilled(u);
    }
  }

  lemma OneLessUnfilled(u: World, v: World, id: SourceId)
    requires Indexed(u) && id in Unfilled(u) && v.index == u.index && v.truncator == u.truncator && |v.cells| == |u.cells|
    requires v.cells == u.cells[u.index[id] := v.cells[u.index[id]]] && |v.cells[u.index[id]].entries| == 1
    ensures Unfilled(v) == Unfilled(u) - {id} && Live(v) == Live(u) && u.index[id] in Live(u)
  {
    assert v.cells[u.index[id]].entries != map[];
  }

  // ---------- then everything is visited and pruned ----------

  lemma TruncatorOverwritesNothing(w: World, a: Action, max: nat)
    requires 1 <= max && Enabled(w, a) && !a.Insert?
    ensures Step(w, a, max).overwritten == w.overwritten
  {
  }

  /** No indexed storage is waiting to be filled. */
  ghost predicate IndexIsFilled(w: World) {
    forall id :: id in w.index ==> w.index[id] < |w.cells| && w.cells[w.index[id]].entries != map[]
  }

  lemma VisitMovesToHeap(u: World, id: SourceId, max: nat)
    requires 1 <= max && Enabled(u, Visit(id)) && IndexIsFilled(u) && id in u.truncator.start
    ensures var v := Step(u, Visit(id), max);
      && v.truncator.Building? && v.cells == u.cells && v.index == u.index && Live(v) == Live(u)
      && v.truncator.quota == u.truncator.quota && v.truncator.start == u.truncator.start
      && v.truncator.visited == u.truncator.visited + {id}
  {
    var v := Step(u, Visit(id), max);
    HeapCellsGrow(u.truncator.heap, v.truncator.heap[|u.truncator.heap|]);
    assert u.index[id] in Live(u);
  }

  /** The loop can visit everything it still has to visit. */
  lemma {:induction false} VisitsAll(w: World, u: World, max: nat) returns (v: World)
    requires 1 <= max && Leads(w, u, max) && u.truncator.Building? && IndexIsFilled(u) && Invariant(u, max)
    requires u.truncator.start <= u.index.Keys
    ensures Leads(w, v, max) && v.truncator.Building? && v.truncator.start <= v.truncator.visited && Invariant(v, max)
    ensures v.cells == u.cells && v.truncator.quota == u.truncator.quota && Live(v) == Live(u)
    decreases |u.truncator.start - u.truncator.visited|
  {
    hide Step, Invariant, Leads, Live;
    var todo := u.truncator.start - u.truncator.visited;
    assert forall id :: id in u.truncator.start && id !in todo ==> id in u.truncator.visited;
    if todo == {} {
      return u;
    }
    var id :| id in todo;
    VisitMovesToHeap(u, id, max);
    TruncatorOverwritesNothing(u, Visit(id), max);
    LeadsFurther(w, u, Visit(id), max);
    StepKeepsInvariant(u, Visit(id), max);
    var next := Step(u, Visit(id), max);
    assert next.truncator.start - next.truncator.visited == todo - {id};
    v := VisitsAll(w, next, max);
  }

  lemma {:induction false} MinimalExists(heap: seq<Item>) returns (i: nat)
    requires heap != []
    ensures IsMinimal(heap, i)
  {
    var n := |heap| - 1;
    if n == 0 {
      return 0;
    }
    i := MinimalExists(heap[..n]);
    assert forall j :: 0 <= j < n ==> heap[..n][j] == heap[j];
    if heap[n].timestamp < heap[i].timestamp {
      i := n;
    }
  }

  /** A loop with more rounds left than envelopes in reach can run until its heap is empty. */
  lemma {:induction false} PrunesUntilEmpty(w: World, u: World, max: nat) returns (v: World)
    requires 1 <= max && Leads(w, u, max) && Invariant(u, max) && u.truncator.Pruning?
    requires u.truncator.left > HeldIn(u.cells, HeapCells(u.truncator.heap))
    ensures Leads(w, v, max) && v.truncator.Pruning? && v.truncator.left > 0 && v.truncator.heap == []
    decreases u.truncator.left
  {
    hide Step, Leads, HeldIn, HeapCells;
    if u.truncator.heap == [] {
      return u;
    }
    var i := MinimalExists(u.truncator.heap);
    assert IsIndexed(u, HeapOf(u.truncator)[i]);
    PruneTakesOne(u, i, max);
    TruncatorOverwritesNothing(u, Prune(i), max);
    LeadsFurther(w, u, Prune(i), max);
    StepKeepsInvariant(u, Prune(i), max);
    v := PrunesUntilEmpty(w, Step(u, Prune(i), max), max);
  }

  /** A truncation by `q` that starts in `w`, undisturbed by overwriting, comes to pop an empty heap. */
  ghost predicate PopsEmptyHeap(w: World, q: nat, trace: seq<World>, actions: seq<Action>, max: nat)
    requires 1 <= max
  {
    && Follows(trace, actions, max) && trace[0] == w && Quiet(trace)
    && actions != [] && actions[0] == StartTruncation(q)
    && (forall i :: 0 < i < |actions| ==> !actions[i].StartTruncation?)
    && var t := trace[|trace| - 1].truncator; t.Pruning? && t.left > 0 && t.heap == []
  }

  lemma OutOfReachPopsEmptyHeap(w: World, q: nat, max: nat) returns (trace: seq<World>, actions: seq<Action>)
    requires 1 <= max && Invariant(w, max) && Enabled(w, StartTruncation(q)) && !WithinReach(w, q)
    ensures PopsEmptyHeap(w, q, trace, actions, max)
  {
    hide Leads, HeldIn, Invariant, Live, Unfilled;
    var w1 := Step(w, StartTruncation(q), max);
    StartIsCoveredIff(w, q, max);
    StepKeepsInvariant(w, StartTruncation(q), max);
    LeadsToItself(w1, max);
    var f := FillsAll(w1, w1, max);
    var u := VisitsAll(w1, f, max);
    var p := Step(u, FinishBuild, max);
    LeadsFurther(w1, u, FinishBuild, max);
    StepKeepsInvariant(u, FinishBuild, max);
    AllVisited(u);
    var v := PrunesUntilEmpty(w1, p, max);
    trace, actions := StartFirst(w, q, w1, v, max);
  }

  lemma AllVisited(u: World)
    requires u.truncator.Building? && u.truncator.start <= u.truncator.visited
    ensures Live(u) == HeapCells(u.truncator.heap)
  {
    assert u.truncator.start - u.truncator.visited == {};
  }

  lemma StartFirst(w: World, q: nat, w1: World, v: World, max: nat) returns (trace: seq<World>, actions: seq<Action>)
    requires 1 <= max && Enabled(w, StartTruncation(q)) && w1 == Step(w, StartTruncation(q), max) && Leads(w1, v, max)
    requires v.truncator.Pruning? && v.truncator.left > 0 && v.truncator.heap == []
    ensures PopsEmptyHeap(w, q, trace, actions, max)
  {
    assert w1.overwritten == w.overwritten;
    hide Step, Enabled;
    var t, b :| LeadsBy(w1, v, t, b, max);
    trace, actions := [w] + t, [StartTruncation(q)] + b;
    forall i | 0 <= i < |actions| ensures Enabled(trace[i], actions[i]) && trace[i + 1] == Step(trace[i], actions[i], max) {
      if i > 0 {
        OneStep(t, b, max, i - 1);
        assert trace[i] == t[i - 1] && trace[i + 1] == t[i] && actions[i] == b[i - 1];
      }
    }
    assert forall i :: 0 < i < |actions| ==> actions[i] == b[i - 1];
    assert forall i :: 0 < i < |trace| ==> trace[i] == t[i - 1];
  }

  /**
   For every reachable world: a truncation can come to pop an empty heap exactly if it starts with a number
   that exceeds the envelopes in indexed storages plus the storages that are still to be filled.
   */
  lemma PopsEmptyHeapIff(w: World, q: nat, max: nat)
    requires 1 <= max && Reachable(w, max) && Enabled(w, StartTruncation(q))
    ensures (exists trace, actions :: PopsEmptyHeap(w, q, trace, actions, max)) <==> !WithinReach(w, q)
  {
    ReachableKeepsInvariant(w, max);
    if WithinReach(w, q) {
      forall trace, actions ensures !PopsEmptyHeap(w, q, trace, actions, max) {
        if PopsEmptyHeap(w, q, trace, actions, max) { WithinReachIsSafe(w, q, trace, actions, max); }
      }
    } else {
      var trace, actions := OutOfReachPopsEmptyHeap(w, q, max);
    }
  }

  /** Whoever acts meanwhile, a truncation that starts within reach has enough to prune until it ends. */
  lemma WithinReachIsSafe(w: World, q: nat, trace: seq<World>, actions: seq<Action>, max: nat)
    requires 1 <= max && Invariant(w, max) && w.truncator.Waiting? && WithinReach(w, q)
    requires Follows(trace, actions, max) && trace[0] == w && Quiet(trace)
    requires actions != [] && actions[0] == StartTruncation(q)
    requires forall i :: 0 < i < |actions| ==> !actions[i].StartTruncation?
    ensures var t := trace[|trace| - 1].truncator; !(t.Pruning? && t.left > 0 && t.heap == [])
  {
    hide Follows, Invariant, Quiet;
    SameLength(trace, actions, max);
    WaitingIsCovered(w);
    RunStaysCovered(trace, actions, max, |trace| - 1);
    var v := trace[|trace| - 1];
    if v.truncator.Pruning? && v.truncator.heap == [] { NothingLeft(v); }
  }

  // ---------- visiting a storage that is not filled yet ----------

  /** The heap is being built and comes to a storage without envelopes, which has no leftmost node. */
  ghost predicate VisitsEmpty(w: World, a: Action) {
    a.Visit? && a.id in w.index && w.index[a.id] < |w.cells| && w.cells[w.index[a.id]].entries == map[]
  }

  /** A visit crashes exactly on an empty storage, and then some writer has created or found it and not filled it yet. */
  lemma VisitCrashesIff(w: World, id: SourceId, max: nat)
    requires 1 <= max && Invariant(w, max) && Enabled(w, Visit(id))
    ensures Step(w, Visit(id), max).truncator.Crashed? <==> VisitsEmpty(w, Visit(id))
    ensures VisitsEmpty(w, Visit(id)) ==> exists p :: p in w.writers && w.writers[p].cell == w.index[id]
  {
  }

  lemma CrashStep(w: World, a: Action, max: nat)
    requires 1 <= max && Invariant(w, max) && Enabled(w, a) && (a.Prune? ==> !Step(w, a, max).truncator.Crashed?)
    ensures Step(w, a, max).truncator.Crashed? <==> w.truncator.Crashed? || VisitsEmpty(w, a)
  {
    if a.Visit? { VisitCrashesIff(w, a.id, max); }
  }

  /** On the runs above the truncation loop has crashed exactly if it visited a storage that was not filled yet. */
  lemma {:induction false} CrashedIffVisitedEmpty(trace: seq<World>, actions: seq<Action>, max: nat, j: nat)
    requires 1 <= max && IsRun(trace, actions, max) && j < |trace| && StartsWithinReach(trace, actions) && Quiet(trace)
    ensures trace[j].truncator.Crashed? <==> exists i :: 0 <= i < j && VisitsEmpty(trace[i], actions[i])
  {
    hide Step, Enabled, Invariant, Covered, VisitsEmpty, StartsWithinReach, Quiet, Follows;
    StartIsCovered(max);
    if j > 0 {
      SameLength(trace, actions, max);
      CrashedIffVisitedEmpty(trace, actions, max, j - 1);
      StepsKeepInvariant(trace, actions, max, j - 1);
      RunStaysCovered(trace, actions, max, j);
      OneStep(trace, actions, max, j - 1);
      CrashStep(trace[j - 1], actions[j - 1], max);
    }
  }

  lemma SameLength(trace: seq<World>, actions: seq<Action>, max: nat)
    requires 1 <= max && Follows(trace, actions, max)
    ensures |trace| == |actions| + 1
  {
  }

  // ---------- an orphan makes it crash ----------

  /** One source, filled by one writer; a second writer has already looked the storage up. */
  ghost function Filled(id: SourceId, e: Envelope): World {
    World([Cell(id, map[e.timestamp := e])], map[id := 0], map[2 := Pending(0, e)], 1, 0, Waiting)
  }

  lemma FilledIsReachable(id: SourceId, e: Envelope, max: nat)
    requires 1 <= max
    ensures Reachable(Filled(id, e), max)
  {
    StartIsReachable(max);
    var w1 := World([Cell(id, map[])], map[id := 0], map[1 := Pending(0, e)], 0, 0, Waiting);
    StepIsReachable(START, Begin(1, id, e), w1, max);
    FirstKey(e, max);
    var w2 := World([Cell(id, map[e.timestamp := e])], map[id := 0], map[], 1, 0, Waiting);
    assert map[1 := Pending(0, e)] - {1} == map[];
    StepIsReachable(w1, Action.Insert(1), w2, max);
    StepIsReachable(w2, Begin(2, id, e), Filled(id, e), max);
  }

  /** The truncation empties the source and drops it; the second writer then fills a storage nobody can find. */
  ghost function Orphaned(id: SourceId, e: Envelope): World {
    World([Cell(id, map[e.timestamp := e])], map[], map[], 1, 0, Waiting)
  }

  lemma EmptiedIsReachable(id: SourceId, e: Envelope, max: nat)
    requires 1 <= max
    ensures Reachable(World([Cell(id, map[])], map[], map[2 := Pending(0, e)], 0, 0, Waiting), max)
  {
    FilledIsReachable(id, e, max);
    var w, m := Filled(id, e), map[e.timestamp := e];
    assert m - {e.timestamp} == map[] && LeastKey(m) == e.timestamp;
    assert w.index.Keys == {id} && {} + {id} == {id};
    var x := Item(e.timestamp, id, 0);
    assert [] + [x] == [x];
    var w1 := w.(truncator := Building(1, {id}, {}, []));
    StepIsReachable(w, StartTruncation(1), w1, max);
    var w2 := w.(truncator := Building(1, {id}, {id}, [x]));
    StepIsReachable(w1, Visit(id), w2, max);
    var w3 := w.(truncator := Pruning(1, [x]));
    StepIsReachable(w2, FinishBuild, w3, max);
    var w4 := World([Cell(id, map[])], map[], map[2 := Pending(0, e)], 0, 0, Pruning(0, []));
    assert WithoutItem([x], 0) == [] && map[id := 0] - {id} == map[];
    StepIsReachable(w3, Prune(0), w4, max);
    StepIsReachable(w4, Finish, w4.(truncator := Waiting), max);
  }

  /** A run without overwriting in which the count exceeds what the index can reach, and the next truncation crashes. */
  lemma OrphanCrashesTruncation(id: SourceId, e: Envelope, max: nat)
    requires 1 <= max
    ensures Reachable(Orphaned(id, e), max) && !NoOrphans(Orphaned(id, e))
    ensures Reachable(Orphaned(id, e).(truncator := Crashed), max)
  {
    EmptiedIsReachable(id, e, max);
    var w := World([Cell(id, map[])], map[], map[2 := Pending(0, e)], 0, 0, Waiting);
    var o := Orphaned(id, e);
    FirstKey(e, max);
    assert map[2 := Pending(0, e)] - {2} == map[];
    StepIsReachable(w, Action.Insert(2), o, max);
    var o1 := o.(truncator := Building(1, {}, {}, []));
    StepIsReachable(o, StartTruncation(1), o1, max);
    StepIsReachable(o1, FinishBuild, o.(truncator := Pruning(1, [])), max);
    StepIsReachable(o.(truncator := Pruning(1, [])), Prune(0), o.(truncator := Crashed), max);
    assert o.cells[0].entries[e.timestamp] == e;
  }

  // ---------- so does a storage that is not filled yet ----------

  /** Source `a` is filled and a writer has just created the storage of source `b`. */
  ghost function HalfBegun(a: SourceId, b: SourceId, e: Envelope): World {
    World([Cell(a, map[e.timestamp := e]), Cell(b, map[])], map[a := 0, b := 1], map[2 := Pending(1, e)], 1, 0, Waiting)
  }

  lemma HalfBegunIsReachable(a: SourceId, b: SourceId, e: Envelope, max: nat)
    requires 1 <= max && a != b
    ensures Reachable(HalfBegun(a, b, e), max)
  {
    StartIsReachable(max);
    var w1 := World([Cell(a, map[])], map[a := 0], map[1 := Pending(0, e)], 0, 0, Waiting);
    StepIsReachable(START, Begin(1, a, e), w1, max);
    FirstKey(e, max);
    var w2 := World([Cell(a, map[e.timestamp := e])], map[a := 0], map[], 1, 0, Waiting);
    assert map[1 := Pending(0, e)] - {1} == map[];
    StepIsReachable(w1, Action.Insert(1), w2, max);
    StepIsReachable(w2, Begin(2, b, e), HalfBegun(a, b, e), max);
  }

  /** A run without orphans and without overwriting in which building the heap crashes. */
  lemma UnfilledStorageCrashesTruncation(a: SourceId, b: SourceId, e: Envelope, max: nat)
    requires 1 <= max && a != b
    ensures NoOrphans(HalfBegun(a, b, e)) && HalfBegun(a, b, e).overwritten == 0
    ensures Reachable(HalfBegun(a, b, e), max) && Reachable(HalfBegun(a, b, e).(truncator := Crashed), max)
  {
    HalfBegunIsReachable(a, b, e, max);
    var w := HalfBegun(a, b, e);
    var w1 := w.(truncator := Building(1, w.index.Keys, {}, []));
    StepIsReachable(w, StartTruncation(1), w1, max);
    StepIsReachable(w1, Visit(b), w.(truncator := Crashed), max);
  }
}

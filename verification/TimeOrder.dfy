/**
 When a source stays in time order over whole runs of the store: puts and truncations of any sources, at any
 capacity, as long as the timestamps put to the source do not decrease.
 */
module TimeOrder {
  import opened Envelopes
  import opened SearchTrees
  import opened Traversal
  import opened Completeness
  import opened Shapes
  import opened StoreModel
  import opened StoreRuns
  import opened Ordering

  // ---------- one put ----------

  ghost predicate Slips(m: map<int, Envelope>, t: int, a: int, h: int) {
    a in m && m[a].timestamp < t <= h < a && h !in m
  }

  /** An older envelope was moved past `t`, and a key between `t` and it is free. */
  ghost predicate SlipsUnder(m: map<int, Envelope>, t: int) {
    exists a, h :: Slips(m, t, a, h)
  }

  ghost predicate NoneAfter(m: map<int, Envelope>, t: int) {
    forall k :: k in m ==> m[k].timestamp <= t
  }

  /** Overwriting happens at the largest key. */
  lemma OverwriteKeepsOrder(m: map<int, Envelope>, e: Envelope)
    requires OrderConsistent(m) && FudgeBounded(m) && NoneAfter(m, e.timestamp) && KeyFor(m, e.timestamp) in m
    ensures OrderConsistent(m[KeyFor(m, e.timestamp) := e]) && !SlipsUnder(m, e.timestamp)
  {
    var k := KeyFor(m, e.timestamp);
    assert forall a :: a in m ==> a <= m[a].timestamp + MAX_FUDGE <= k;
  }

  lemma SlippingBreaksOrder(m: map<int, Envelope>, e: Envelope, a: int, h: int)
    requires KeyFor(m, e.timestamp) !in m && Slips(m, e.timestamp, a, h)
    ensures !OrderConsistent(m[KeyFor(m, e.timestamp) := e])
  {
    var k := KeyFor(m, e.timestamp);
    assert k <= h;
    var after := m[k := e];
    assert a in after && k in after && k < a && after[a].timestamp < after[k].timestamp;
  }

  lemma NotSlippingKeepsOrder(m: map<int, Envelope>, e: Envelope, k: int)
    requires OrderConsistent(m) && NoneAfter(m, e.timestamp) && e.timestamp <= k && k !in m && !SlipsUnder(m, e.timestamp)
    ensures OrderConsistent(m[k := e])
  {
    var after := m[k := e];
    forall a, b | a in after && b in after && a < b ensures after[a].timestamp <= after[b].timestamp {
      if a == k {
        assert !Slips(m, e.timestamp, b, k);
      }
    }
  }

  /** A put that is not older than anything held keeps the order exactly if it does not slip under an older envelope. */
  lemma InsertKeepsOrderIff(m: map<int, Envelope>, e: Envelope)
    requires OrderConsistent(m) && FudgeBounded(m) && NoneAfter(m, e.timestamp)
    ensures OrderConsistent(m[KeyFor(m, e.timestamp) := e]) <==> !SlipsUnder(m, e.timestamp)
  {
    hide OrderConsistent, FudgeBounded, NoneAfter, Slips;
    if KeyFor(m, e.timestamp) in m {
      OverwriteKeepsOrder(m, e);
    } else if a, h :| Slips(m, e.timestamp, a, h) {
      SlippingBreaksOrder(m, e, a, h);
    } else {
      NotSlippingKeepsOrder(m, e, KeyFor(m, e.timestamp));
    }
  }

  // ---------- what one step of the store does to one source ----------

  ghost function HeldBy(ops: seq<Op>, id: SourceId, max: nat): map<int, Envelope>
    requires 1 <= max
  {
    SourceOf(Run(ops, max).store, id).entries
  }

  ghost predicate PutsTo(op: Op, id: SourceId) {
    op.PutOp? && op.id == id
  }

  /** The entries that a put to the source finds after making room. */
  ghost function RoomFor(ops: seq<Op>, id: SourceId, max: nat): map<int, Envelope>
    requires 1 <= max
  {
    Room(SourceOf(Run(ops, max).store, id), max)
  }

  lemma HeldAfterPut(ops: seq<Op>, e: Envelope, id: SourceId, max: nat)
    requires 1 <= max
    ensures var m := RoomFor(ops, id, max);
      HeldBy(ops + [PutOp(e, id)], id, max) == m[KeyFor(m, e.timestamp) := e]
  {
    assert (ops + [PutOp(e, id)])[..|ops|] == ops;
  }

  /** Any other step leaves the source as it is or takes its least key away. */
  lemma HeldAfterOther(ops: seq<Op>, op: Op, id: SourceId, max: nat)
    requires 1 <= max && !PutsTo(op, id)
    ensures Within(HeldBy(ops + [op], id, max), HeldBy(ops, id, max))
  {
    assert (ops + [op])[..|ops|] == ops;
  }

  ghost predicate Within(n: map<int, Envelope>, m: map<int, Envelope>) {
    forall k :: k in n ==> k in m && n[k] == m[k]
  }

  lemma WithinKeeps(n: map<int, Envelope>, m: map<int, Envelope>, t: int)
    requires Within(n, m)
    ensures OrderConsistent(m) ==> OrderConsistent(n)
    ensures FudgeBounded(m) ==> FudgeBounded(n)
    ensures NoneAfter(m, t) ==> NoneAfter(n, t)
  {
  }

  lemma RoomIsWithin(ops: seq<Op>, id: SourceId, max: nat)
    requires 1 <= max
    ensures Within(RoomFor(ops, id, max), HeldBy(ops, id, max))
  {
  }

  // ---------- runs ----------

  /** No put to the source in the run is later than `t`. */
  ghost predicate PutsUntil(ops: seq<Op>, id: SourceId, t: int) {
    forall i :: 0 <= i < |ops| && PutsTo(ops[i], id) ==> ops[i].e.timestamp <= t
  }

  ghost predicate PutTimesAscend(ops: seq<Op>, id: SourceId) {
    forall i, j :: 0 <= i < j < |ops| && PutsTo(ops[i], id) && PutsTo(ops[j], id) ==>
      ops[i].e.timestamp <= ops[j].e.timestamp
  }

  lemma {:induction false} HeldIsBounded(ops: seq<Op>, id: SourceId, max: nat, t: int)
    requires 1 <= max && PutsUntil(ops, id, t)
    ensures FudgeBounded(HeldBy(ops, id, max)) && NoneAfter(HeldBy(ops, id, max), t)
  {
    hide HeldBy, RoomFor, Within;
    if ops == [] {
      NothingHeld(ops, id, max);
    } else {
      var k, op := |ops| - 1, ops[|ops| - 1];
      var prefix := ops[..k];
      assert ops == prefix + [op];
      HeldIsBounded(prefix, id, max, t);
      if PutsTo(op, id) {
        RoomIsWithin(prefix, id, max);
        WithinKeeps(RoomFor(prefix, id, max), HeldBy(prefix, id, max), t);
        HeldAfterPut(prefix, op.e, id, max);
        InsertBounded(RoomFor(prefix, id, max), op.e, t);
      } else {
        HeldAfterOther(prefix, op, id, max);
        WithinKeeps(HeldBy(ops, id, max), HeldBy(prefix, id, max), t);
      }
    }
  }

  lemma NothingHeld(ops: seq<Op>, id: SourceId, max: nat)
    requires 1 <= max && ops == []
    ensures HeldBy(ops, id, max) == map[]
  {
  }

  lemma InsertBounded(m: map<int, Envelope>, e: Envelope, t: int)
    requires FudgeBounded(m) && NoneAfter(m, t) && e.timestamp <= t
    ensures FudgeBounded(m[KeyFor(m, e.timestamp) := e]) && NoneAfter(m[KeyFor(m, e.timestamp) := e], t)
  {
  }

  /** The source was in time order after every step. */
  ghost predicate StaysInOrder(ops: seq<Op>, id: SourceId, max: nat)
    requires 1 <= max
  {
    ops == [] || (StaysInOrder(ops[..|ops| - 1], id, max) && OrderConsistent(HeldBy(ops, id, max)))
  }

  /** No put to the source slipped under an older envelope. */
  ghost predicate NeverSlips(ops: seq<Op>, id: SourceId, max: nat)
    requires 1 <= max
  {
    ops == [] ||
    (var prefix, op := ops[..|ops| - 1], ops[|ops| - 1];
     NeverSlips(prefix, id, max) && (PutsTo(op, id) ==> !SlipsUnder(RoomFor(prefix, id, max), op.e.timestamp)))
  }

  lemma LastPutIsLatest(ops: seq<Op>, id: SourceId)
    requires ops != [] && PutTimesAscend(ops, id)
    ensures PutTimesAscend(ops[..|ops| - 1], id)
    ensures PutsTo(ops[|ops| - 1], id) ==> PutsUntil(ops[..|ops| - 1], id, ops[|ops| - 1].e.timestamp)
  {
    var prefix := ops[..|ops| - 1];
    assert forall i :: 0 <= i < |prefix| ==> prefix[i] == ops[i];
  }

  lemma {:induction false} NowInOrder(ops: seq<Op>, id: SourceId, max: nat)
    requires 1 <= max && StaysInOrder(ops, id, max)
    ensures OrderConsistent(HeldBy(ops, id, max))
  {
    if ops == [] { NothingHeld(ops, id, max); }
  }

  lemma LastStepKeepsOrderIff(prefix: seq<Op>, op: Op, id: SourceId, max: nat)
    requires 1 <= max && OrderConsistent(HeldBy(prefix, id, max))
    requires PutsTo(op, id) ==> PutsUntil(prefix, id, op.e.timestamp)
    ensures OrderConsistent(HeldBy(prefix + [op], id, max)) <==>
      (PutsTo(op, id) ==> !SlipsUnder(RoomFor(prefix, id, max), op.e.timestamp))
  {
    hide HeldBy, RoomFor, Within, OrderConsistent, SlipsUnder, FudgeBounded, NoneAfter;
    if PutsTo(op, id) {
      var t := op.e.timestamp;
      HeldIsBounded(prefix, id, max, t);
      RoomIsWithin(prefix, id, max);
      WithinKeeps(RoomFor(prefix, id, max), HeldBy(prefix, id, max), t);
      HeldAfterPut(prefix, op.e, id, max);
      InsertKeepsOrderIff(RoomFor(prefix, id, max), op.e);
    } else {
      HeldAfterOther(prefix, op, id, max);
      WithinKeeps(HeldBy(prefix + [op], id, max), HeldBy(prefix, id, max), 0);
    }
  }

  /**
   Over every run of puts and expirations of any sources, evictions and overwriting included, in which the
   timestamps put to a source do not decrease: the source stays in time order throughout exactly if no put to
   it slips under an older envelope.
   */
  lemma {:induction false} StaysInOrderIff(ops: seq<Op>, id: SourceId, max: nat)
    requires 1 <= max && PutTimesAscend(ops, id)
    ensures StaysInOrder(ops, id, max) <==> NeverSlips(ops, id, max)
  {
    hide HeldBy, RoomFor, OrderConsistent, SlipsUnder, PutTimesAscend, PutsUntil;
    if ops != [] {
      var prefix, op := ops[..|ops| - 1], ops[|ops| - 1];
      assert ops == prefix + [op];
      LastPutIsLatest(ops, id);
      StaysInOrderIff(prefix, id, max);
      if StaysInOrder(prefix, id, max) {
        NowInOrder(prefix, id, max);
        LastStepKeepsOrderIff(prefix, op, id, max);
      }
    }
  }

  // ---------- runs of puts only ----------

  ghost function PutOps(es: seq<Envelope>, id: SourceId): seq<Op> {
    seq(|es|, i requires 0 <= i < |es| => PutOp(es[i], id))
  }

  lemma {:induction false} PutsFill(es: seq<Envelope>, id: SourceId, max: nat)
    requires 1 <= max
    ensures SourceOf(Run(PutOps(es, id), max).store, id) == Fill(es, max)
  {
    hide Insert;
    if es != [] {
      var k := |es| - 1;
      PutsFill(es[..k], id, max);
      assert PutOps(es, id)[..k] == PutOps(es[..k], id);
    }
  }

  lemma {:induction false} SameOrderThroughout(es: seq<Envelope>, id: SourceId, max: nat)
    requires 1 <= max
    ensures StaysInOrder(PutOps(es, id), id, max) <==> StaysOrdered(es, max)
  {
    hide Run, Fill, OrderConsistent;
    if es != [] {
      var k := |es| - 1;
      SameOrderThroughout(es[..k], id, max);
      assert PutOps(es, id)[..k] == PutOps(es[..k], id);
      PutsFill(es, id, max);
    }
  }

  /** Without truncations slipping under an older envelope takes a full source and the hole of its evicted key. */
  lemma SlipsIffUndercuts(es: seq<Envelope>, id: SourceId, max: nat)
    requires 1 <= max && NonDecreasing(es)
    ensures NeverSlips(PutOps(es, id), id, max) <==> NeverUndercuts(es, max)
  {
    hide NeverSlips, NeverUndercuts, StaysInOrder, StaysOrdered;
    StaysInOrderIff(PutOps(es, id), id, max);
    SameOrderThroughout(es, id, max);
    NonDecreasingPutsKeepOrderIff(es, max);
  }

  // ---------- a truncation that breaks the order below capacity ----------

  /** Three puts at one time, a truncation that takes two of them, and a put at the next time. */
  ghost function PutsAroundTruncation(a: Envelope, b: Envelope, id: SourceId): seq<Op> {
    [PutOp(a, id), PutOp(a, id), PutOp(a, id), ExpireOp(id), ExpireOp(id), PutOp(b, id)]
  }

  ghost function LastOfThree(a: Envelope): map<int, Envelope> {
    map[a.timestamp + 2 := a]
  }

  lemma TwoExpire(s: Source, a: Envelope)
    requires s.entries == Triple(a.timestamp, a, a, a) && s.entries != map[]
    ensures ExpireSource(s).entries == map[a.timestamp + 1 := a, a.timestamp + 2 := a]
    ensures ExpireSource(s).entries != map[] && ExpireSource(ExpireSource(s)).entries == LastOfThree(a)
  {
    var t := a.timestamp;
    TripleSize(t, a, a, a);
    LeastIs(s.entries, t);
    var m := map[t + 1 := a, t + 2 := a];
    assert s.entries - {t} == m;
    assert t + 1 in m && IsLeast(t + 1, m);
    LeastIs(m, t + 1);
    assert m - {t + 1} == LastOfThree(a);
    assert t + 2 in LastOfThree(a);
  }

  lemma PutBelowLast(s: Source, a: Envelope, b: Envelope, max: nat)
    requires 3 <= max && s.entries == LastOfThree(a) && b.timestamp == a.timestamp + 1
    ensures Insert(s, b, max).entries == map[b.timestamp := b, b.timestamp + 1 := a]
  {
    assert s.entries.Keys == {a.timestamp + 2};
    PutBelowCapacity(s, b, max, b.timestamp);
  }

  lemma SourceAfterPut(ops: seq<Op>, e: Envelope, id: SourceId, max: nat)
    requires 1 <= max
    ensures SourceOf(Run(ops + [PutOp(e, id)], max).store, id) == Insert(SourceOf(Run(ops, max).store, id), e, max)
  {
    assert (ops + [PutOp(e, id)])[..|ops|] == ops;
  }

  lemma SourceAfterExpire(ops: seq<Op>, id: SourceId, max: nat)
    requires 1 <= max && SourceOf(Run(ops, max).store, id).entries != map[]
    ensures SourceOf(Run(ops + [ExpireOp(id)], max).store, id) == ExpireSource(SourceOf(Run(ops, max).store, id))
  {
    assert (ops + [ExpireOp(id)])[..|ops|] == ops;
  }

  lemma RunOfThree(a: Envelope, id: SourceId, max: nat)
    requires 3 <= max
    ensures SourceOf(Run([PutOp(a, id), PutOp(a, id), PutOp(a, id)], max).store, id) == ThreePuts(a, max)
  {
    hide Insert, Run;
    var p := PutOp(a, id);
    NothingRun(id, max);
    SourceAfterPut([], a, id, max);
    SourceAfterPut([p], a, id, max);
    SourceAfterPut([p, p], a, id, max);
    assert [] + [p] == [p] && [p] + [p] == [p, p] && [p, p] + [p] == [p, p, p];
  }

  lemma NothingRun(id: SourceId, max: nat)
    requires 1 <= max
    ensures SourceOf(Run([], max).store, id) == EMPTY_SOURCE
  {
  }

  lemma RunOfSix(a: Envelope, b: Envelope, id: SourceId, max: nat)
    requires 3 <= max && ThreePuts(a, max).entries != map[] && ExpireSource(ThreePuts(a, max)).entries != map[]
    requires ExpireSource(ExpireSource(ThreePuts(a, max))).entries != map[]
    ensures SourceOf(Run(PutsAroundTruncation(a, b, id), max).store, id)
      == Insert(ExpireSource(ExpireSource(ThreePuts(a, max))), b, max)
  {
    hide Insert, ExpireSource, ThreePuts, Run;
    var p, x := PutOp(a, id), ExpireOp(id);
    RunOfThree(a, id, max);
    SourceAfterExpire([p, p, p], id, max);
    assert [p, p, p] + [x] == [p, p, p, x];
    SourceAfterExpire([p, p, p, x], id, max);
    assert [p, p, p, x] + [x] == [p, p, p, x, x];
    SourceAfterPut([p, p, p, x, x], b, id, max);
    assert [p, p, p, x, x] + [PutOp(b, id)] == PutsAroundTruncation(a, b, id);
  }

  /** The source is never full, and yet the newest envelope ends up below an older one. */
  lemma TruncationBreaksOrder(a: Envelope, b: Envelope, id: SourceId, max: nat)
    requires 3 <= max && b.timestamp == a.timestamp + 1
    ensures HeldBy(PutsAroundTruncation(a, b, id), id, max) == map[b.timestamp := b, b.timestamp + 1 := a]
    ensures !OrderConsistent(HeldBy(PutsAroundTruncation(a, b, id), id, max))
  {
    hide Insert, ExpireSource, ThreePuts, Run;
    var three := ThreePuts(a, max);
    ThreePutsHold(a, max);
    assert a.timestamp in three.entries;
    TwoExpire(three, a);
    assert a.timestamp + 2 in LastOfThree(a);
    RunOfSix(a, b, id, max);
    PutBelowLast(ExpireSource(ExpireSource(three)), a, b, max);
    var m := map[b.timestamp := b, b.timestamp + 1 := a];
    assert m[b.timestamp].timestamp > m[b.timestamp + 1].timestamp;
  }

  /** The tree these steps leave: the surviving envelope with the new one to its left. */
  function SurvivorTree(a: Envelope, b: Envelope): Tree<Envelope> {
    Node(Node(Nil, b.timestamp, b, Nil), b.timestamp + 1, a, Nil)
  }

  /** On it a reader who asks for the new envelope's time gets nothing. */
  lemma TruncationHidesNewest(a: Envelope, b: Envelope, id: SourceId, max: nat)
    requires 3 <= max && b.timestamp == a.timestamp + 1
    ensures var n, q := SurvivorTree(a, b), PlainQuery(b.timestamp, b.timestamp + 1, 10);
      && IsBst(n) && Contents(n) == HeldBy(PutsAroundTruncation(a, b, id), id, max)
      && Read(n, q) == [] && Matches(Timeline(n, false), q) == [b]
  {
    hide HeldBy, PutsAroundTruncation;
    TruncationBreaksOrder(a, b, id, max);
    SurvivorContents(a, b);
    SurvivorRead(a, b);
  }

  lemma SurvivorContents(a: Envelope, b: Envelope)
    ensures IsBst(SurvivorTree(a, b)) && Contents(SurvivorTree(a, b)) == map[b.timestamp := b, b.timestamp + 1 := a]
    ensures Timeline(SurvivorTree(a, b), false) == [Entry(b.timestamp, b), Entry(b.timestamp + 1, a)]
  {
    var t := b.timestamp;
    var l: Tree<Envelope> := Node(Nil, t, b, Nil);
    assert Contents(l) == Merge(map[], t, b, map[]) == map[t := b];
    assert IsBst(l);
    assert Merge(map[t := b], t + 1, a, map[]) == map[t := b, t + 1 := a];
    assert Timeline(l, false) == [] + [Entry(t, b)] + [] == [Entry(t, b)];
  }

  lemma SurvivorRead(a: Envelope, b: Envelope)
    requires b.timestamp == a.timestamp + 1
    ensures var q := PlainQuery(b.timestamp, b.timestamp + 1, 10);
      Read(SurvivorTree(a, b), q) == [] && Matches([Entry(b.timestamp, b), Entry(b.timestamp + 1, a)], q) == [b]
  {
    var t, q := b.timestamp, PlainQuery(b.timestamp, b.timestamp + 1, 10);
    var x, y := Entry(t, b), Entry(t + 1, a);
    assert [x, y][1..] == [y] && [y][1..] == [];
    assert Matches([y], q) == [];
    assert TreeAscTraverse(Nil, q, []) == Outcome(false, []);
    assert TreeAscTraverse(SurvivorTree(a, b), q, []) == TreeAscTraverse(Nil, q, []);
  }
}

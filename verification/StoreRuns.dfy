/**
 What every run of the store keeps. A run is any sequence of puts and expirations; a truncation is a
 run of expirations. The state is tracked together with the history that the counters summarise.
 */
module StoreRuns {
  import opened Envelopes
  import opened SearchTrees
  import opened StoreModel

  datatype Op = PutOp(e: Envelope, id: SourceId) | ExpireOp(id: SourceId)

  /** The store with, per indexed source, the envelopes put since its creation and how many were overwritten. */
  datatype Tracked = Tracked(
    store: State,
    puts: map<SourceId, seq<Envelope>>,
    lost: map<SourceId, nat>,
    overwritten: nat)

  const START := Tracked(EMPTY, map[], map[], 0)

  ghost function Step(t: Tracked, op: Op, max: nat): Tracked
    requires 1 <= max
  {
    match op
    case PutOp(e, id) =>
      var w := if Overwrites(SourceOf(t.store, id), e, max) then 1 else 0;
      Tracked(
        StoreModel.Put(t.store, e, id, max),
        t.puts[id := PutsOf(t, id) + [e]],
        t.lost[id := LostOf(t, id) + w],
        t.overwritten + w)
    case ExpireOp(id) =>
      if id !in t.store.sources || t.store.sources[id].entries == map[] then t else
      var store := Expire(t.store, id);
      if id in store.sources then t.(store := store)
      else t.(store := store, puts := t.puts - {id}, lost := t.lost - {id})
  }

  ghost function PutsOf(t: Tracked, id: SourceId): seq<Envelope> {
    if id in t.puts then t.puts[id] else []
  }

  ghost function LostOf(t: Tracked, id: SourceId): nat {
    if id in t.lost then t.lost[id] else 0
  }

  ghost function Run(ops: seq<Op>, max: nat): Tracked
    requires 1 <= max
  {
    if ops == [] then START else Step(Run(ops[..|ops| - 1], max), ops[|ops| - 1], max)
  }

  // ---------- the invariant of one source ----------

  /** The newest timestamp as the store reports it: zero or the largest timestamp put. */
  ghost predicate IsNewest(n: int, ps: seq<Envelope>) {
    && n >= 0
    && (forall i :: 0 <= i < |ps| ==> ps[i].timestamp <= n)
    && (n == 0 || exists i :: 0 <= i < |ps| && ps[i].timestamp == n)
  }

  ghost predicate Increasing(ps: seq<Envelope>) {
    forall i, j :: 0 <= i < j < |ps| ==> ps[i].timestamp < ps[j].timestamp
  }

  /** `m` is exactly `ps[from..]`, keyed by timestamp. */
  ghost predicate HoldsFrom(m: map<int, Envelope>, ps: seq<Envelope>, from: int) {
    && 0 <= from <= |ps|
    && (forall i :: from <= i < |ps| ==> ps[i].timestamp in m && m[ps[i].timestamp] == ps[i])
    && (forall k :: k in m ==> exists i :: from <= i < |ps| && ps[i].timestamp == k)
  }

  ghost predicate FudgeBounded(m: map<int, Envelope>) {
    forall k :: k in m ==> 0 <= k - m[k].timestamp <= MAX_FUDGE
  }

  ghost predicate FromPuts(m: map<int, Envelope>, ps: seq<Envelope>) {
    forall k :: k in m ==> m[k] in ps
  }

  ghost predicate SourceInvariant(s: Source, ps: seq<Envelope>, lost: nat, max: nat) {
    && 1 <= |s.entries| <= max
    && s.entries != map[] && s.oldest == LeastKey(s.entries)
    && FudgeBounded(s.entries)
    && FromPuts(s.entries, ps)
    && IsNewest(s.newest, ps)
    && |ps| == |s.entries| + s.expired + lost
    && (Increasing(ps) ==> lost == 0 && HoldsFrom(s.entries, ps, |ps| - |s.entries|))
  }

  /** The part of the invariant an empty, just created source satisfies too. */
  ghost predicate Ready(s: Source, ps: seq<Envelope>, lost: nat, max: nat) {
    (s == EMPTY_SOURCE && ps == [] && lost == 0) || SourceInvariant(s, ps, lost, max)
  }

  lemma IncreasingPrefix(ps: seq<Envelope>, e: Envelope)
    requires Increasing(ps + [e])
    ensures Increasing(ps) && forall i :: 0 <= i < |ps| ==> ps[i].timestamp < e.timestamp
  {
    var qs := ps + [e];
    assert forall i :: 0 <= i < |ps| ==> qs[i] == ps[i];
    assert qs[|ps|] == e;
  }

  lemma LeastOfSuffix(m: map<int, Envelope>, ps: seq<Envelope>, from: int)
    requires HoldsFrom(m, ps, from) && Increasing(ps) && m != map[]
    ensures from < |ps| && LeastKey(m) == ps[from].timestamp
    ensures HoldsFrom(m - {LeastKey(m)}, ps, from + 1)
  {
    var k := LeastKey(m);
    var i :| from <= i < |ps| && ps[i].timestamp == k;
    assert ps[from].timestamp in m;
    assert ps[from].timestamp == k;
    var m' := m - {k};
    forall j | j in m' ensures exists i :: from + 1 <= i < |ps| && ps[i].timestamp == j {
      var i :| from <= i < |ps| && ps[i].timestamp == j;
    }
  }

  /** A strictly newer envelope keeps its own timestamp as key and extends the suffix. */
  lemma ExtendSuffix(m: map<int, Envelope>, ps: seq<Envelope>, from: int, e: Envelope)
    requires HoldsFrom(m, ps, from) && Increasing(ps + [e])
    ensures KeyFor(m, e.timestamp) == e.timestamp && e.timestamp !in m
    ensures HoldsFrom(m[e.timestamp := e], ps + [e], from)
  {
    IncreasingPrefix(ps, e);
    KeysBelow(m, ps, from, e);
    KeyIsUnique(m, e.timestamp, e.timestamp);
    SuffixGrows(m, ps, from, e);
  }

  lemma KeysBelow(m: map<int, Envelope>, ps: seq<Envelope>, from: int, e: Envelope)
    requires HoldsFrom(m, ps, from) && Increasing(ps + [e])
    ensures forall k :: k in m ==> k < e.timestamp
  {
    var qs := ps + [e];
    forall k | k in m ensures k < e.timestamp {
      var i :| from <= i < |ps| && ps[i].timestamp == k;
      assert qs[i] == ps[i] && qs[|ps|] == e;
    }
  }

  lemma SuffixGrows(m: map<int, Envelope>, ps: seq<Envelope>, from: int, e: Envelope)
    requires HoldsFrom(m, ps, from) && forall k :: k in m ==> k < e.timestamp
    ensures HoldsFrom(m[e.timestamp := e], ps + [e], from)
  {
    var qs, m' := ps + [e], m[e.timestamp := e];
    assert forall i :: 0 <= i < |ps| ==> qs[i] == ps[i];
    assert qs[|ps|] == e;
    forall k | k in m' ensures exists i :: from <= i < |qs| && qs[i].timestamp == k {
      if k in m {
        var i :| from <= i < |ps| && ps[i].timestamp == k;
        assert qs[i].timestamp == k;
      }
    }
  }

  lemma InsertKeepsSuffix(s: Source, ps: seq<Envelope>, lost: nat, e: Envelope, max: nat)
    requires 1 <= max && Ready(s, ps, lost, max) && Increasing(ps + [e])
    ensures !Overwrites(s, e, max) && lost == 0
    ensures HoldsFrom(Insert(s, e, max).entries, ps + [e], |ps| + 1 - |Insert(s, e, max).entries|)
  {
    IncreasingPrefix(ps, e);
    RoomSize(s, max);
    InsertSize(s, e, max);
    var from := |ps| - |s.entries|;
    if Full(s, max) {
      LeastOfSuffix(s.entries, ps, from);
      ExtendSuffix(Room(s, max), ps, from + 1, e);
    } else {
      ExtendSuffix(Room(s, max), ps, from, e);
    }
  }

  lemma NewestStep(n: int, ps: seq<Envelope>, e: Envelope)
    requires IsNewest(n, ps)
    ensures IsNewest(if e.timestamp > n then e.timestamp else n, ps + [e])
  {
    var qs := ps + [e];
    assert forall i :: 0 <= i < |ps| ==> qs[i] == ps[i];
    assert qs[|ps|] == e;
  }

  lemma InsertKeepsBounds(m: map<int, Envelope>, ps: seq<Envelope>, e: Envelope)
    requires FudgeBounded(m) && FromPuts(m, ps)
    ensures FudgeBounded(m[KeyFor(m, e.timestamp) := e]) && FromPuts(m[KeyFor(m, e.timestamp) := e], ps + [e])
  {
  }

  lemma RoomKeepsBounds(s: Source, ps: seq<Envelope>, max: nat)
    requires 1 <= max && FudgeBounded(s.entries) && FromPuts(s.entries, ps)
    ensures FudgeBounded(Room(s, max)) && FromPuts(Room(s, max), ps)
  {
  }

  lemma InsertKeeps(s: Source, ps: seq<Envelope>, lost: nat, e: Envelope, max: nat)
    requires 1 <= max && Ready(s, ps, lost, max)
    ensures SourceInvariant(Insert(s, e, max), ps + [e], LostAfter(s, e, lost, max), max)
  {
    InsertSize(s, e, max);
    RoomSize(s, max);
    RoomKeepsBounds(s, ps, max);
    InsertKeepsBounds(Room(s, max), ps, e);
    NewestStep(s.newest, ps, e);
    if Increasing(ps + [e]) { InsertKeepsSuffix(s, ps, lost, e, max); }
  }

  lemma ExpireKeeps(s: Source, ps: seq<Envelope>, lost: nat, max: nat)
    requires SourceInvariant(s, ps, lost, max) && ExpireSource(s).entries != map[]
    ensures SourceInvariant(ExpireSource(s), ps, lost, max)
  {
    ExpireSize(s);
    var r := ExpireSource(s);
    assert |r.entries| != 0;
    if Increasing(ps) { LeastOfSuffix(s.entries, ps, |ps| - |s.entries|); }
  }

  // ---------- the invariant of every run ----------

  /** Everything taken in was expired or is counted, and the count exceeds what is held by exactly the overwritten. */
  ghost predicate Balanced(t: Tracked) {
    && t.store.ingress == t.store.expired + t.store.count
    && t.store.count == Total(t.store) + t.overwritten
  }

  ghost predicate SourcesKept(t: Tracked, max: nat) {
    && t.puts.Keys == t.store.sources.Keys
    && t.lost.Keys == t.store.sources.Keys
    && forall id :: id in t.store.sources ==> SourceInvariant(t.store.sources[id], t.puts[id], t.lost[id], max)
  }

  ghost predicate Invariant(t: Tracked, max: nat) {
    Balanced(t) && SourcesKept(t, max)
  }

  lemma KeptUpdate(t: Tracked, u: Tracked, id: SourceId, r: Source, ps: seq<Envelope>, lost: nat, max: nat)
    requires SourcesKept(t, max) && SourceInvariant(r, ps, lost, max)
    requires u.store.sources == t.store.sources[id := r] && u.puts == t.puts[id := ps] && u.lost == t.lost[id := lost]
    ensures SourcesKept(u, max)
  {
    hide SourceInvariant;
  }

  lemma KeptRemove(t: Tracked, u: Tracked, id: SourceId, max: nat)
    requires SourcesKept(t, max)
    requires u.store.sources == t.store.sources - {id} && u.puts == t.puts - {id} && u.lost == t.lost - {id}
    ensures SourcesKept(u, max)
  {
  }

  lemma PutKeepsSources(t: Tracked, e: Envelope, id: SourceId, max: nat)
    requires 1 <= max && SourcesKept(t, max)
    ensures SourcesKept(Step(t, PutOp(e, id), max), max)
  {
    var s, ps, l := SourceOf(t.store, id), PutsOf(t, id), LostOf(t, id);
    ReadyForPut(t, id, max);
    InsertKeeps(s, ps, l, e, max);
    StepPut(t, e, id, max);
    KeptUpdate(t, Step(t, PutOp(e, id), max), id, Insert(s, e, max), ps + [e], LostAfter(s, e, l, max), max);
  }

  ghost function LostAfter(s: Source, e: Envelope, lost: nat, max: nat): nat
    requires 1 <= max
  {
    lost + (if Overwrites(s, e, max) then 1 else 0)
  }

  lemma ReadyForPut(t: Tracked, id: SourceId, max: nat)
    requires SourcesKept(t, max)
    ensures Ready(SourceOf(t.store, id), PutsOf(t, id), LostOf(t, id), max)
  {
  }

  lemma StepPut(t: Tracked, e: Envelope, id: SourceId, max: nat)
    requires 1 <= max
    ensures var u, s := Step(t, PutOp(e, id), max), SourceOf(t.store, id);
      && u.store.sources == t.store.sources[id := Insert(s, e, max)]
      && u.puts == t.puts[id := PutsOf(t, id) + [e]]
      && u.lost == t.lost[id := LostAfter(s, e, LostOf(t, id), max)]
  {
  }

  lemma StepExpire(t: Tracked, id: SourceId, max: nat)
    requires 1 <= max && id in t.store.sources && t.store.sources[id].entries != map[]
    ensures var u, r := Step(t, ExpireOp(id), max), ExpireSource(t.store.sources[id]);
      if r.entries != map[]
      then u.store.sources == t.store.sources[id := r] && u.puts == t.puts && u.lost == t.lost
      else u.store.sources == t.store.sources - {id} && u.puts == t.puts - {id} && u.lost == t.lost - {id}
  {
  }

  lemma PutKeepsBalance(t: Tracked, e: Envelope, id: SourceId, max: nat)
    requires 1 <= max && Balanced(t) && |SourceOf(t.store, id).entries| <= max
    ensures Balanced(Step(t, PutOp(e, id), max))
  {
    TotalAfterPut(t.store, e, id, max);
    InsertSize(SourceOf(t.store, id), e, max);
    RoomSize(SourceOf(t.store, id), max);
  }

  lemma SurvivorKept(t: Tracked, id: SourceId, max: nat)
    requires 1 <= max && SourcesKept(t, max) && id in t.store.sources
    requires SourceInvariant(t.store.sources[id], t.puts[id], t.lost[id], max)
    requires ExpireSource(t.store.sources[id]).entries != map[]
    ensures SourcesKept(Step(t, ExpireOp(id), max), max)
  {
    var r := ExpireSource(t.store.sources[id]);
    StepExpire(t, id, max);
    ExpireKeeps(t.store.sources[id], t.puts[id], t.lost[id], max);
    SameUpdate(t.puts, id);
    SameUpdate(t.lost, id);
    KeptUpdate(t, Step(t, ExpireOp(id), max), id, r, t.puts[id], t.lost[id], max);
  }

  lemma SameUpdate<V>(m: map<SourceId, V>, id: SourceId)
    requires id in m
    ensures m == m[id := m[id]]
  {
  }

  lemma ExpireKeepsSources(t: Tracked, id: SourceId, max: nat)
    requires 1 <= max && SourcesKept(t, max)
    ensures SourcesKept(Step(t, ExpireOp(id), max), max)
  {
    if id in t.store.sources {
      assert SourceInvariant(t.store.sources[id], t.puts[id], t.lost[id], max);
      if ExpireSource(t.store.sources[id]).entries != map[] {
        SurvivorKept(t, id, max);
      } else {
        StepExpire(t, id, max);
        KeptRemove(t, Step(t, ExpireOp(id), max), id, max);
      }
    }
  }

  lemma StepKeepsInvariant(t: Tracked, op: Op, max: nat)
    requires 1 <= max && Invariant(t, max)
    ensures Invariant(Step(t, op, max), max)
  {
    match op
    case PutOp(e, id) =>
      PutKeepsSources(t, e, id, max);
      assert |SourceOf(t.store, id).entries| <= max;
      PutKeepsBalance(t, e, id, max);
    case ExpireOp(id) =>
      ExpireKeepsSources(t, id, max);
      if id in t.store.sources { TotalAfterExpire(t.store, id); }
  }

  /** Conservation and the per-source bounds hold after every run of puts and expirations. */
  lemma {:induction false} EveryRunKeepsInvariant(ops: seq<Op>, max: nat)
    requires 1 <= max
    ensures Invariant(Run(ops, max), max)
  {
    if ops == [] {
      assert Sizes(EMPTY) == map[];
    } else {
      var prefix, op := ops[..|ops| - 1], ops[|ops| - 1];
      EveryRunKeepsInvariant(prefix, max);
      StepKeepsInvariant(Run(prefix, max), op, max);
    }
  }

  /**
   What is reported about a source after any run: what is held, expired and lost adds up to what was put, the newest
   timestamp is that of the newest put and the oldest one the least key held.
   */
  lemma EveryRunReports(ops: seq<Op>, max: nat, id: SourceId)
    requires 1 <= max && id in Run(ops, max).store.sources
    ensures var t := Run(ops, max);
      && id in t.puts && id in t.lost
      && var r := Reported(t.store.sources[id]);
      && 1 <= r.count <= max && r.count + r.expired + t.lost[id] == |t.puts[id]|
      && IsNewest(r.newestTimestamp, t.puts[id])
      && IsLeast(r.oldestTimestamp, t.store.sources[id].entries)
  {
    hide Run, IsNewest, FudgeBounded, FromPuts, HoldsFrom, Increasing;
    EveryRunKeepsInvariant(ops, max);
  }

  ghost function Puts(ops: seq<Op>): nat {
    if ops == [] then 0 else Puts(ops[..|ops| - 1]) + if ops[|ops| - 1].PutOp? then 1 else 0
  }

  /** Every put is counted as taken in, and it was expired, is held, or was overwritten. */
  lemma {:induction false} EveryPutIsCounted(ops: seq<Op>, max: nat)
    requires 1 <= max
    ensures var t := Run(ops, max);
      t.store.ingress == Puts(ops) == t.store.expired + Total(t.store) + t.overwritten
  {
    hide Step, Total;
    EveryRunKeepsInvariant(ops, max);
    IngressIsPuts(ops, max);
  }

  lemma {:induction false} IngressIsPuts(ops: seq<Op>, max: nat)
    requires 1 <= max
    ensures Run(ops, max).store.ingress == Puts(ops)
  {
    hide Insert, Overwrites, Full;
    if ops != [] { IngressIsPuts(ops[..|ops| - 1], max); }
  }
}

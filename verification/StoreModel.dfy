/**
 The store as a value: what one source holds, what the whole store holds, and the effect of the two
 atomic steps every operation is made of - inserting an envelope and expiring a source's oldest one.
 */
module StoreModel {
  import opened Envelopes
  import opened SearchTrees

  const MAX_FUDGE := 4000

  // ---------- least keys ----------

  lemma Pick<T>(a: set<T>) returns (x: T)
    requires a != {}
    ensures x in a
  {
    x :| x in a;
  }

  lemma {:induction false} LeastExists<V>(m: map<int, V>)
    requires m != map[]
    ensures exists k :: IsLeast(k, m)
    decreases |m|
  {
    var x := Pick(m.Keys);
    var rest := m - {x};
    assert forall y :: y in m ==> y == x || y in rest;
    if rest == map[] {
      assert IsLeast(x, m);
    } else {
      assert |rest.Keys| == |m.Keys| - 1 by { assert rest.Keys == m.Keys - {x}; }
      LeastExists(rest);
      var y :| IsLeast(y, rest);
      assert IsLeast(if x < y then x else y, m);
    }
  }

  ghost function LeastKey<V>(m: map<int, V>): (k: int)
    requires m != map[]
    ensures IsLeast(k, m)
  {
    LeastExists(m);
    var k :| IsLeast(k, m);
    k
  }

  // ---------- choosing a key ----------

  /** The smallest unused offset from `t` starting at `f`, or the last offset if there is none. */
  ghost function FreeFudge(m: map<int, Envelope>, t: int, f: nat): (g: nat)
    requires f <= MAX_FUDGE
    ensures f <= g <= MAX_FUDGE
    ensures forall k :: t + f <= k < t + g ==> k in m
    ensures g == MAX_FUDGE || t + g !in m
    decreases MAX_FUDGE - f
  {
    if f == MAX_FUDGE || t + f !in m then f else FreeFudge(m, t, f + 1)
  }

  ghost function KeyFor(m: map<int, Envelope>, t: int): (k: int)
    ensures t <= k <= t + MAX_FUDGE
    ensures forall i :: t <= i < k ==> i in m
    ensures k == t + MAX_FUDGE || k !in m
  {
    var g := FreeFudge(m, t, 0);
    t + g
  }

  lemma KeyIsUnique(m: map<int, Envelope>, t: int, k: int)
    requires t <= k <= t + 4000 && (k == t + 4000 || k !in m)
    requires forall i :: t <= i < k ==> i in m
    ensures KeyFor(m, t) == k
  {
    assert KeyFor(m, t) < k ==> KeyFor(m, t) in m;
  }

  // ---------- one source ----------

  datatype Source = Source(entries: map<int, Envelope>, expired: nat, oldest: int, newest: int)

  const EMPTY_SOURCE := Source(map[], 0, 0, 0)

  ghost predicate Full(s: Source, max: nat) {
    |s.entries| >= max
  }

  /** The entries after making room. */
  ghost function Room(s: Source, max: nat): map<int, Envelope>
    requires 1 <= max
  {
    if Full(s, max) then s.entries - {LeastKey(s.entries)} else s.entries
  }

  /** The envelope lands on a key that is in use, so one envelope is lost. */
  ghost predicate Overwrites(s: Source, e: Envelope, max: nat)
    requires 1 <= max
  {
    KeyFor(Room(s, max), e.timestamp) in Room(s, max)
  }

  ghost function Insert(s: Source, e: Envelope, max: nat): Source
    requires 1 <= max
  {
    var m := Room(s, max);
    var k := KeyFor(m, e.timestamp);
    var entries := m[k := e];
    assert k in entries;
    Source(
      entries,
      if Full(s, max) then s.expired + 1 else s.expired,
      LeastKey(entries),
      if e.timestamp > s.newest then e.timestamp else s.newest)
  }

  lemma RoomWhenFull(s: Source, max: nat, k: int)
    requires 1 <= max && Full(s, max) && IsLeast(k, s.entries)
    ensures s.entries - {k} == Room(s, max)
  {
    assert k == LeastKey(s.entries);
  }

  lemma RoomWhenNotFull(s: Source, max: nat)
    requires 1 <= max && !Full(s, max)
    ensures s.entries == Room(s, max)
  {
  }

  lemma InsertIs(s: Source, e: Envelope, max: nat, r: Source)
    requires 1 <= max
    requires r.entries == Room(s, max)[KeyFor(Room(s, max), e.timestamp) := e] && IsLeast(r.oldest, r.entries)
    requires r.expired == if Full(s, max) then s.expired + 1 else s.expired
    requires r.newest == if e.timestamp > s.newest then e.timestamp else s.newest
    ensures r == Insert(s, e, max)
  {
  }

  /** What is reported about a source. */
  ghost function Reported(s: Source): MetaInfo {
    MetaInfo(|s.entries|, s.expired, s.oldest, s.newest)
  }

  // ---------- the store ----------

  datatype State = State(sources: map<SourceId, Source>, count: int, ingress: nat, expired: nat)

  const EMPTY := State(map[], 0, 0, 0)

  ghost function SourceOf(s: State, id: SourceId): Source {
    if id in s.sources then s.sources[id] else EMPTY_SOURCE
  }

  ghost function Put(s: State, e: Envelope, id: SourceId, max: nat): State
    requires 1 <= max
  {
    var prior := SourceOf(s, id);
    State(
      s.sources[id := Insert(prior, e, max)],
      if Full(prior, max) then s.count else s.count + 1,
      s.ingress + 1,
      if Full(prior, max) then s.expired + 1 else s.expired)
  }

  lemma PutIs(s: State, e: Envelope, id: SourceId, max: nat, t: State)
    requires 1 <= max
    requires t.sources == s.sources[id := SourceOf(s, id)][id := Insert(SourceOf(s, id), e, max)]
    requires t.count == if Full(SourceOf(s, id), max) then s.count else s.count + 1
    requires t.expired == if Full(SourceOf(s, id), max) then s.expired + 1 else s.expired
    requires t.ingress == s.ingress + 1
    ensures t == Put(s, e, id, max)
  {
  }

  ghost function ExpireSource(s: Source): Source
    requires s.entries != map[]
  {
    var entries := s.entries - {LeastKey(s.entries)};
    if entries == map[] then EMPTY_SOURCE
    else Source(entries, s.expired + 1, LeastKey(entries), s.newest)
  }

  /** Remove the oldest envelope of a source; a source that becomes empty leaves the index. */
  ghost function Expire(s: State, id: SourceId): State
    requires id in s.sources && s.sources[id].entries != map[]
  {
    var src := ExpireSource(s.sources[id]);
    State(
      if src.entries == map[] then s.sources - {id} else s.sources[id := src],
      s.count - 1,
      s.ingress,
      s.expired + 1)
  }

  /** The source after losing its least key, with up-to-date counters unless nothing is left. */
  ghost predicate Expired(s: Source, r: Source, k: int, left: bool) {
    && IsLeast(k, s.entries) && r.entries == s.entries - {k}
    && (left ==> IsLeast(r.oldest, r.entries) && r.expired == s.expired + 1 && r.newest == s.newest)
  }

  lemma ExpireIs(s: State, id: SourceId, r: Source, k: int, left: bool, t: State)
    requires id in s.sources && Expired(s.sources[id], r, k, left) && (left <==> r.entries != map[])
    requires t.sources == if left then s.sources[id := r] else s.sources - {id}
    requires t.count == s.count - 1 && t.ingress == s.ingress && t.expired == s.expired + 1
    ensures s.sources[id].entries != map[] && t == Expire(s, id)
  {
    assert k == LeastKey(s.sources[id].entries);
  }

  // ---------- sizes ----------

  ghost function Sizes(s: State): map<SourceId, nat> {
    map id | id in s.sources :: |s.sources[id].entries|
  }

  ghost function Sum(m: map<SourceId, nat>): (n: nat)
    decreases |m|
  {
    if m == map[] then 0 else
    var k :| k in m;
    Shrinks(m, k);
    m[k] + Sum(m - {k})
  }

  lemma Shrinks<V>(m: map<SourceId, V>, k: SourceId)
    requires k in m
    ensures |m - {k}| == |m| - 1
  {
    assert (m - {k}).Keys == m.Keys - {k};
  }

  lemma {:induction false} SumRemove(m: map<SourceId, nat>, k: SourceId)
    requires k in m
    ensures Sum(m) == m[k] + Sum(m - {k})
    decreases |m|
  {
    var j :| j in m && Sum(m) == m[j] + Sum(m - {j});
    if j != k {
      Shrinks(m, j);
      SumRemove(m - {j}, k);
      assert m - {j} - {k} == m - {k} - {j};
      Shrinks(m, k);
      SumRemove(m - {k}, j);
    }
  }

  lemma SumUpdate(m: map<SourceId, nat>, k: SourceId, v: nat)
    ensures Sum(m[k := v]) == v + Sum(m - {k})
  {
    SumRemove(m[k := v], k);
    assert m[k := v] - {k} == m - {k};
  }

  /** The number of envelopes the indexed sources hold. */
  ghost function Total(s: State): nat {
    Sum(Sizes(s))
  }

  lemma TotalSplit(s: State, id: SourceId)
    ensures Total(s) == |SourceOf(s, id).entries| + Sum(Sizes(s) - {id})
  {
    if id in s.sources {
      SumRemove(Sizes(s), id);
    } else {
      assert Sizes(s) - {id} == Sizes(s);
    }
  }

  /** If the states agree on all sources but one, their totals differ by that source's change. */
  lemma TotalElsewhere(s: State, t: State, id: SourceId)
    requires s.sources - {id} == t.sources - {id}
    ensures Total(t) - Total(s) == |SourceOf(t, id).entries| - |SourceOf(s, id).entries|
  {
    TotalSplit(s, id);
    TotalSplit(t, id);
    SizesElsewhere(s, id);
    SizesElsewhere(t, id);
  }

  lemma SizesElsewhere(s: State, id: SourceId)
    ensures Sizes(s) - {id} == Sizes(s.(sources := s.sources - {id}))
  {
  }

  lemma TotalAfterPut(s: State, e: Envelope, id: SourceId, max: nat)
    requires 1 <= max
    ensures Total(Put(s, e, id, max)) - Total(s)
      == |Insert(SourceOf(s, id), e, max).entries| - |SourceOf(s, id).entries|
  {
    var r := Insert(SourceOf(s, id), e, max);
    UpdateElsewhere(s.sources, id, r);
    TotalElsewhere(s, Put(s, e, id, max), id);
  }

  lemma UpdateElsewhere(m: map<SourceId, Source>, id: SourceId, r: Source)
    ensures m[id := r] - {id} == m - {id} && m - {id} - {id} == m - {id}
  {
  }

  lemma TotalAfterExpire(s: State, id: SourceId)
    requires id in s.sources && s.sources[id].entries != map[]
    ensures Total(Expire(s, id)) == Total(s) - 1
  {
    UpdateElsewhere(s.sources, id, ExpireSource(s.sources[id]));
    TotalElsewhere(s, Expire(s, id), id);
    ExpireSize(s.sources[id]);
  }

  // ---------- what one step does to one source ----------

  lemma ExpireSize(s: Source)
    requires s.entries != map[]
    ensures |ExpireSource(s).entries| == |s.entries| - 1
    ensures ExpireSource(s).entries == s.entries - {LeastKey(s.entries)}
  {
    var k := LeastKey(s.entries);
    assert (s.entries - {k}).Keys == s.entries.Keys - {k};
  }

  lemma RoomSize(s: Source, max: nat)
    requires 1 <= max && |s.entries| <= max
    ensures |Room(s, max)| == if Full(s, max) then |s.entries| - 1 else |s.entries|
    ensures |Room(s, max)| < max
  {
    if Full(s, max) {
      var k := LeastKey(s.entries);
      assert (s.entries - {k}).Keys == s.entries.Keys - {k};
    }
  }

  lemma InsertSize(s: Source, e: Envelope, max: nat)
    requires 1 <= max && |s.entries| <= max
    ensures |Insert(s, e, max).entries| ==
      |Room(s, max)| + (if Overwrites(s, e, max) then 0 else 1)
    ensures 1 <= |Insert(s, e, max).entries| <= max
  {
    RoomSize(s, max);
    var m := Room(s, max);
    var k := KeyFor(m, e.timestamp);
    assert m[k := e].Keys == m.Keys + {k};
  }

  /** An envelope is overwritten exactly when all 4001 candidate keys are taken. */
  lemma OverwritesIff(s: Source, e: Envelope, max: nat)
    requires 1 <= max
    ensures Overwrites(s, e, max) <==>
      forall k :: e.timestamp <= k <= e.timestamp + MAX_FUDGE ==> k in Room(s, max)
  {
    var m, t := Room(s, max), e.timestamp;
    if forall k :: t <= k <= t + MAX_FUDGE ==> k in m {
      assert KeyFor(m, t) in m;
    }
  }

  /** A put moves the count away from what is held exactly when it overwrites an envelope. */
  lemma CountDriftsOnOverwrite(s: State, e: Envelope, id: SourceId, max: nat)
    requires 1 <= max && |SourceOf(s, id).entries| <= max
    ensures var t := Put(s, e, id, max);
      t.count - Total(t) == s.count - Total(s) + if Overwrites(SourceOf(s, id), e, max) then 1 else 0
  {
    TotalAfterPut(s, e, id, max);
    InsertSize(SourceOf(s, id), e, max);
    RoomSize(SourceOf(s, id), max);
  }

  /** The key search runs out only when 4001 consecutive keys are taken. */
  lemma SmallNeverOverwrites(s: Source, e: Envelope, max: nat)
    requires 1 <= max && |Room(s, max)| <= MAX_FUDGE
    ensures !Overwrites(s, e, max)
  {
    if Overwrites(s, e, max) {
      var m, t := Room(s, max), e.timestamp;
      assert Window(t, MAX_FUDGE + 1) <= m.Keys;
      SubsetSize(Window(t, MAX_FUDGE + 1), m.Keys);
    }
  }

  ghost function Window(t: int, n: nat): (w: set<int>)
    ensures forall i :: i in w <==> t <= i < t + n
    ensures |w| == n
  {
    if n == 0 then {} else Window(t, n - 1) + {t + n - 1}
  }

  lemma {:induction false} SubsetSize(a: set<int>, b: set<int>)
    requires a <= b
    ensures |a| <= |b|
  {
    if a != {} {
      var x := Pick(a);
      SubsetSize(a - {x}, b - {x});
    }
  }
}

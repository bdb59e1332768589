/** A run after which the recorded oldest timestamp is not that of the oldest envelope. */
module OldestTimestamps {
  import opened Envelopes
  import opened StoreModel
  import opened Truncation
  import opened Stores
  import SearchTrees

  lemma FreeTimestamp(s: Source, e: Envelope, max: nat, least: int)
    requires |s.entries| < max && e.timestamp !in s.entries
    requires SearchTrees.IsLeast(least, s.entries[e.timestamp := e])
    ensures Insert(s, e, max).entries == s.entries[e.timestamp := e] && Insert(s, e, max).oldest == least
  {
    KeyIsUnique(s.entries, e.timestamp, e.timestamp);
  }

  /** Two envelopes of one source, the later one second. */
  ghost function TwoPuts(e1: Envelope, e2: Envelope, max: nat): Source
    requires 1 <= max
  {
    Insert(Insert(EMPTY_SOURCE, e1, max), e2, max)
  }

  lemma TwoPutsHold(e1: Envelope, e2: Envelope, max: nat)
    requires 2 <= max && e1.timestamp < e2.timestamp
    ensures TwoPuts(e1, e2, max).entries == map[e1.timestamp := e1, e2.timestamp := e2]
    ensures TwoPuts(e1, e2, max).oldest == e1.timestamp
  {
    OnePutHolds(e1, max);
    var s := Insert(EMPTY_SOURCE, e1, max);
    assert s.entries.Keys == {e1.timestamp};
    FreeTimestamp(s, e2, max, e1.timestamp);
  }

  lemma OnePutHolds(e: Envelope, max: nat)
    requires 1 <= max
    ensures Insert(EMPTY_SOURCE, e, max).entries == map[e.timestamp := e]
    ensures Insert(EMPTY_SOURCE, e, max).oldest == e.timestamp
  {
    FreeTimestamp(EMPTY_SOURCE, e, max, e.timestamp);
  }

  ghost predicate BeforeTruncation(v: State, e1: Envelope, e2: Envelope, e3: Envelope, a: SourceId, b: SourceId) {
    && a != b && v.sources.Keys == {a, b} && v.count == 3 && OldestRecorded(v)
    && v.sources[a].entries == map[e1.timestamp := e1, e2.timestamp := e2]
    && v.sources[b].entries == map[e3.timestamp := e3]
  }

  lemma OnlyOldest(v: State, e1: Envelope, e2: Envelope, e3: Envelope, a: SourceId, b: SourceId, id: SourceId)
    requires BeforeTruncation(v, e1, e2, e3, a, b) && e1.timestamp < e2.timestamp < e3.timestamp
    requires IsOldest(v, id)
    ensures id == a
  {
    assert Holds(v, a, e1.timestamp);
  }

  lemma AfterTruncation(v: State, e1: Envelope, e2: Envelope, e3: Envelope, a: SourceId, b: SourceId)
    requires BeforeTruncation(v, e1, e2, e3, a, b) && e1.timestamp < e2.timestamp < e3.timestamp
    ensures var t := Expire(v, a);
      && t.sources.Keys == {a, b} && Holds(t, a, e2.timestamp)
      && t.sources[a].oldest == e2.timestamp && t.sources[b].oldest == e3.timestamp
  {
    var m := v.sources[a].entries;
    assert SearchTrees.IsLeast(e1.timestamp, m);
    assert LeastKey(m) == e1.timestamp;
    assert m - {e1.timestamp} == map[e2.timestamp := e2];
    assert e2.timestamp in m - {e1.timestamp};
    assert e3.timestamp in v.sources[b].entries;
  }

  lemma HoldsSome(v: State, a: SourceId)
    requires a in v.sources && v.sources[a].entries != map[]
    ensures Total(v) >= 1
  {
    TotalSplit(v, a);
    assert |v.sources[a].entries| > 0;
  }

  lemma ThreePuts(v1: State, v2: State, v3: State, e1: Envelope, e2: Envelope, e3: Envelope, a: SourceId, b: SourceId, max: nat)
    requires 2 <= max && a != b && e1.timestamp < e2.timestamp < e3.timestamp
    requires v1 == Put(EMPTY, e1, a, max) && v2 == Put(v1, e2, a, max) && v3 == Put(v2, e3, b, max)
    ensures BeforeTruncation(v3, e1, e2, e3, a, b)
  {
    hide Insert, OldestRecorded;
    OnePutHolds(e1, max);
    TwoPutsHold(e1, e2, max);
    OnePutHolds(e3, max);
    assert |Insert(EMPTY_SOURCE, e1, max).entries| == 1;
    NothingRecorded();
    PutRecordsOldest(EMPTY, e1, a, max);
    PutRecordsOldest(v1, e2, a, max);
    PutRecordsOldest(v2, e3, b, max);
  }

  lemma NothingRecorded()
    ensures OldestRecorded(EMPTY)
  {
  }

  method PutThree(e1: Envelope, e2: Envelope, e3: Envelope, a: SourceId, b: SourceId) returns (s: Store)
    requires a != b && e1.timestamp < e2.timestamp < e3.timestamp
    ensures fresh(s) && fresh(s.index.Values) && s.Settled() && BeforeTruncation(s.View(), e1, e2, e3, a, b)
  {
    hide Put, BeforeTruncation, Store.View, Store.Settled;
    s := new Store(2, 3);
    var _ := s.Put(e1, a);
    ghost var v1 := s.View();
    var _ := s.Put(e2, a);
    ghost var v2 := s.View();
    var _ := s.Put(e3, b);
    ThreePuts(v1, v2, s.View(), e1, e2, e3, a, b, 2);
  }

  /** Three puts and a truncation by one: the store records the second source's timestamp and holds an older envelope. */
  method RecordsANewerOne(e1: Envelope, e2: Envelope, e3: Envelope, a: SourceId, b: SourceId) returns (s: Store)
    requires a != b && e1.timestamp < e2.timestamp < e3.timestamp
    ensures s.Settled() && Holds(s.View(), a, e2.timestamp) && s.oldestTimestamp == e3.timestamp
  {
    hide Total, Expire, Store.Settled, Store.IsLiveOldest;
    s := PutThree(e1, e2, e3, a, b);
    ghost var v := s.View();
    HoldsSome(v, a);
    var outcome, ids := s.Truncate(1);
    OneRound(v, s.View(), ids);
    OnlyOldest(v, e1, e2, e3, a, b, ids[0]);
    AfterTruncation(v, e1, e2, e3, a, b);
    assert s.index.Keys == s.View().sources.Keys;
    RecordedIs(s, e2.timestamp, e3.timestamp, a, b);
  }

  lemma OneRound(v: State, t: State, ids: seq<SourceId>)
    requires TruncatesTo(v, ids, t) && |ids| == 1
    ensures IsOldest(v, ids[0]) && t == Expire(v, ids[0])
  {
    assert ids[1..] == [];
    assert ExpireAll(Expire(v, ids[0]), ids[1..]) == Expire(v, ids[0]);
  }

  lemma RecordedIs(s: Store, t2: int, t3: int, a: SourceId, b: SourceId)
    requires s.IsLiveOldest(s.oldestTimestamp) && s.index.Keys == {a, b} && a != b && t2 < t3
    requires s.index[a].oldest == t2 && s.index[b].oldest == t3
    ensures s.oldestTimestamp == t3
  {
    assert s.DistinctOldest();
    assert a in s.index.Keys && b in s.index.Keys;
    assert forall id :: s.index.Keys != {id};
  }
}

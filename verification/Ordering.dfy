/**
 When inserting keeps a source order-consistent, so that reads of it are complete. Producers mostly
 send non-decreasing timestamps; collisions are resolved upwards, so without evictions the new key is
 always the largest. An eviction can open a hole below fudged keys, and then it is not.
 */
module Ordering {
  import opened Envelopes
  import opened SearchTrees
  import opened Traversal
  import opened Completeness
  import opened Shapes
  import opened StoreModel
  import opened StoreRuns

  /** No timestamp is above `last`, and from `last` up to the largest key no key is free. */
  ghost predicate Packed(m: map<int, Envelope>, last: int) {
    && OrderConsistent(m)
    && (forall k :: k in m ==> m[k].timestamp <= last)
    && (forall a, k :: a in m && last <= k <= a ==> k in m)
  }

  /** A non-decreasing insert into a packed source takes a key above all others. */
  lemma InsertAbove(m: map<int, Envelope>, last: int, e: Envelope)
    requires Packed(m, last) && last <= e.timestamp && KeyFor(m, e.timestamp) !in m
    ensures forall a :: a in m ==> a < KeyFor(m, e.timestamp)
    ensures Packed(m[KeyFor(m, e.timestamp) := e], e.timestamp)
  {
    var k := KeyFor(m, e.timestamp);
    assert forall a :: a in m && last <= k <= a ==> k in m;
  }

  /** A non-decreasing insert keeps a source packed, even when it overwrites the largest key. */
  lemma InsertPacks(m: map<int, Envelope>, last: int, e: Envelope)
    requires Packed(m, last) && FudgeBounded(m) && last <= e.timestamp
    ensures Packed(m[KeyFor(m, e.timestamp) := e], e.timestamp)
  {
    var k := KeyFor(m, e.timestamp);
    if k in m {
      assert forall a :: a in m ==> a <= m[a].timestamp + MAX_FUDGE <= k;
    } else {
      InsertAbove(m, last, e);
    }
  }

  /** The insert would put a new envelope in the hole left by the evicted one, below an older envelope. */
  ghost predicate Undercuts(m: map<int, Envelope>, e: Envelope)
    requires m != map[]
  {
    e.timestamp == LeastKey(m) && exists k :: k in m && k != LeastKey(m) && m[k].timestamp < e.timestamp
  }

  /** At capacity a non-decreasing insert keeps the order exactly when it does not undercut. */
  lemma EvictingInsertKeepsOrderIff(m: map<int, Envelope>, last: int, e: Envelope)
    requires m != map[] && Packed(m, last) && FudgeBounded(m) && last <= e.timestamp
    ensures var room := m - {LeastKey(m)};
      var after := room[KeyFor(room, e.timestamp) := e];
      && (OrderConsistent(after) <==> !Undercuts(m, e))
      && (!Undercuts(m, e) ==> Packed(after, e.timestamp))
  {
    var a, t := LeastKey(m), e.timestamp;
    var room := m - {a};
    assert last <= a ==> last in m;
    if a == t {
      assert KeyFor(room, t) == t;
      HoleInsert(m, a, e, room[t := e]);
    } else {
      assert Packed(room, t) by {
        assert forall b, i :: b in room && t <= i <= b ==> i in m;
      }
      InsertPacks(room, t, e);
      assert !Undercuts(m, e);
    }
  }

  lemma HoleInsert(m: map<int, Envelope>, a: int, e: Envelope, after: map<int, Envelope>)
    requires IsLeast(a, m) && Packed(m, a) && e.timestamp == a && after == m[a := e]
    ensures OrderConsistent(after) <==> forall k :: k in m && k != a ==> m[k].timestamp >= a
    ensures OrderConsistent(after) ==> Packed(after, a)
  {
    if OrderConsistent(after) {
      forall k | k in m && k != a ensures m[k].timestamp >= a {
        assert k in after && a in after && a < k;
      }
    } else {
      var i, j :| i in after && j in after && i < j && after[i].timestamp > after[j].timestamp;
      assert i == a;
      assert j in m && j != a && m[j].timestamp < a;
    }
  }

  // ---------- runs of puts ----------

  /** The source after the given puts, from creation. */
  ghost function Fill(es: seq<Envelope>, max: nat): Source
    requires 1 <= max
  {
    if es == [] then EMPTY_SOURCE else Insert(Fill(es[..|es| - 1], max), es[|es| - 1], max)
  }

  ghost predicate NonDecreasing(es: seq<Envelope>) {
    forall i, j :: 0 <= i < j < |es| ==> es[i].timestamp <= es[j].timestamp
  }

  /** No put so far ran out of keys. */
  ghost predicate NeverOverwrites(es: seq<Envelope>, max: nat)
    requires 1 <= max
  {
    es == [] ||
    (var prefix := es[..|es| - 1];
     NeverOverwrites(prefix, max) && !Overwrites(Fill(prefix, max), es[|es| - 1], max))
  }

  /** Below capacity and without exhausting the keys, non-decreasing puts take ever larger keys. */
  lemma {:induction false} NonDecreasingPutsStayOrdered(es: seq<Envelope>, max: nat)
    requires 1 <= max && NonDecreasing(es) && |es| <= max && NeverOverwrites(es, max)
    ensures |Fill(es, max).entries| == |es|
    ensures OrderConsistent(Fill(es, max).entries)
    ensures es != [] ==> Packed(Fill(es, max).entries, es[|es| - 1].timestamp)
    ensures es != [] ==>
      var before, e := Fill(es[..|es| - 1], max).entries, es[|es| - 1];
      forall a :: a in before ==> a < KeyFor(before, e.timestamp)
  {
    if es != [] {
      var prefix, e := es[..|es| - 1], es[|es| - 1];
      NonDecreasingPutsStayOrdered(prefix, max);
      var s := Fill(prefix, max);
      assert !Full(s, max);
      InsertSize(s, e, max);
      var last := if prefix == [] then e.timestamp else prefix[|prefix| - 1].timestamp;
      InsertAbove(s.entries, last, e);
    }
  }

  /** Every prefix of the puts left the source order-consistent. */
  ghost predicate StaysOrdered(es: seq<Envelope>, max: nat)
    requires 1 <= max
  {
    es == [] || (StaysOrdered(es[..|es| - 1], max) && OrderConsistent(Fill(es, max).entries))
  }

  /** The put finds the source full and undercuts it. */
  ghost predicate UndercutsFull(s: Source, e: Envelope, max: nat)
    requires 1 <= max
  {
    Full(s, max) && Undercuts(s.entries, e)
  }

  ghost predicate NeverUndercuts(es: seq<Envelope>, max: nat)
    requires 1 <= max
  {
    es == [] ||
    (var prefix := es[..|es| - 1];
     NeverUndercuts(prefix, max) && !UndercutsFull(Fill(prefix, max), es[|es| - 1], max))
  }

  lemma {:induction false} FillIsBounded(es: seq<Envelope>, max: nat)
    requires 1 <= max
    ensures FudgeBounded(Fill(es, max).entries)
  {
    if es != [] { FillIsBounded(es[..|es| - 1], max); }
  }

  /** One non-decreasing put into a packed source, with or without an eviction. */
  lemma PutKeepsOrderIff(s: Source, last: int, e: Envelope, max: nat)
    requires 1 <= max && Packed(s.entries, last) && FudgeBounded(s.entries) && last <= e.timestamp
    ensures OrderConsistent(Insert(s, e, max).entries) <==> !UndercutsFull(s, e, max)
    ensures !UndercutsFull(s, e, max) ==> Packed(Insert(s, e, max).entries, e.timestamp)
  {
    hide Packed, FudgeBounded, OrderConsistent, Undercuts;
    if Full(s, max) {
      EvictingInsertKeepsOrderIff(s.entries, last, e);
    } else {
      InsertPacks(s.entries, last, e);
      PackedIsConsistent(Insert(s, e, max).entries, e.timestamp);
    }
  }

  lemma PackedIsConsistent(m: map<int, Envelope>, last: int)
    requires Packed(m, last)
    ensures OrderConsistent(m)
  {
  }

  /** Over every run of non-decreasing puts, evictions and overwriting included: the order is kept throughout iff no put undercuts. */
  lemma {:induction false} NonDecreasingPutsKeepOrderIff(es: seq<Envelope>, max: nat)
    requires 1 <= max && NonDecreasing(es)
    ensures StaysOrdered(es, max) <==> NeverUndercuts(es, max)
    ensures es != [] && NeverUndercuts(es, max) ==> Packed(Fill(es, max).entries, es[|es| - 1].timestamp)
  {
    hide Insert, Packed, OrderConsistent, UndercutsFull, FudgeBounded;
    if es != [] {
      var prefix, e := es[..|es| - 1], es[|es| - 1];
      NonDecreasingPutsKeepOrderIff(prefix, max);
      FillIsBounded(prefix, max);
      if NeverUndercuts(prefix, max) {
        var last := if prefix == [] then e.timestamp else prefix[|prefix| - 1].timestamp;
        if prefix == [] { EmptyIsPacked(last); }
        PutKeepsOrderIff(Fill(prefix, max), last, e, max);
      }
    }
  }

  lemma EmptyIsPacked(last: int)
    ensures Packed(EMPTY_SOURCE.entries, last)
  {
  }

  // ---------- running out of keys ----------

  /** Puts at one time take consecutive keys. */
  lemma {:induction false} SameTimeTakesConsecutiveKeys(es: seq<Envelope>, t: int, max: nat)
    requires |es| <= MAX_FUDGE + 1 && |es| < max && forall i :: 0 <= i < |es| ==> es[i].timestamp == t
    ensures Fill(es, max).entries.Keys == Window(t, |es|) && |Fill(es, max).entries| == |es|
  {
    if es != [] {
      var k, e := |es| - 1, es[|es| - 1];
      SameTimeTakesConsecutiveKeys(es[..k], t, max);
      var s := Fill(es[..k], max);
      InWindow(s.entries, t, k);
      KeyIsUnique(s.entries, t, t + k);
      NextKey(s.entries, t, k, e);
    } else {
      assert Window(t, 0) == {};
    }
  }

  lemma InWindow(m: map<int, Envelope>, t: int, n: nat)
    requires m.Keys == Window(t, n)
    ensures forall i :: i in m <==> t <= i < t + n
  {
    assert forall i :: i in m <==> i in m.Keys;
  }

  lemma NextKey(m: map<int, Envelope>, t: int, n: nat, e: Envelope)
    requires m.Keys == Window(t, n) && |m| == n
    ensures m[t + n := e].Keys == Window(t, n + 1) && |m[t + n := e]| == n + 1
  {
    assert m[t + n := e].Keys == m.Keys + {t + n} == Window(t, n + 1);
  }

  /** With room for more, the 4002nd put at one time overwrites an envelope instead of adding one. */
  lemma PutOverwrites(es: seq<Envelope>, e: Envelope, max: nat)
    requires |es| == MAX_FUDGE + 1 < max && forall i :: 0 <= i < |es| ==> es[i].timestamp == e.timestamp
    ensures Overwrites(Fill(es, max), e, max) && |Fill(es + [e], max).entries| == |es|
  {
    hide Insert, Overwrites, Room;
    var s := Fill(es, max);
    SameTimeTakesConsecutiveKeys(es, e.timestamp, max);
    RoomWhenNotFull(s, max);
    InWindow(s.entries, e.timestamp, |es|);
    OverwritesIff(s, e, max);
    InsertSize(s, e, max);
    assert (es + [e])[..|es|] == es;
  }

  /** With at most 4001 puts the keys cannot run out. */
  lemma {:induction false} FewPutsNeverOverwrite(es: seq<Envelope>, max: nat)
    requires 1 <= max && |es| <= MAX_FUDGE + 1
    ensures NeverOverwrites(es, max) && |Fill(es, max).entries| <= |es|
    ensures |Fill(es, max).entries| <= max
  {
    if es != [] {
      var prefix, e := es[..|es| - 1], es[|es| - 1];
      FewPutsNeverOverwrite(prefix, max);
      var s := Fill(prefix, max);
      RoomSize(s, max);
      SmallNeverOverwrites(s, e, max);
      InsertSize(s, e, max);
    }
  }

  // ---------- an eviction that breaks the order ----------

  lemma LeastIs(m: map<int, Envelope>, k: int)
    requires IsLeast(k, m)
    ensures LeastKey(m) == k
  {
  }

  lemma PutBelowCapacity(s: Source, e: Envelope, max: nat, k: int)
    requires |s.entries| < max && k !in s.entries
    requires e.timestamp <= k < e.timestamp + MAX_FUDGE && forall i :: e.timestamp <= i < k ==> i in s.entries
    ensures Insert(s, e, max).entries == s.entries[k := e]
  {
    KeyIsUnique(s.entries, e.timestamp, k);
  }

  lemma PutAtCapacity(s: Source, e: Envelope, max: nat, a: int, k: int)
    requires 1 <= max <= |s.entries| && IsLeast(a, s.entries) && k !in s.entries - {a}
    requires e.timestamp <= k < e.timestamp + MAX_FUDGE && forall i :: e.timestamp <= i < k ==> i in s.entries - {a}
    ensures Insert(s, e, max).entries == (s.entries - {a})[k := e]
  {
    LeastIs(s.entries, a);
    KeyIsUnique(s.entries - {a}, e.timestamp, k);
  }

  ghost function Triple(t: int, a: Envelope, b: Envelope, c: Envelope): map<int, Envelope> {
    map[t := a, t + 1 := b, t + 2 := c]
  }

  lemma TripleSize(t: int, a: Envelope, b: Envelope, c: Envelope)
    ensures |Triple(t, a, b, c)| == 3 && IsLeast(t, Triple(t, a, b, c))
  {
    assert Triple(t, a, b, c).Keys == {t, t + 1, t + 2};
  }

  lemma TripleShift(t: int, a: Envelope, b: Envelope, c: Envelope, d: Envelope)
    ensures (Triple(t, a, b, c) - {t})[t + 3 := d] == Triple(t + 1, b, c, d)
    ensures (Triple(t, a, b, c) - {t})[t := d] == Triple(t, d, b, c)
  {
  }

  lemma ThirdPut(s: Source, a: Envelope, max: nat)
    requires 3 <= max && s.entries == map[a.timestamp := a, a.timestamp + 1 := a]
    ensures Insert(s, a, max).entries == Triple(a.timestamp, a, a, a)
  {
    hide Insert;
    PairSize(a.timestamp, a);
    PutBelowCapacity(s, a, max, a.timestamp + 2);
  }

  lemma PairSize(t: int, a: Envelope)
    ensures |map[t := a, t + 1 := a]| == 2
  {
    assert map[t := a, t + 1 := a].Keys == {t, t + 1};
  }

  lemma SecondPut(s: Source, a: Envelope, max: nat)
    requires 3 <= max && s.entries == map[a.timestamp := a]
    ensures Insert(s, a, max).entries == map[a.timestamp := a, a.timestamp + 1 := a]
  {
    hide Insert;
    PutBelowCapacity(s, a, max, a.timestamp + 1);
  }

  lemma FirstPut(a: Envelope, max: nat)
    requires 3 <= max
    ensures Insert(EMPTY_SOURCE, a, max).entries == map[a.timestamp := a]
  {
    hide Insert;
    PutBelowCapacity(EMPTY_SOURCE, a, max, a.timestamp);
  }

  /** At capacity the oldest of three consecutive keys makes room. */
  lemma PutIntoTriple(s: Source, a: Envelope, b: Envelope, c: Envelope, e: Envelope, t: int)
    requires s.entries == Triple(t, a, b, c) && (e.timestamp == t || e.timestamp == t + 1)
    ensures Insert(s, e, 3).entries == if e.timestamp == t then Triple(t, e, b, c) else Triple(t + 1, b, c, e)
  {
    hide Insert;
    TripleSize(t, a, b, c);
    TripleShift(t, a, b, c, e);
    PutAtCapacity(s, e, 3, t, if e.timestamp == t then t else t + 3);
  }

  ghost function ThreePuts(a: Envelope, max: nat): Source
    requires 1 <= max
  {
    Insert(Insert(Insert(EMPTY_SOURCE, a, max), a, max), a, max)
  }

  lemma ThreePutsHold(a: Envelope, max: nat)
    requires 3 <= max
    ensures ThreePuts(a, max).entries == Triple(a.timestamp, a, a, a)
  {
    FirstPut(a, max);
    var s := Insert(EMPTY_SOURCE, a, max);
    SecondPut(s, a, max);
    ThirdPut(Insert(s, a, max), a, max);
  }

  /** Three puts at one time and two at the next, into a source that holds three envelopes. */
  ghost function FivePuts(a: Envelope, b: Envelope): Source {
    Insert(Insert(ThreePuts(a, 3), b, 3), b, 3)
  }

  /** The timestamps never decrease, yet the newest envelope gets the least key. */
  lemma EvictionBreaksOrder(a: Envelope, b: Envelope)
    requires b.timestamp == a.timestamp + 1
    ensures FivePuts(a, b).entries == Triple(b.timestamp, b, a, b)
    ensures !OrderConsistent(FivePuts(a, b).entries)
  {
    hide Insert, ThreePuts;
    var t := a.timestamp;
    ThreePutsHold(a, 3);
    PutIntoTriple(ThreePuts(a, 3), a, a, a, b, t);
    PutIntoTriple(Insert(ThreePuts(a, 3), b, 3), a, a, b, b, t + 1);
    var r := Triple(t + 1, b, a, b);
    assert r[t + 1].timestamp > r[t + 2].timestamp;
  }

  function Balanced3(t: int, a: Envelope, b: Envelope, c: Envelope): Tree<Envelope> {
    Node(Node(Nil, t, a, Nil), t + 1, b, Node(Nil, t + 2, c, Nil))
  }

  lemma BalancedContents(t: int, a: Envelope, b: Envelope, c: Envelope)
    ensures IsBst(Balanced3(t, a, b, c)) && Contents(Balanced3(t, a, b, c)) == Triple(t, a, b, c)
    ensures Timeline(Balanced3(t, a, b, c), false) == [Entry(t, a), Entry(t + 1, b), Entry(t + 2, c)]
  {
    var l, r: Tree<Envelope> := Node(Nil, t, a, Nil), Node(Nil, t + 2, c, Nil);
    assert Contents(l) == Merge(map[], t, a, map[]) == map[t := a];
    assert Contents(r) == Merge(map[], t + 2, c, map[]) == map[t + 2 := c];
    assert Merge(map[t := a], t + 1, b, map[t + 2 := c]) == Triple(t, a, b, c);
    assert IsBst(l) && IsBst(r);
    assert Timeline(l, false) == [] + [Entry(t, a)] + [] == [Entry(t, a)];
    assert Timeline(r, false) == [] + [Entry(t + 2, c)] + [] == [Entry(t + 2, c)];
  }

  /** The balanced tree of that source hides one of two matching envelopes from a reader. */
  lemma EvictionHidesAnEnvelope(a: Envelope, b: Envelope)
    requires b.timestamp == a.timestamp + 1
    ensures var n, q := Balanced3(b.timestamp, b, a, b), PlainQuery(b.timestamp, b.timestamp + 1, 10);
      && IsBst(n) && Contents(n) == Triple(b.timestamp, b, a, b)
      && Read(n, q) == [b] && Matches(Timeline(n, false), q) == [b, b]
  {
    var t := b.timestamp;
    BalancedContents(t, b, a, b);
    var q := PlainQuery(t, t + 1, 10);
    var x, y, z := Entry(t, b), Entry(t + 1, a), Entry(t + 2, b);
    assert [x, y, z][1..] == [y, z] && [y, z][1..] == [z] && [z][1..] == [];
    assert Matches([z], q) == [b];
    assert Matches([y, z], q) == [b];
    var r: Tree<Envelope> := Node(Nil, t + 2, b, Nil);
    assert TreeAscTraverse(r, q, []) == Outcome(false, [] + [b]);
  }

  // ---------- a descending read that misses one of a group ----------

  ghost function Quad(t: int, a: Envelope, b: Envelope, c: Envelope, d: Envelope): map<int, Envelope> {
    map[t := a, t + 1 := b, t + 2 := c, t + 3 := d]
  }

  lemma QuadSize(t: int, a: Envelope, b: Envelope, c: Envelope, d: Envelope)
    ensures |Quad(t, a, b, c, d)| == 4 && IsLeast(t, Quad(t, a, b, c, d))
  {
    assert Quad(t, a, b, c, d).Keys == {t, t + 1, t + 2, t + 3};
  }

  lemma QuadShift(t: int, a: Envelope, b: Envelope, c: Envelope, d: Envelope, e: Envelope)
    ensures (Quad(t, a, b, c, d) - {t})[t + 4 := e] == Quad(t + 1, b, c, d, e)
    ensures (Quad(t, a, b, c, d) - {t})[t := e] == Quad(t, e, b, c, d)
    ensures Triple(t, a, b, c)[t + 3 := d] == Quad(t, a, b, c, d)
  {
  }

  lemma PutIntoHole(s: Source, a: Envelope, b: Envelope, c: Envelope, d: Envelope, e: Envelope)
    requires s.entries == Quad(e.timestamp, a, b, c, d)
    ensures Insert(s, e, 4).entries == Quad(e.timestamp, e, b, c, d)
  {
    hide Insert;
    var t := e.timestamp;
    QuadSize(t, a, b, c, d);
    QuadShift(t, a, b, c, d, e);
    PutAtCapacity(s, e, 4, t, t);
  }

  lemma QuadRoom(t: int, a: Envelope, b: Envelope, c: Envelope, d: Envelope)
    ensures t + 4 !in Quad(t, a, b, c, d) - {t}
    ensures forall i :: t + 1 <= i < t + 4 ==> i in Quad(t, a, b, c, d) - {t}
  {
  }

  lemma PutAboveQuad(s: Source, a: Envelope, b: Envelope, c: Envelope, d: Envelope, e: Envelope)
    requires s.entries == Quad(e.timestamp - 1, a, b, c, d)
    ensures Insert(s, e, 4).entries == Quad(e.timestamp, b, c, d, e)
  {
    hide Insert;
    var t := e.timestamp - 1;
    QuadSize(t, a, b, c, d);
    QuadShift(t, a, b, c, d, e);
    QuadRoom(t, a, b, c, d);
    hide Quad;
    PutAtCapacity(s, e, 4, t, t + 4);
  }

  lemma FourthPut(s: Source, a: Envelope)
    requires s.entries == Triple(a.timestamp, a, a, a)
    ensures Insert(s, a, 4).entries == Quad(a.timestamp, a, a, a, a)
  {
    hide Insert;
    TripleSize(a.timestamp, a, a, a);
    PutBelowCapacity(s, a, 4, a.timestamp + 3);
    QuadShift(a.timestamp, a, a, a, a, a);
  }

  /** Four puts at one time and two at the next, into a source that holds four envelopes. */
  ghost function SixPuts(a: Envelope, b: Envelope): Source {
    Insert(Insert(Insert(ThreePuts(a, 4), a, 4), b, 4), b, 4)
  }

  lemma SixPutsHold(a: Envelope, b: Envelope)
    requires b.timestamp == a.timestamp + 1
    ensures SixPuts(a, b).entries == Quad(b.timestamp, b, a, a, b)
  {
    hide Insert, ThreePuts, Quad, Triple;
    var t := a.timestamp;
    ThreePutsHold(a, 4);
    FourthPut(ThreePuts(a, 4), a);
    var s := Insert(ThreePuts(a, 4), a, 4);
    PutAboveQuad(s, a, a, a, a, b);
    PutIntoHole(Insert(s, b, 4), a, a, a, b, b);
  }

  /** A balanced tree of four consecutive keys. */
  function Balanced4(t: int, a: Envelope, b: Envelope, c: Envelope, d: Envelope): Tree<Envelope> {
    Node(Node(Nil, t, a, Node(Nil, t + 1, b, Nil)), t + 2, c, Node(Nil, t + 3, d, Nil))
  }

  lemma Balanced4Contents(t: int, a: Envelope, b: Envelope, c: Envelope, d: Envelope)
    ensures IsBst(Balanced4(t, a, b, c, d)) && Contents(Balanced4(t, a, b, c, d)) == Quad(t, a, b, c, d)
    ensures Timeline(Balanced4(t, a, b, c, d), true) == [Entry(t + 3, d), Entry(t + 2, c), Entry(t + 1, b), Entry(t, a)]
  {
    var lr, r: Tree<Envelope> := Node(Nil, t + 1, b, Nil), Node(Nil, t + 3, d, Nil);
    var l := Node(Nil, t, a, lr);
    assert Contents(lr) == Merge(map[], t + 1, b, map[]) == map[t + 1 := b];
    assert Contents(r) == Merge(map[], t + 3, d, map[]) == map[t + 3 := d];
    assert IsBst(lr) && IsBst(r);
    assert Contents(l) == Merge(map[], t, a, map[t + 1 := b]) == map[t := a, t + 1 := b];
    assert IsBst(l);
    assert Merge(map[t := a, t + 1 := b], t + 2, c, map[t + 3 := d]) == Quad(t, a, b, c, d);
    assert Timeline(lr, true) == [] + [Entry(t + 1, b)] + [] == [Entry(t + 1, b)];
    assert Timeline(r, true) == [] + [Entry(t + 3, d)] + [] == [Entry(t + 3, d)];
    assert Timeline(l, true) == [Entry(t + 1, b)] + [Entry(t, a)] + [] == [Entry(t + 1, b), Entry(t, a)];
  }

  /** After these puts the order is lost, and a descending read far below its limit returns one of two equal timestamps. */
  lemma DescendingReadPartsGroup(a: Envelope, b: Envelope)
    requires b.timestamp == a.timestamp + 1
    ensures var n, q := Balanced4(b.timestamp, b, a, a, b), Query(a.timestamp, b.timestamp, None, None, 10, true);
      && IsBst(n) && Contents(n) == SixPuts(a, b).entries
      && Read(n, q) == [a] && Matches(Timeline(n, true), q) == [a, a]
  {
    hide SixPuts;
    var t := b.timestamp;
    SixPutsHold(a, b);
    Balanced4Contents(t, b, a, a, b);
    DescendingMatches(a, b);
    DescendingReads(a, b);
  }

  lemma DescendingMatches(a: Envelope, b: Envelope)
    requires b.timestamp == a.timestamp + 1
    ensures var t, q := b.timestamp, Query(a.timestamp, b.timestamp, None, None, 10, true);
      Matches([Entry(t + 3, b), Entry(t + 2, a), Entry(t + 1, a), Entry(t, b)], q) == [a, a]
  {
    var t, q := b.timestamp, Query(a.timestamp, b.timestamp, None, None, 10, true);
    var w, x, y, z := Entry(t + 3, b), Entry(t + 2, a), Entry(t + 1, a), Entry(t, b);
    FourMatches(w, x, y, z, q);
  }

  lemma FourMatches(w: Entry<Envelope>, x: Entry<Envelope>, y: Entry<Envelope>, z: Entry<Envelope>, q: Query)
    requires Match(w, q).None? && Match(x, q).Some? && Match(y, q).Some? && Match(z, q).None?
    ensures Matches([w, x, y, z], q) == [Match(x, q).value, Match(y, q).value]
  {
    hide Match;
    assert [w, x, y, z][1..] == [x, y, z] && [x, y, z][1..] == [y, z] && [y, z][1..] == [z] && [z][1..] == [];
    assert Matches([z], q) == [];
    assert Matches([y, z], q) == [Match(y, q).value];
    assert Matches([x, y, z], q) == [Match(x, q).value, Match(y, q).value];
  }

  lemma DescendingReads(a: Envelope, b: Envelope)
    requires b.timestamp == a.timestamp + 1
    ensures Read(Balanced4(b.timestamp, b, a, a, b), Query(a.timestamp, b.timestamp, None, None, 10, true)) == [a]
  {
    var t, q := b.timestamp, Query(a.timestamp, b.timestamp, None, None, 10, true);
    var r: Tree<Envelope> := Node(Nil, t + 3, b, Nil);
    var l: Tree<Envelope> := Node(Nil, t, b, Node(Nil, t + 1, a, Nil));
    assert TreeDescTraverse(r, q, []) == Outcome(false, []);
    assert [] + [a] == [a];
    assert Collect(a, q, []) == Outcome(false, [a]);
    assert TreeDescTraverse(l, q, [a]) == Outcome(false, [a]);
    assert TreeDescTraverse(Node(l, t + 2, a, r), q, []) == TreeDescTraverse(l, q, [a]);
  }

  /** The balanced tree after three puts at one time; an ascending read with limit 1 parts their group. */
  lemma BalancedTreePartsGroup(a: Envelope)
    ensures var n, q := Balanced3(a.timestamp, a, a, a), PlainQuery(a.timestamp, a.timestamp + 1, 1);
      && IsBst(n) && Contents(n) == Triple(a.timestamp, a, a, a)
      && Read(n, q) == [a] && Matches(Timeline(n, false), q) == [a, a, a]
  {
    var t := a.timestamp;
    BalancedContents(t, a, a, a);
    var q := PlainQuery(t, t + 1, 1);
    var x, y, z := Entry(t, a), Entry(t + 1, a), Entry(t + 2, a);
    assert [x, y, z][1..] == [y, z] && [y, z][1..] == [z] && [z][1..] == [];
    assert Matches([z], q) == [a];
    assert Matches([y, z], q) == [a, a];
    var l: Tree<Envelope> := Node(Nil, t, a, Nil);
    assert TreeAscTraverse(l, q, []) == Outcome(true, [] + [a]);
  }

  /** The balanced tree of an older envelope and two at one time. */
  function Shielded(x: Envelope, a: Envelope, b: Envelope): Tree<Envelope> {
    Node(Node(Nil, x.timestamp, x, Nil), a.timestamp, a, Node(Nil, a.timestamp + 1, b, Nil))
  }

  lemma ShieldedContents(x: Envelope, a: Envelope, b: Envelope)
    requires x.timestamp < a.timestamp
    ensures IsBst(Shielded(x, a, b))
    ensures Contents(Shielded(x, a, b)) == map[x.timestamp := x, a.timestamp := a, a.timestamp + 1 := b]
  {
    var t := a.timestamp;
    var l: Tree<Envelope>, r: Tree<Envelope> := Node(Nil, x.timestamp, x, Nil), Node(Nil, t + 1, b, Nil);
    assert Contents(l) == Merge(map[], x.timestamp, x, map[]) == map[x.timestamp := x];
    assert Contents(r) == Merge(map[], t + 1, b, map[]) == map[t + 1 := b];
    assert IsBst(l) && IsBst(r);
  }

  lemma ShieldedSteps(x: Envelope, a: Envelope, b: Envelope)
    requires x.timestamp < a.timestamp == b.timestamp
    ensures forall c, d :: !Parts(Steps(Shielded(x, a, b), false), c, d)
  {
    var t := a.timestamp;
    var l: Tree<Envelope>, r: Tree<Envelope> := Node(Nil, x.timestamp, x, Nil), Node(Nil, t + 1, b, Nil);
    assert Steps(l, false) == [] + [Step(Entry(x.timestamp, x), false)] + [];
    assert Steps(r, false) == [] + [Step(Entry(t + 1, b), true)] + [];
    assert Steps(Node(l, t, a, r), false) ==
      [Step(Entry(x.timestamp, x), false), Step(Entry(t, a), true), Step(Entry(t + 1, b), true)];
  }

  /** That tree keeps the group whole for every query, although its contents have an open group. */
  lemma OlderEnvelopeShieldsGroup(x: Envelope, a: Envelope, b: Envelope)
    requires x.timestamp < a.timestamp == b.timestamp
    ensures HasOpenGroup(Contents(Shielded(x, a, b))) && forall q :: !PartsGroup(Shielded(x, a, b), q)
  {
    hide IsBst, Contents, Steps, PartsGroup, Parts;
    var n := Shielded(x, a, b);
    ShieldedContents(x, a, b);
    OpenPairFound(Contents(n), a.timestamp, a.timestamp + 1);
    ShieldedSteps(x, a, b);
    PartsGroupIff(n);
  }
}

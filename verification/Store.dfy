/** The store as the program keeps it: storages updated in place behind an index, and the truncation loop. */
module Stores {
  import opened Envelopes
  import Trees = SearchTrees
  import opened SearchTrees
  import Completeness
  import Shapes
  import Traversal
  import opened StoreModel
  import opened Truncation
  import opened ExpirationHeaps

  const MAX_INT64 := 0x7FFF_FFFF_FFFF_FFFF

  /** One source: its tree and the counters reported about it. */
  class Storage {
    const sourceId: SourceId
    var root: Tree<Envelope>
    var expired: nat
    var oldest: int
    var newest: int

    constructor (id: SourceId)
      ensures sourceId == id && Valid() && View() == EMPTY_SOURCE && root.Nil?
    {
      sourceId := id;
      root := Nil;
      expired, oldest, newest := 0, 0, 0;
    }

    ghost predicate Valid()
      reads this
    {
      IsBst(root)
    }

    ghost function View(): Source
      reads this
    {
      Source(Contents(root), expired, oldest, newest)
    }

    /** Bind the key and refresh the newest and oldest timestamps. */
    method PutAt(key: int, e: Envelope)
      requires Valid()
      modifies this
      ensures Valid() && Contents(root) == old(Contents(root))[key := e]
      ensures expired == old(expired)
      ensures newest == if e.timestamp > old(newest) then e.timestamp else old(newest)
      ensures IsLeast(oldest, Contents(root))
    {
      root := Trees.Put(root, key, e);
      if e.timestamp > newest {
        newest := e.timestamp;
      }
      assert key in Contents(root);
      oldest := Trees.Left(root);
    }

    /** Drop the oldest envelope; if any is left, account for it and report the new oldest key. */
    method ExpireOldest() returns (timestamp: int, left: bool, ghost key: int)
      requires Valid() && root.Node?
      modifies this
      ensures Valid() && Expired(old(View()), View(), key, left)
      ensures left <==> root.Node?
      ensures left ==> timestamp == oldest
    {
      key := DropOldest();
      if root.Nil? {
        return 0, false, key;
      }
      timestamp := Trees.Left(root);
      left := true;
      expired := expired + 1;
      oldest := timestamp;
    }

    method DropOldest() returns (key: int)
      requires Valid() && root.Node?
      modifies `root
      ensures Valid() && IsLeast(key, old(Contents(root))) && Contents(root) == old(Contents(root)) - {key}
    {
      key := Trees.Left(root);
      root := Trees.Remove(root, key);
    }
  }

  /** How a truncation ended. Panicked stands for `heap.Pop` on an empty heap. */
  datatype TruncateOutcome = Skipped | Panicked | Emptied | Pruned

  class Store {
    const maxPerSource: int
    const prunesPerGC: int
    var index: map<SourceId, Storage>
    var count: int
    var oldestTimestamp: int
    var consecutiveTruncation: int
    var ingress: nat
    var expired: nat

    constructor (maxPerSource: int, prunesPerGC: int)
      ensures Settled() && index == map[] && View() == EMPTY && this.maxPerSource == maxPerSource
      ensures this.prunesPerGC == prunesPerGC && consecutiveTruncation == 0
      ensures oldestTimestamp == 9_223_372_036_854_775_807
    {
      this.maxPerSource, this.prunesPerGC := maxPerSource, prunesPerGC;
      index := map[];
      count, oldestTimestamp, consecutiveTruncation := 0, MAX_INT64, 0;
      ingress, expired := 0, 0;
    }

    ghost predicate Valid()
      reads `index, index.Values
    {
      forall id :: id in index ==>
        index[id].Valid() && index[id].sourceId == id && (maxPerSource < 1 ==> index[id].root.Nil?)
    }

    ghost function View(): State
      reads `index, `count, `ingress, `expired, index.Values
    {
      State(map id | id in index :: index[id].View(), count, ingress, expired)
    }

    method GetOrInitializeStorage(id: SourceId) returns (s: Storage)
      requires Valid()
      modifies `index
      ensures Valid()
      ensures index == old(index)[id := s]
      ensures id in old(index) ==> s == old(index)[id]
      ensures id !in old(index) ==> fresh(s) && s.View() == EMPTY_SOURCE
    {
      if id in index {
        s := index[id];
      } else {
        s := new Storage(id);
        index := index[id := s];
      }
    }

    /** A full source gives up its oldest envelope; otherwise the store's count grows. */
    method MakeRoom(s: Storage)
      requires s.Valid() && 1 <= maxPerSource
      modifies s`root, s`expired, `count, `expired
      ensures s.Valid() && Contents(s.root) == Room(old(s.View()), maxPerSource)
      ensures s.expired == if Full(old(s.View()), maxPerSource) then old(s.expired) + 1 else old(s.expired)
      ensures count == if Full(old(s.View()), maxPerSource) then old(count) else old(count) + 1
      ensures expired == if Full(old(s.View()), maxPerSource) then old(expired) + 1 else old(expired)
    {
      hide Room, Contents, IsBst;
      var size := Trees.Count(s.root);
      if size >= maxPerSource {
        ghost var v := s.View();
        var least := s.DropOldest();
        RoomWhenFull(v, maxPerSource, least);
        s.expired := s.expired + 1;
        expired := expired + 1;
      } else {
        RoomWhenNotFull(s.View(), maxPerSource);
        count := count + 1;
      }
    }

    /** The first free key at or above the timestamp, or the last candidate. */
    static method FindKey(root: Tree<Envelope>, t: int) returns (k: int)
      requires IsBst(root)
      ensures k == KeyFor(Contents(root), t)
    {
      var fudge := 0;
      while fudge < MAX_FUDGE
        invariant 0 <= fudge <= MAX_FUDGE
        invariant forall k :: t <= k < t + fudge ==> k in Contents(root)
      {
        var taken := Trees.Get(root, t + fudge);
        if !taken {
          break;
        }
        fudge := fudge + 1;
      }
      k := t + fudge;
      KeyIsUnique(Contents(root), t, k);
    }

    /** Make room if the source is full, then insert at the first free key at or above the timestamp. */
    method InsertOrSwap(s: Storage, e: Envelope)
      requires s.Valid() && 1 <= maxPerSource
      modifies s, `count, `expired, `oldestTimestamp
      ensures s.Valid()
      ensures s.View() == Insert(old(s.View()), e, maxPerSource)
      ensures count == if Full(old(s.View()), maxPerSource) then old(count) else old(count) + 1
      ensures expired == if Full(old(s.View()), maxPerSource) then old(expired) + 1 else old(expired)
      ensures oldestTimestamp == Min(old(oldestTimestamp), s.oldest)
    {
      ghost var v := s.View();
      MakeRoom(s);
      Place(s, e);
      InsertIs(v, e, maxPerSource, s.View());
      NoteOldest(s.oldest);
    }

    static method Place(s: Storage, e: Envelope)
      requires s.Valid()
      modifies s
      ensures s.Valid()
      ensures Contents(s.root) == old(Contents(s.root))[KeyFor(old(Contents(s.root)), e.timestamp) := e]
      ensures IsLeast(s.oldest, Contents(s.root)) && s.expired == old(s.expired)
      ensures s.newest == if e.timestamp > old(s.newest) then e.timestamp else old(s.newest)
    {
      var key := FindKey(s.root, e.timestamp);
      s.PutAt(key, e);
    }

    method NoteOldest(timestamp: int)
      modifies `oldestTimestamp
      ensures oldestTimestamp == Min(old(oldestTimestamp), timestamp)
    {
      if timestamp < oldestTimestamp {
        oldestTimestamp := timestamp;
      }
    }

    /** If only one storage differs from an earlier view, so does the current view. */
    lemma OneChanged(v: State, id: SourceId)
      requires Valid() && id in index && index.Keys == v.sources.Keys + {id}
      requires forall j :: j in index && j != id ==> index[j].View() == v.sources[j]
      ensures View().sources == v.sources[id := index[id].View()]
    {
    }

    /** `InsertOrSwap` on a storage in the index, seen from the whole store. */
    method InsertIndexed(id: SourceId, e: Envelope)
      requires Valid() && id in index && 1 <= maxPerSource
      modifies index[id], `count, `expired, `oldestTimestamp
      ensures Valid() && ingress == old(ingress) && index == old(index)
      ensures View().sources == old(View()).sources[id := Insert(old(index[id].View()), e, maxPerSource)]
      ensures count == if Full(old(index[id].View()), maxPerSource) then old(count) else old(count) + 1
      ensures expired == if Full(old(index[id].View()), maxPerSource) then old(expired) + 1 else old(expired)
      ensures oldestTimestamp == Min(old(oldestTimestamp), View().sources[id].oldest)
    {
      ghost var v := View();
      InsertOrSwap(index[id], e);
      assert index.Keys == v.sources.Keys;
      assert index.Keys == v.sources.Keys + {id};
      forall j | j in index && j != id ensures index[j].View() == v.sources[j] {
        assert index[j].sourceId != index[id].sourceId;
        assert index[j].View() == old(index[j].View());
      }
      assert Valid();
      OneChanged(v, id);
    }

    /** Count the envelope and find or create its storage. */
    method Admit(id: SourceId)
      requires Valid()
      modifies `index, `ingress
      ensures Valid() && id in index && index.Keys == old(index.Keys) + {id}
      ensures id in old(index) ==> index[id] == old(index)[id]
      ensures id !in old(index) ==> fresh(index[id])
      ensures forall j :: j in old(index) ==> index[j] == old(index)[j]
      ensures index[id].View() == SourceOf(old(View()), id)
      ensures View().sources == old(View()).sources[id := index[id].View()]
      ensures ingress == old(ingress) + 1 && count == old(count) && expired == old(expired)
    {
      ghost var v := View();
      ingress := ingress + 1;
      var s := GetOrInitializeStorage(id);
      assert index.Keys == v.sources.Keys + {id};
      forall j | j in index && j != id ensures index[j].View() == v.sources[j] {
        assert index[j].View() == old(index[j].View());
      }
      OneChanged(v, id);
    }

    /** Without any capacity the first put panics: a full source has no oldest envelope to give up. */
    method Put(e: Envelope, id: SourceId) returns (panicked: bool)
      requires Valid()
      modifies this, if id in index then {index[id]} else {}
      ensures Valid() && (panicked <==> maxPerSource < 1)
      ensures !panicked ==> View() == StoreModel.Put(old(View()), e, id, maxPerSource)
      ensures !panicked && old(Settled()) ==> Settled()
      ensures panicked ==> View().sources == old(View()).sources[id := SourceOf(old(View()), id)]
      ensures !panicked ==> oldestTimestamp == Min(old(oldestTimestamp), View().sources[id].oldest)
      ensures forall j :: j in index ==> (j in old(index) && index[j] == old(index)[j]) || fresh(index[j])
    {
      if maxPerSource < 1 {
        Admit(id);
        return true;
      }
      PutWithRoom(e, id);
      return false;
    }

    method PutWithRoom(e: Envelope, id: SourceId)
      requires Valid() && 1 <= maxPerSource
      modifies this, if id in index then {index[id]} else {}
      ensures Valid()
      ensures View() == StoreModel.Put(old(View()), e, id, maxPerSource)
      ensures oldestTimestamp == Min(old(oldestTimestamp), View().sources[id].oldest)
      ensures old(Settled()) ==> Settled()
      ensures forall j :: j in index ==> (j in old(index) && index[j] == old(index)[j]) || fresh(index[j])
    {
      hide OldestRecorded, Store.Settled, StoreModel.Put, Insert, Full, Contents, IsBst;
      ghost var v, settled := View(), Settled();
      SettledIsRecorded();
      Admit(id);
      InsertIndexed(id, e);
      PutIs(v, e, id, maxPerSource, View());
      if settled { PutRecordsOldest(v, e, id, maxPerSource); }
      SettledIsRecorded();
    }

    lemma SettledIsRecorded()
      requires Valid()
      ensures Settled() <==> OldestRecorded(View())
    {
      forall id | id in index ensures
          IsLeast(index[id].oldest, Contents(index[id].root)) <==>
          View().sources[id].entries != map[] && View().sources[id].oldest == LeastKey(View().sources[id].entries)
      {
        assert View().sources[id] == index[id].View();
      }
    }

    // ---------- reading ----------

    /** The contents of a source's tree in the order of a read. */
    ghost function ContentsInOrder(id: SourceId, descending: bool): seq<Entry<Envelope>>
      reads `index, index.Values
    {
      if id in index then Traversal.Timeline(index[id].root, descending) else []
    }

    /**
     A read returns matching envelopes in key order, each at most once. It misses none but behind the limit
     if timestamps follow the keys, and without colliding timestamps it is exactly the first `limit` matches.
     The type filter is spelled out by payload: asking for logs returns logs, and every held log in the range.
     */
    method Get(id: SourceId, q: Traversal.Query) returns (res: seq<Envelope>)
      requires Valid()
      ensures Traversal.Subsequence(res, Traversal.Matches(ContentsInOrder(id, q.descending), q))
      ensures forall e :: e in res ==> Traversal.Admitted(e, q)
      ensures Completeness.OrderConsistent(SourceOf(View(), id).entries) ==>
        var all := Traversal.Matches(ContentsInOrder(id, q.descending), q);
        res <= all && (res == all || |res| >= q.limit)
      ensures Shapes.Unfudged(SourceOf(View(), id).entries) ==>
        res == Shapes.Answer(ContentsInOrder(id, q.descending), q)
      ensures id in index ==> res == Traversal.Read(index[id].root, q)
      ensures forall e :: e in res ==> q.start <= e.timestamp < q.end && Traversal.Wanted(e, q.types)
      ensures q.types == Some([LOG]) ==> forall e :: e in res ==> e.message.Log?
      ensures forall e :: e in res ==> Shapes.Selected(SourceOf(View(), id).entries, q, e)
      ensures Completeness.OrderConsistent(SourceOf(View(), id).entries) && |res| < q.limit ==>
        forall e :: Shapes.Selected(SourceOf(View(), id).entries, q, e) ==> e in res
      ensures Completeness.OrderConsistent(SourceOf(View(), id).entries) && q.name.None? && |res| < q.limit ==>
        var held := SourceOf(View(), id).entries;
        forall k :: k in held && q.start <= held[k].timestamp < q.end && Traversal.Wanted(held[k], q.types) ==>
          held[k] in res
    {
      hide Traversal.Read, Traversal.Matches, Shapes.Answer, Traversal.Subsequence;
      if id !in index {
        NothingToRead(q);
        return [];
      }
      var n := index[id].root;
      assert SourceOf(View(), id).entries == Contents(n);
      Traversal.ReadIsSound(n, q);
      if Completeness.OrderConsistent(Contents(n)) { Completeness.ReadIsComplete(n, q); }
      if Shapes.Unfudged(Contents(n)) { Shapes.UnfudgedReadIsExact(n, q); }
      Shapes.ReadIsSelection(n, q);
      if q.name.None? { Shapes.HeldAreSelected(Contents(n), q); }
      res := Traversal.Read(n, q);
    }

    lemma NothingToRead(q: Traversal.Query)
      ensures Traversal.Matches([], q) == [] && Shapes.Answer([], q) == [] && Traversal.Subsequence<Envelope>([], [])
    {
    }

    /** The report lists exactly the indexed sources, each with its true size and its counters. */
    method Meta() returns (report: map<SourceId, MetaInfo>)
      requires Valid()
      ensures report.Keys == View().sources.Keys
      ensures forall id :: id in report ==> report[id] == Reported(View().sources[id])
      ensures forall id :: id in report ==>
        && report[id].count == |View().sources[id].entries| && report[id].expired == View().sources[id].expired
        && report[id].newestTimestamp == View().sources[id].newest
        && (Settled() ==> IsLeast(report[id].oldestTimestamp, View().sources[id].entries))
    {
      report := CollectCounters();
      var todo := report.Keys;
      while todo != {}
        invariant todo <= report.Keys == index.Keys
        invariant forall id :: id in report && id !in todo ==> report[id] == Reported(index[id].View())
        decreases todo
      {
        var id :| id in todo;
        var info := Inspect(id);
        report := report[id := info];
        todo := todo - {id};
      }
      forall id | id in report && Settled() ensures IsLeast(report[id].oldestTimestamp, View().sources[id].entries) {
        assert View().sources[id] == index[id].View();
      }
    }

    /** The first pass, before the sizes are filled in. */
    method CollectCounters() returns (report: map<SourceId, MetaInfo>)
      ensures report.Keys == index.Keys
    {
      report := map[];
      var todo := index.Keys;
      while todo != {}
        invariant todo <= index.Keys && report.Keys == index.Keys - todo
        decreases todo
      {
        var id :| id in todo;
        var s := index[id];
        report := report[id := MetaInfo(0, s.expired, s.oldest, s.newest)];
        todo := todo - {id};
      }
    }

    method Inspect(id: SourceId) returns (info: MetaInfo)
      requires Valid() && id in index
      ensures info == Reported(index[id].View())
    {
      var s := index[id];
      var size := Trees.Count(s.root);
      info := MetaInfo(size, s.expired, s.oldest, s.newest);
    }

    // ---------- truncation ----------

    lemma OneRemoved(v: State, id: SourceId)
      requires Valid() && id !in index && index.Keys == v.sources.Keys - {id}
      requires forall j :: j in index ==> index[j].View() == v.sources[j]
      ensures View().sources == v.sources - {id}
    {
    }

    /** Expire the oldest envelope of an indexed source; the result says whether the source is still there. */
    method RemoveOldestEnvelope(tree: Storage, id: SourceId) returns (timestamp: int, valid: bool)
      requires Valid() && id in index && index[id] == tree
      modifies tree, `count, `expired, `index
      ensures Valid()
      ensures old(tree.root).Nil? ==> View() == old(View()) && !valid
      ensures old(tree.root).Node? ==>
                && old(View()).sources[id].entries != map[]
                && View() == Expire(old(View()), id)
                && index == (if valid then old(index) else old(index) - {id})
                && (valid ==> timestamp == tree.oldest && IsLeast(timestamp, Contents(tree.root)))
    {
      hide Expire, Contents, IsBst;
      if tree.root.Nil? {
        return 0, false;
      }
      ghost var v := View();
      assert v.sources[id] == tree.View();
      count := count - 1;
      expired := expired + 1;
      ghost var key;
      timestamp, valid, key := tree.ExpireOldest();
      forall j | j in index && j != id ensures index[j].View() == v.sources[j] {
        assert index[j].sourceId != tree.sourceId;
        assert index[j].View() == old(index[j].View());
      }
      if valid {
        OneChanged(v, id);
      } else {
        index := index - {id};
        OneRemoved(v, id);
      }
      NilIffEmpty(tree.root);
      ExpireIs(v, id, tree.View(), key, valid, View());
    }

    /** Between atomic puts no indexed source is empty and each one's oldest timestamp is its least key. */
    ghost predicate Settled()
      reads `index, index.Values
    {
      Valid() && forall id :: id in index ==> IsLeast(index[id].oldest, Contents(index[id].root))
    }

    ghost function ExpirationOf(id: SourceId): Expiration<Storage>
      requires id in index
      reads `index, index.Values
    {
      Expiration(index[id].oldest, id, index[id])
    }

    /** What the expiration heap holds for the given sources: one entry each. */
    ghost function ExpirationsOf(ids: set<SourceId>): multiset<Expiration<Storage>>
      requires ids <= index.Keys
      reads `index, index.Values
    {
      multiset(set id | id in ids :: ExpirationOf(id))
    }

    lemma ExpirationsAdd(ids: set<SourceId>, id: SourceId)
      requires ids <= index.Keys && id in index && id !in ids
      ensures ExpirationsOf(ids + {id}) == ExpirationsOf(ids) + multiset{ExpirationOf(id)}
    {
      var a := set j | j in ids :: ExpirationOf(j);
      assert ExpirationOf(id) !in a;
      assert (set j | j in ids + {id} :: ExpirationOf(j)) == a + {ExpirationOf(id)};
    }

    /** Touching only the heap or the bookkeeping fields changes nothing about the contents. */
    twostate lemma SameStore()
      requires unchanged(`index, `count, `ingress, `expired) && unchanged(old(index.Values))
      ensures View() == old(View())
      ensures Settled() == old(Settled())
      ensures forall ids :: ids <= index.Keys ==> ExpirationsOf(ids) == old(ExpirationsOf(ids))
    {
      assert forall id :: id in index ==> index[id].View() == old(index[id].View());
      assert forall id :: id in index ==> ExpirationOf(id) == old(ExpirationOf(id));
    }

    /** Put one more source on the heap. */
    method PushSource(h: ExpirationHeap<Storage>, x: Expiration<Storage>, ghost ids: set<SourceId>)
      requires Settled() && ids <= index.Keys && x.sourceId in index.Keys - ids && x == ExpirationOf(x.sourceId)
      requires IsHeap(h.items) && multiset(h.items) == ExpirationsOf(ids)
      modifies h
      ensures Settled() && View() == old(View())
      ensures IsHeap(h.items) && multiset(h.items) == ExpirationsOf(ids + {x.sourceId})
    {
      ExpirationsAdd(ids, x.sourceId);
      h.Push(x);
      SameStore();
    }

    method BuildExpirationHeap() returns (h: ExpirationHeap<Storage>)
      requires Settled()
      ensures fresh(h) && IsHeap(h.items) && multiset(h.items) == ExpirationsOf(index.Keys)
    {
      h := new ExpirationHeap<Storage>();
      var todo := index.Keys;
      while todo != {}
        invariant todo <= index.Keys && fresh(h) && Settled()
        invariant IsHeap(h.items) && multiset(h.items) == ExpirationsOf(index.Keys - todo)
        decreases todo
      {
        var id :| id in todo;
        PushOldest(h, id, index.Keys - todo);
        OneLess(index.Keys, todo, id);
        todo := todo - {id};
      }
      assert index.Keys - {} == index.Keys;
    }

    static lemma OneLess<T>(all: set<T>, todo: set<T>, x: T)
      requires x in todo && todo <= all
      ensures all - todo + {x} == all - (todo - {x})
    {
    }

    method PushOldest(h: ExpirationHeap<Storage>, id: SourceId, ghost done: set<SourceId>)
      requires Settled() && done <= index.Keys && id in index.Keys - done
      requires IsHeap(h.items) && multiset(h.items) == ExpirationsOf(done)
      modifies h
      ensures Settled() && View() == old(View())
      ensures IsHeap(h.items) && multiset(h.items) == ExpirationsOf(done + {id})
    {
      var oldest := Trees.Left(index[id].root);
      PushSource(h, Expiration(oldest, id, index[id]), done);
    }

    lemma PoppedIsOldest(items: seq<Expiration<Storage>>, x: Expiration<Storage>)
      requires Settled() && multiset(items) == ExpirationsOf(index.Keys)
      requires x in items && forall y :: y in items ==> x.timestamp <= y.timestamp
      ensures x.sourceId in index && x == ExpirationOf(x.sourceId) && IsOldest(View(), x.sourceId)
    {
      assert x in multiset(items);
      var id := x.sourceId;
      var v := View();
      assert v.sources[id].entries == Contents(index[id].root);
      assert x.timestamp in v.sources[id].entries;
      forall j, k | Holds(v, j, k) ensures LeastKey(v.sources[id].entries) <= k {
        assert ExpirationOf(j) in multiset(items);
        assert ExpirationOf(j) in items;
      }
    }

    lemma HeapWithout(items: seq<Expiration<Storage>>, id: SourceId)
      requires id in index && multiset(items) == ExpirationsOf(index.Keys) - multiset{ExpirationOf(id)}
      ensures multiset(items) == ExpirationsOf(index.Keys - {id}) && index.Keys - {id} + {id} == index.Keys
    {
      ExpirationsAdd(index.Keys - {id}, id);
      assert index.Keys - {id} + {id} == index.Keys;
    }

    /** Expire from a settled store: the other sources' heap entries stay correct. */
    method ExpireSettled(id: SourceId) returns (timestamp: int, valid: bool)
      requires Settled() && id in index
      modifies index[id], `index, `count, `expired
      ensures Settled()
      ensures index == if valid then old(index) else old(index) - {id}
      ensures valid ==> timestamp == index[id].oldest
      ensures index.Keys == if valid then old(index.Keys) else old(index.Keys) - {id}
      ensures ExpirationsOf(old(index.Keys) - {id}) == old(ExpirationsOf(index.Keys - {id}))
      ensures old(View()).sources[id].entries != map[] && View() == Expire(old(View()), id)
    {
      ghost var others := index.Keys - {id};
      ghost var tree := index[id];
      timestamp, valid := RemoveOldestEnvelope(index[id], id);
      forall j | j in others ensures index[j] == old(index[j]) && index[j].View() == old(index[j].View()) {
        assert index[j].sourceId != tree.sourceId;
      }
      assert forall j :: j in others ==> ExpirationOf(j) == old(ExpirationOf(j));
    }

    /** `heap.Pop` yields a source that holds the oldest envelope of the whole store. */
    method PopOldest(h: ExpirationHeap<Storage>) returns (x: Expiration<Storage>)
      requires Settled() && IsHeap(h.items) && multiset(h.items) == ExpirationsOf(index.Keys) && h.items != []
      modifies h
      ensures Settled() && View() == old(View())
      ensures x.sourceId in index && x == ExpirationOf(x.sourceId) && IsOldest(View(), x.sourceId)
      ensures IsHeap(h.items) && multiset(h.items) == ExpirationsOf(index.Keys - {x.sourceId})
      ensures index.Keys - {x.sourceId} + {x.sourceId} == index.Keys
    {
      ghost var items := h.items;
      x := h.Pop();
      SameStore();
      PoppedIsOldest(items, x);
      HeapWithout(h.items, x.sourceId);
    }

    /** One round of the truncation loop. */
    method PruneOne(h: ExpirationHeap<Storage>) returns (ghost id: SourceId)
      requires Settled() && IsHeap(h.items) && multiset(h.items) == ExpirationsOf(index.Keys) && h.items != []
      modifies index.Values, `index, `count, `expired, h
      ensures Settled() && IsHeap(h.items) && multiset(h.items) == ExpirationsOf(index.Keys)
      ensures index == old(index) || index == old(index) - {id}
      ensures old(IsOldest(View(), id)) && View() == Expire(old(View()), id)
    {
      var x := PopOldest(h);
      id := x.sourceId;
      ghost var others := index.Keys - {id};
      var timestamp, valid := ExpireSettled(x.sourceId);
      if valid {
        PushSource(h, Expiration(timestamp, x.sourceId, x.tree), others);
      }
    }

    lemma HeapEmptyIffStoreEmpty(items: seq<Expiration<Storage>>)
      requires Valid() && multiset(items) == ExpirationsOf(index.Keys)
      ensures items == [] <==> index == map[]
      ensures index == map[] ==> Total(View()) == 0
    {
      assert forall id :: id in index ==> ExpirationOf(id) in multiset(items);
      assert items != [] ==> items[0] in multiset(items);
      assert index.Keys == {} ==> index == map[];
      if index == map[] {
        assert Sizes(View()) == map[];
      }
    }

    /** The loop of `Truncate`: up to `n` rounds, stopping early only if the heap runs empty. */
    method PruneLoop(h: ExpirationHeap<Storage>, n: int) returns (panicked: bool, ghost ids: seq<SourceId>)
      requires Settled() && IsHeap(h.items) && multiset(h.items) == ExpirationsOf(index.Keys)
      modifies index.Values, `index, `count, `expired, h
      ensures Settled() && IsHeap(h.items) && multiset(h.items) == ExpirationsOf(index.Keys)
      ensures TruncatesTo(old(View()), ids, View())
      ensures Total(View()) == Total(old(View())) - |ids|
      ensures if panicked then |ids| < n && index == map[] else |ids| == Max(0, n)
    {
      var i := 0;
      panicked, ids := false, [];
      while i < n
        invariant |ids| == i && (i <= n || i == 0)
        invariant Settled() && IsHeap(h.items) && multiset(h.items) == ExpirationsOf(index.Keys)
        invariant forall id :: id in index ==> id in old(index) && index[id] == old(index)[id]
        invariant TruncatesTo(old(View()), ids, View())
        invariant Total(View()) == Total(old(View())) - i
      {
        if h.Len() == 0 {
          HeapEmptyIffStoreEmpty(h.items);
          return true, ids;
        }
        ghost var v := View();
        ghost var id := PruneOne(h);
        OldestFirstAppend(old(View()), ids, id);
        TotalAfterExpire(v, id);
        ids := ids + [id];
        i := i + 1;
      }
    }

    /** No envelope is older than the timestamp. */
    ghost predicate IsLeastOldest(timestamp: int)
      reads `index, index.Values
    {
      forall id :: id in index ==> timestamp <= index[id].oldest
    }

    ghost predicate DistinctOldest()
      reads `index, index.Values
    {
      forall i, j :: i in index && j in index && index[i].oldest == index[j].oldest ==> i == j
    }

    /**
     The timestamp is the oldest one of some indexed source. Unless two sources tie, it is the least of
     all exactly if that source is the only one.
     */
    ghost predicate IsLiveOldest(timestamp: int)
      reads `index, index.Values
    {
      exists id :: id in index && timestamp == index[id].oldest
        && (DistinctOldest() ==> (IsLeastOldest(timestamp) <==> index.Keys == {id}))
    }

    /** Every item of the heap stands for one source, and no source has two. */
    lemma ItemsAreSources(items: seq<Expiration<Storage>>, i: nat, j: nat)
      requires multiset(items) == ExpirationsOf(index.Keys) && i < j < |items|
      ensures items[i].sourceId in index && items[i] == ExpirationOf(items[i].sourceId)
      ensures items[j].sourceId in index && items[j] == ExpirationOf(items[j].sourceId)
      ensures items[i].sourceId != items[j].sourceId
    {
      assert items[i] in multiset(items) && items[j] in multiset(items);
      assert items == items[..j] + [items[j]] + items[j + 1..];
      assert items[i] in items[..j];
      assert multiset(items)[items[j]] == 1;
    }

    lemma LastIsLive(items: seq<Expiration<Storage>>)
      requires IsHeap(items) && items != [] && multiset(items) == ExpirationsOf(index.Keys)
      ensures IsLiveOldest(items[|items| - 1].timestamp)
    {
      var k := |items| - 1;
      var x := items[k];
      assert x in multiset(items);
      if k == 0 {
        assert index.Keys == {x.sourceId} by {
          assert forall id :: id in index ==> ExpirationOf(id) in multiset(items);
        }
      } else {
        ItemsAreSources(items, 0, k);
        RootIsLeast(items, k);
        assert items[0].sourceId in index.Keys && items[0].sourceId != x.sourceId;
      }
    }

    /** The truncation ends by taking the heap's last item, not its root. */
    method LastOldest(h: ExpirationHeap<Storage>) returns (timestamp: int)
      requires Settled() && IsHeap(h.items) && multiset(h.items) == ExpirationsOf(index.Keys) && h.items != []
      modifies h
      ensures Settled() && View() == old(View())
      ensures IsLiveOldest(timestamp)
    {
      LastIsLive(h.items);
      var x := h.PopRaw();
      SameStore();
      SameOldest(x.timestamp);
      timestamp := x.timestamp;
    }

    twostate lemma SameOldest(timestamp: int)
      requires unchanged(`index) && unchanged(old(index.Values)) && old(IsLiveOldest(timestamp))
      ensures IsLiveOldest(timestamp)
    {
    }

    /** The heap-driven part of `Truncate`, in terms of the store alone. */
    method Prune(n: int) returns (panicked: bool, oldest: Option<int>, ghost ids: seq<SourceId>)
      requires Settled()
      modifies index.Values, `index, `count, `expired
      ensures Settled()
      ensures TruncatesTo(old(View()), ids, View())
      ensures panicked <==> n > Total(old(View()))
      ensures |ids| == if panicked then Total(old(View())) else Max(0, n)
      ensures !panicked ==> (oldest.None? <==> index == map[])
      ensures !panicked && oldest.Some? ==> IsLiveOldest(oldest.value)
    {
      ghost var v := View();
      var h := BuildExpirationHeap();
      SameStore();
      panicked, ids := PruneLoop(h, n);
      HeapEmptyIffStoreEmpty(h.items);
      oldest := None;
      if !panicked && h.Len() != 0 {
        var timestamp := LastOldest(h);
        oldest := Some(timestamp);
      }
    }

    /**
     Remove the given number of envelopes, oldest first across all sources. It panics, on `heap.Pop` of
     an empty heap, exactly when the count promises more envelopes than the sources hold.
     */
    method Truncate(quantity: int) returns (outcome: TruncateOutcome, ghost ids: seq<SourceId>)
      requires Settled()
      modifies this, index.Values
      ensures Settled()
      ensures TruncatesTo(old(View()), ids, View())
      ensures outcome.Skipped? <==> quantity == 0
      ensures outcome.Panicked? <==> quantity != 0 && Min(quantity, old(count)) > Total(old(View()))
      ensures |ids| == if outcome.Panicked? then Total(old(View())) else Max(0, Min(quantity, Max(0, old(count))))
      ensures outcome.Emptied? ==> index == map[] && oldestTimestamp == MAX_INT64
      ensures outcome.Pruned? ==> IsLiveOldest(oldestTimestamp)
      ensures consecutiveTruncation == NextConsecutive(outcome, old(consecutiveTruncation))
      ensures outcome.Skipped? ==> consecutiveTruncation == 0
      ensures outcome.Pruned? && old(consecutiveTruncation) + 1 >= prunesPerGC ==> consecutiveTruncation == 0
      ensures outcome.Pruned? && old(consecutiveTruncation) + 1 < prunesPerGC ==>
        consecutiveTruncation == old(consecutiveTruncation) + 1
      ensures outcome.Panicked? || outcome.Emptied? ==> consecutiveTruncation == old(consecutiveTruncation)
    {
      if quantity == 0 {
        outcome := RecordSkip();
        ids := [];
        SameStore();
      } else {
        outcome, ids := TruncateSome(quantity);
      }
    }

    method TruncateSome(quantity: int) returns (outcome: TruncateOutcome, ghost ids: seq<SourceId>)
      requires Settled()
      modifies `oldestTimestamp, `consecutiveTruncation, index.Values, `index, `count, `expired
      ensures Settled()
      ensures TruncatesTo(old(View()), ids, View())
      ensures !outcome.Skipped?
      ensures outcome.Panicked? <==> Min(quantity, old(count)) > Total(old(View()))
      ensures |ids| == if outcome.Panicked? then Total(old(View())) else Max(0, Min(quantity, Max(0, old(count))))
      ensures outcome.Emptied? ==> index == map[] && oldestTimestamp == MAX_INT64
      ensures outcome.Pruned? ==> IsLiveOldest(oldestTimestamp)
      ensures consecutiveTruncation == NextConsecutive(outcome, old(consecutiveTruncation))
    {
      hide TruncatesTo, Total, Store.View, Store.Settled, Store.IsLiveOldest;
      var panicked, oldest;
      panicked, oldest, ids := Prune(Min(quantity, count));
      outcome := RecordTruncation(panicked, oldest);
    }

    method RecordSkip() returns (outcome: TruncateOutcome)
      modifies `consecutiveTruncation
      ensures outcome.Skipped? && consecutiveTruncation == 0
    {
      consecutiveTruncation := 0;
      return Skipped;
    }

    /** How many prunes in a row there were; at `prunesPerGC` a garbage collection starts the count again. */
    ghost function NextConsecutive(outcome: TruncateOutcome, n: int): int {
      match outcome
      case Skipped => 0
      case Pruned => if n + 1 >= prunesPerGC then 0 else n + 1
      case _ => n
    }

    /** Bookkeeping at the end of a truncation. */
    method RecordTruncation(panicked: bool, oldest: Option<int>) returns (outcome: TruncateOutcome)
      modifies `oldestTimestamp, `consecutiveTruncation
      ensures outcome == if panicked then Panicked else if oldest.None? then Emptied else Pruned
      ensures outcome.Emptied? ==> oldestTimestamp == MAX_INT64
      ensures outcome.Pruned? ==> oldestTimestamp == oldest.value
      ensures consecutiveTruncation == NextConsecutive(outcome, old(consecutiveTruncation))
    {
      if panicked {
        return Panicked;
      }
      if oldest.None? {
        oldestTimestamp := MAX_INT64;
        return Emptied;
      }
      oldestTimestamp := oldest.value;
      consecutiveTruncation := consecutiveTruncation + 1;
      if consecutiveTruncation >= prunesPerGC {
        consecutiveTruncation := 0;
      }
      return Pruned;
    }
  }
}

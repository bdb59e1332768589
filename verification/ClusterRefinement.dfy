/** With one replica per source, a drained cluster answers like one store that received every send. */
module ClusterRefinement {
  import opened Envelopes
  import opened SearchTrees
  import opened Traversal
  import opened Shapes
  import opened StoreModel
  import opened StoreRuns
  import opened Ordering
  import opened ReverseProxies
  import RoutingTables
  import C = Clusters

  // ---------- conservation ----------

  /** Every source is routed to exactly one of `n` nodes. */
  ghost predicate SingleOwner(l: Lookup, n: nat) {
    forall s :: |l(s)| == 1 && l(s)[0] < n
  }

  /** The routing table a node starts with (replication factor one, no overrides) routes every source to one owner. */
  lemma RoutingTableHasOwners(l: Lookup, hash: SourceId -> nat, n: nat)
    requires forall s :: hash(s) < n && l(s) == RoutingTables.Replicas(hash(s), 1, n)
    ensures SingleOwner(l, n)
  {
    forall s ensures |l(s)| == 1 && l(s)[0] < n {
      RoutingTables.SingleOwner(hash(s), n);
    }
  }

  ghost function Owner(l: Lookup, e: Envelope): nat
    requires |l(e.sourceId)| == 1
  {
    l(e.sourceId)[0]
  }

  /** The one form in which an envelope can travel. */
  ghost function InTransit(l: Lookup, e: Envelope): C.Parcel
    requires |l(e.sourceId)| == 1
  {
    C.Parcel(Owner(l, e), e, true, 1)
  }

  /** Each sent envelope is stored at its owner, still travelling, or lost. */
  ghost predicate Accounted(w: C.World, l: Lookup, e: Envelope)
    requires |l(e.sourceId)| == 1 && Owner(l, e) < |w.logs|
  {
    multiset(w.sent)[e] == multiset(w.logs[Owner(l, e)])[e] + w.net[InTransit(l, e)] + w.dropped[InTransit(l, e)]
  }

  ghost predicate Conserved(w: C.World, l: Lookup, n: nat)
    requires SingleOwner(l, n)
  {
    |w.logs| == n && forall e :: Accounted(w, l, e)
  }

  lemma OnceInSingleton(nodes: seq<nat>)
    requires |nodes| == 1
    ensures Occurrences(nodes, nodes[0]) == 1
  {
    assert Occurrences(nodes[..0], nodes[0]) == 0;
  }

  /** An owner's share of a batch holds every copy of an envelope it owns. */
  lemma {:induction false} ShareCount(batch: seq<Envelope>, l: Lookup, e: Envelope)
    requires |l(e.sourceId)| == 1
    ensures multiset(ShareOf(batch, l, Owner(l, e)))[e] == multiset(batch)[e]
  {
    hide Occurrences, Repeat;
    if batch != [] {
      var k, f := |batch| - 1, batch[|batch| - 1];
      ShareCount(batch[..k], l, e);
      C.RepeatCount(f, Occurrences(l(f.sourceId), Owner(l, e)), e);
      OnceInSingleton(l(e.sourceId));
      assert batch == batch[..k] + [f];
    }
  }

  lemma {:induction false} ForwardsNothingToSelf(batch: seq<Envelope>, l: Lookup, node: nat, hops: nat, e: Envelope)
    ensures C.Forwards(batch, l, node, hops)[C.Parcel(node, e, true, hops + 1)] == 0
  {
    if batch != [] {
      var f := batch[|batch| - 1];
      ForwardsNothingToSelf(batch[..|batch| - 1], l, node, hops, e);
      ForwardsOneNothingToSelf(f, l(f.sourceId), node, hops, e);
    }
  }

  lemma {:induction false} ForwardsOneNothingToSelf(f: Envelope, nodes: seq<nat>, node: nat, hops: nat, e: Envelope)
    ensures C.ForwardsOne(f, nodes, node, hops)[C.Parcel(node, e, true, hops + 1)] == 0
  {
    if nodes != [] { ForwardsOneNothingToSelf(f, nodes[..|nodes| - 1], node, hops, e); }
  }

  lemma SendAccounts(w: C.World, l: Lookup, n: nat, node: nat, batch: seq<Envelope>, e: Envelope)
    requires SingleOwner(l, n) && |w.logs| == n && node < n && Accounted(w, l, e)
    ensures Accounted(C.Step(w, l, C.ClientSend(node, batch)), l, e)
  {
    hide C.Forwards, ShareOf, Occurrences;
    ShareCount(batch, l, e);
    var o := Owner(l, e);
    if o == node {
      ForwardsNothingToSelf(batch, l, node, 0, e);
    } else {
      C.ForwardsAreShares(batch, l, node, 0, o, e);
    }
  }

  lemma {:induction false} ContainedCount(parcels: seq<C.Parcel>, p: C.Parcel)
    requires forall i :: 0 <= i < |parcels| ==> parcels[i] == p.(e := parcels[i].e)
    ensures multiset(C.Contained(parcels))[p.e] == multiset(parcels)[p]
  {
    if parcels != [] {
      var k := |parcels| - 1;
      ContainedCount(parcels[..k], p);
      assert parcels == parcels[..k] + [parcels[k]];
      assert C.Contained(parcels) == C.Contained(parcels[..k]) + [parcels[k].e];
    }
  }

  lemma DeliverAccounts(w: C.World, l: Lookup, n: nat, node: nat, parcels: seq<C.Parcel>, localOnly: bool, hops: nat, e: Envelope)
    requires SingleOwner(l, n) && |w.logs| == n && C.Placed(w, l) && Accounted(w, l, e)
    requires C.Enabled(w, C.Deliver(node, parcels, localOnly, hops))
    ensures Accounted(C.Step(w, l, C.Deliver(node, parcels, localOnly, hops)), l, e)
  {
    C.ParcelsBelong(w, l, node, parcels);
    if parcels == [] {
      C.EmptyDelivery(w, l, node, localOnly, hops);
      assert w.net - multiset(parcels) == w.net;
      return;
    }
    assert C.WellAddressed(parcels[0], l);
    if Owner(l, e) == node {
      ContainedCount(parcels, InTransit(l, e));
    } else {
      assert InTransit(l, e) !in multiset(parcels);
    }
  }

  lemma StepConserves(w: C.World, l: Lookup, n: nat, a: C.Action)
    requires SingleOwner(l, n) && Conserved(w, l, n) && C.Placed(w, l) && C.Enabled(w, a)
    ensures Conserved(C.Step(w, l, a), l, n)
  {
    var v := C.Step(w, l, a);
    forall e ensures Accounted(v, l, e) {
      assert Accounted(w, l, e);
      match a
      case ClientSend(node, batch) => SendAccounts(w, l, n, node, batch, e);
      case Deliver(node, parcels, localOnly, hops) => DeliverAccounts(w, l, n, node, parcels, localOnly, hops, e);
      case Drop(p) =>
    }
  }

  lemma {:induction false} EveryRunConserves(trace: seq<C.World>, actions: seq<C.Action>, l: Lookup, n: nat, i: nat)
    requires SingleOwner(l, n) && C.IsRun(trace, actions, l, n) && i < |trace|
    ensures Conserved(trace[i], l, n)
  {
    if i > 0 {
      EveryRunConserves(trace, actions, l, n, i - 1);
      C.EveryRunPlaces(trace, actions, l, n, i - 1);
      StepConserves(trace[i - 1], l, n, actions[i - 1]);
    }
  }

  // ---------- the store of a log ----------

  ghost function OfSource(log: seq<Envelope>, id: SourceId): seq<Envelope> {
    if log == [] then [] else
    var e := log[|log| - 1];
    OfSource(log[..|log| - 1], id) + if e.sourceId == id then [e] else []
  }

  /** The store after putting every envelope of the log under its own source. */
  ghost function Replay(log: seq<Envelope>, max: nat): State
    requires 1 <= max
  {
    if log == [] then EMPTY else
    var e := log[|log| - 1];
    StoreModel.Put(Replay(log[..|log| - 1], max), e, e.sourceId, max)
  }

  lemma {:induction false} ReplayIsFillPerSource(log: seq<Envelope>, id: SourceId, max: nat)
    requires 1 <= max
    ensures SourceOf(Replay(log, max), id) == Fill(OfSource(log, id), max)
    ensures id in Replay(log, max).sources <==> OfSource(log, id) != []
  {
    hide Insert;
    if log != [] {
      var k, e := |log| - 1, log[|log| - 1];
      ReplayIsFillPerSource(log[..k], id, max);
      if e.sourceId == id {
        var before := OfSource(log[..k], id);
        assert OfSource(log, id)[..|before|] == before;
      } else {
        assert OfSource(log, id) == OfSource(log[..k], id);
      }
    }
  }

  lemma {:induction false} OfSourceCount(log: seq<Envelope>, id: SourceId, e: Envelope)
    ensures multiset(OfSource(log, id))[e] == if e.sourceId == id then multiset(log)[e] else 0
  {
    if log != [] {
      var k := |log| - 1;
      OfSourceCount(log[..k], id, e);
      assert log == log[..k] + [log[k]];
    }
  }

  // ---------- distinct timestamps: the order of arrival does not matter ----------

  ghost predicate DistinctTimes(es: multiset<Envelope>) {
    forall e, f :: e in es && f in es && e.timestamp == f.timestamp ==> e == f && es[e] == 1
  }

  /** The source that holds exactly these envelopes, each under its own timestamp. */
  ghost predicate HoldsExactly(s: Source, es: seq<Envelope>) {
    && Unfudged(s.entries)
    && (forall k :: k in s.entries ==> s.entries[k] in multiset(es))
    && (forall e :: e in multiset(es) ==> e.timestamp in s.entries && s.entries[e.timestamp] == e)
    && |s.entries| == |es| && s.expired == 0
    && IsNewest(s.newest, es)
    && if es == [] then s == EMPTY_SOURCE else IsLeast(s.oldest, s.entries)
  }

  lemma InsertUnfudged(s: Source, e: Envelope, max: nat)
    requires |s.entries| < max && e.timestamp !in s.entries
    ensures Insert(s, e, max).entries == s.entries[e.timestamp := e]
    ensures |Insert(s, e, max).entries| == |s.entries| + 1
  {
    KeyIsUnique(s.entries, e.timestamp, e.timestamp);
    assert s.entries[e.timestamp := e].Keys == s.entries.Keys + {e.timestamp};
  }

  lemma FreshTime(s: Source, es: seq<Envelope>, e: Envelope)
    requires HoldsExactly(s, es) && DistinctTimes(multiset(es + [e]))
    ensures e.timestamp !in s.entries
  {
    assert multiset(es + [e]) == multiset(es) + multiset{e};
    assert e in multiset(es + [e]) && forall f :: f in multiset(es) ==> f in multiset(es + [e]);
  }

  lemma DistinctPrefix(es: seq<Envelope>, e: Envelope)
    requires DistinctTimes(multiset(es + [e]))
    ensures DistinctTimes(multiset(es))
  {
    assert multiset(es + [e]) == multiset(es) + multiset{e};
    forall f, g | f in multiset(es) && g in multiset(es) && f.timestamp == g.timestamp
      ensures f == g && multiset(es)[f] == 1
    {
      assert f in multiset(es + [e]) && g in multiset(es + [e]);
    }
  }

  lemma InsertHoldsExactly(s: Source, es: seq<Envelope>, e: Envelope, max: nat)
    requires HoldsExactly(s, es) && |es| < max && e.timestamp !in s.entries
    ensures HoldsExactly(Insert(s, e, max), es + [e])
  {
    InsertUnfudged(s, e, max);
    NewestStep(s.newest, es, e);
    assert multiset(es + [e]) == multiset(es) + multiset{e};
  }

  lemma {:induction false} FillHoldsExactly(es: seq<Envelope>, max: nat)
    requires 1 <= max && |es| <= max && DistinctTimes(multiset(es))
    ensures HoldsExactly(Fill(es, max), es)
  {
    hide Insert, HoldsExactly, DistinctTimes;
    if es != [] {
      var prefix, e := es[..|es| - 1], es[|es| - 1];
      assert es == prefix + [e];
      DistinctPrefix(prefix, e);
      FillHoldsExactly(prefix, max);
      FreshTime(Fill(prefix, max), prefix, e);
      InsertHoldsExactly(Fill(prefix, max), prefix, e, max);
    } else {
      EmptyHoldsNothing(es, max);
    }
  }

  lemma EmptyHoldsNothing(es: seq<Envelope>, max: nat)
    requires 1 <= max && es == []
    ensures HoldsExactly(Fill(es, max), es)
  {
  }

  lemma NewestIsUnique(a: int, b: int, es: seq<Envelope>, fs: seq<Envelope>)
    requires IsNewest(a, es) && IsNewest(b, fs) && multiset(es) == multiset(fs)
    ensures a == b
  {
    forall i | 0 <= i < |es| ensures es[i] in multiset(fs) { assert es[i] in multiset(es); }
    forall i | 0 <= i < |fs| ensures fs[i] in multiset(es) { assert fs[i] in multiset(fs); }
  }

  lemma SameEnvelopesSameSource(s: Source, t: Source, es: seq<Envelope>, fs: seq<Envelope>)
    requires HoldsExactly(s, es) && HoldsExactly(t, fs) && multiset(es) == multiset(fs)
    ensures s == t
  {
    NewestIsUnique(s.newest, t.newest, es, fs);
    SameLength(es, fs);
    EntriesWithin(s, t, es, fs);
    EntriesWithin(t, s, fs, es);
    if s.entries != t.entries {
      var _ := DifferAt(s.entries, t.entries);
    }
  }

  lemma DifferAt<K, V>(m: map<K, V>, n: map<K, V>) returns (k: K)
    requires m != n
    ensures (k in m) != (k in n) || (k in m && k in n && m[k] != n[k])
  {
    if x :| x in m && (x !in n || m[x] != n[x]) {
      k := x;
    } else {
      assert m.Keys <= n.Keys;
      k :| k in n && k !in m;
    }
  }

  lemma EntriesWithin(s: Source, t: Source, es: seq<Envelope>, fs: seq<Envelope>)
    requires HoldsExactly(s, es) && HoldsExactly(t, fs) && multiset(es) == multiset(fs)
    ensures forall k :: k in s.entries ==> k in t.entries && t.entries[k] == s.entries[k]
  {
    forall k | k in s.entries ensures k in t.entries && t.entries[k] == s.entries[k] {
      var e := s.entries[k];
      assert e in multiset(es) && e in multiset(fs);
    }
  }

  lemma SameLength(es: seq<Envelope>, fs: seq<Envelope>)
    requires multiset(es) == multiset(fs)
    ensures |es| == |fs|
  {
    assert |multiset(es)| == |es| && |multiset(fs)| == |fs|;
  }

  // ---------- the drained cluster ----------

  /** Nothing of this source is travelling and nothing of it was lost. */
  ghost predicate Drained(w: C.World, id: SourceId) {
    && (forall p :: p in w.net ==> p.e.sourceId != id)
    && (forall p :: p in w.dropped ==> p.e.sourceId != id)
  }

  lemma OwnerReceivedAll(w: C.World, l: Lookup, n: nat, id: SourceId)
    requires SingleOwner(l, n) && Conserved(w, l, n) && Drained(w, id)
    ensures multiset(OfSource(w.logs[l(id)[0]], id)) == multiset(OfSource(w.sent, id))
  {
    forall e ensures multiset(OfSource(w.logs[l(id)[0]], id))[e] == multiset(OfSource(w.sent, id))[e] {
      OfSourceCount(w.logs[l(id)[0]], id, e);
      OfSourceCount(w.sent, id, e);
      if e.sourceId == id {
        assert Accounted(w, l, e);
        assert InTransit(l, e) !in w.net && InTransit(l, e) !in w.dropped;
      }
    }
  }

  lemma {:induction false} NothingOfOthers(log: seq<Envelope>, l: Lookup, node: nat, id: SourceId)
    requires C.Belongs(log, l, node) && node !in l(id)
    ensures OfSource(log, id) == []
  {
    if log != [] {
      assert C.Belongs(log[..|log| - 1], l, node);
      NothingOfOthers(log[..|log| - 1], l, node, id);
    }
  }

  ghost predicate FitsOneStore(sent: seq<Envelope>, id: SourceId, max: nat) {
    1 <= max && |OfSource(sent, id)| <= max && DistinctTimes(multiset(OfSource(sent, id)))
  }

  /** Two logs with the same envelopes of a source give the same store as far as that source goes. */
  lemma OrderDoesNotMatter(log: seq<Envelope>, sent: seq<Envelope>, id: SourceId, max: nat)
    requires FitsOneStore(sent, id, max) && multiset(OfSource(log, id)) == multiset(OfSource(sent, id))
    ensures SourceOf(Replay(log, max), id) == SourceOf(Replay(sent, max), id)
    ensures Unfudged(SourceOf(Replay(sent, max), id).entries)
  {
    hide OfSource, Replay, Fill, DistinctTimes;
    var held, all := OfSource(log, id), OfSource(sent, id);
    SameLength(held, all);
    FillHoldsExactly(held, max);
    FillHoldsExactly(all, max);
    SameEnvelopesSameSource(Fill(held, max), Fill(all, max), held, all);
    ReplayIsFillPerSource(log, id, max);
    ReplayIsFillPerSource(sent, id, max);
  }

  /** The owner agrees with the single store about a source, and no other node knows it. */
  ghost predicate Agrees(w: C.World, l: Lookup, n: nat, id: SourceId, max: nat)
    requires SingleOwner(l, n) && |w.logs| == n && 1 <= max
  {
    && SourceOf(Replay(w.logs[l(id)[0]], max), id) == SourceOf(Replay(w.sent, max), id)
    && forall k :: 0 <= k < n && k != l(id)[0] ==> id !in Replay(w.logs[k], max).sources
  }

  /**
   Below capacity and with distinct timestamps, once nothing of a source is under way its owner holds
   exactly what a single store that received every send would hold, counters included, and no other
   node knows the source.
   */
  lemma OwnerHoldsWhatOneStoreHolds(trace: seq<C.World>, actions: seq<C.Action>, l: Lookup, n: nat, i: nat, id: SourceId, max: nat)
    requires SingleOwner(l, n) && C.IsRun(trace, actions, l, n) && i < |trace|
    requires Drained(trace[i], id) && FitsOneStore(trace[i].sent, id, max)
    ensures |trace[i].logs| == n && Agrees(trace[i], l, n, id, max)
  {
    hide OfSource, Replay, C.IsRun, Drained, DistinctTimes;
    var w, o := trace[i], l(id)[0];
    EveryRunConserves(trace, actions, l, n, i);
    C.EveryRunPlaces(trace, actions, l, n, i);
    OwnerReceivedAll(w, l, n, id);
    OrderDoesNotMatter(w.logs[o], w.sent, id, max);
    forall k | 0 <= k < n && k != o ensures id !in Replay(w.logs[k], max).sources {
      NothingOfOthers(w.logs[k], l, k, id);
      ReplayIsFillPerSource(w.logs[k], id, max);
    }
  }

  /** A node answers for a source from some tree over what it holds of it. */
  ghost predicate Serves(tree: Tree<Envelope>, log: seq<Envelope>, id: SourceId, max: nat)
    requires 1 <= max
  {
    IsBst(tree) && Contents(tree) == SourceOf(Replay(log, max), id).entries
  }

  /**
   A read sent to any node, over whatever trees the nodes keep, answers as the single store does over
   whatever tree it keeps. Only a read that has to ask an unavailable owner gets no envelopes instead.
   */
  method ReadThroughAnyNode(asked: nat, id: SourceId, q: Query, trees: seq<Tree<Envelope>>, l: Lookup, random: nat,
                            available: nat -> bool,
                            ghost trace: seq<C.World>, ghost actions: seq<C.Action>, ghost i: nat, ghost max: nat,
                            ghost single: Tree<Envelope>)
    returns (res: seq<Envelope>)
    requires SingleOwner(l, |trees|) && C.IsRun(trace, actions, l, |trees|) && i < |trace| && |trace[i].logs| == |trees|
    requires Drained(trace[i], id) && FitsOneStore(trace[i].sent, id, max)
    requires asked < |trees| && random < |l(id)|
    requires forall k :: 0 <= k < |trees| ==> Serves(trees[k], trace[i].logs[k], id, max)
    requires Serves(single, trace[i].sent, id, max)
    ensures res == if asked in l(id) || available(l(id)[0]) then Read(single, q) else []
  {
    hide C.IsRun, Drained, OfSource, Replay, DistinctTimes, Read, IsBst, Contents;
    OwnerHoldsWhatOneStoreHolds(trace, actions, l, |trees|, i, id, max);
    OrderDoesNotMatter(trace[i].sent, trace[i].sent, id, max);
    var nodes := l(id);
    UnfudgedShapeIsIrrelevant(trees[nodes[0]], single, q);
    var route := RouteRead(asked, nodes, random);
    match route
    case Local =>
      res := Read(trees[asked], q);
    case Remote(node) =>
      if !available(node) {
        return [];
      }
      var forwarded := AnswerForwarded(node, nodes, 0);
      assert forwarded == Local;
      res := Read(trees[node], q);
  }
}

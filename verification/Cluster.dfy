/**
 A cluster of stores behind ingress proxies. Forwarded envelopes travel one by one: they may be delayed,
 reordered, regrouped into new batches or lost. Each node's store is given by the log of its puts.
 */
module Clusters {
  import opened Envelopes
  import opened ReverseProxies

  /** An envelope on its way to a node, and how often its request has been forwarded so far. */
  datatype Parcel = Parcel(dest: nat, e: Envelope, localOnly: bool, hops: nat)

  datatype World = World(
    logs: seq<seq<Envelope>>,
    net: multiset<Parcel>,
    dropped: multiset<Parcel>,
    sent: seq<Envelope>)

  datatype Action =
    | ClientSend(node: nat, batch: seq<Envelope>)
    | Deliver(node: nat, parcels: seq<Parcel>, localOnly: bool, hops: nat)
    | Drop(parcel: Parcel)

  ghost function Start(n: nat): World {
    World(seq(n, i => []), multiset{}, multiset{}, [])
  }

  ghost function Contained(parcels: seq<Parcel>): seq<Envelope> {
    seq(|parcels|, i requires 0 <= i < |parcels| => parcels[i].e)
  }

  // ---------- one node handling a request ----------

  /** What the proxy of `node` forwards for one envelope. */
  ghost function ForwardsOne(e: Envelope, nodes: seq<nat>, node: nat, hops: nat): multiset<Parcel> {
    if nodes == [] then multiset{} else
    var d := nodes[|nodes| - 1];
    ForwardsOne(e, nodes[..|nodes| - 1], node, hops)
    + if d == node then multiset{} else multiset{Parcel(d, e, true, hops + 1)}
  }

  ghost function Forwards(batch: seq<Envelope>, l: Lookup, node: nat, hops: nat): multiset<Parcel> {
    if batch == [] then multiset{} else
    var e := batch[|batch| - 1];
    Forwards(batch[..|batch| - 1], l, node, hops) + ForwardsOne(e, l(e.sourceId), node, hops)
  }

  /** `Send` on the proxy of a node: a local-only request is stored, any other one is split by owner. */
  ghost function Handle(w: World, l: Lookup, node: nat, localOnly: bool, batch: seq<Envelope>, hops: nat): World
    requires node < |w.logs|
  {
    if localOnly then
      w.(logs := w.logs[node := w.logs[node] + batch])
    else
      w.(logs := w.logs[node := w.logs[node] + ShareOf(batch, l, node)],
         net := w.net + Forwards(batch, l, node, hops))
  }

  // ---------- runs ----------

  ghost predicate Enabled(w: World, a: Action) {
    match a
    case ClientSend(node, _) => node < |w.logs|
    case Deliver(node, parcels, localOnly, hops) =>
      && node < |w.logs| && multiset(parcels) <= w.net
      && forall i :: 0 <= i < |parcels| ==>
           parcels[i].dest == node && parcels[i].localOnly == localOnly && parcels[i].hops == hops
    case Drop(p) => p in w.net
  }

  /** Clients send with `LocalOnly` false. */
  ghost function Step(w: World, l: Lookup, a: Action): World
    requires Enabled(w, a)
  {
    match a
    case ClientSend(node, batch) => Handle(w, l, node, false, batch, 0).(sent := w.sent + batch)
    case Deliver(node, parcels, localOnly, hops) =>
      Handle(w.(net := w.net - multiset(parcels)), l, node, localOnly, Contained(parcels), hops)
    case Drop(p) => w.(net := w.net - multiset{p}, dropped := w.dropped + multiset{p})
  }

  ghost predicate IsRun(trace: seq<World>, actions: seq<Action>, l: Lookup, n: nat) {
    && |trace| == |actions| + 1 && trace[0] == Start(n)
    && forall i :: 0 <= i < |actions| ==> Enabled(trace[i], actions[i]) && trace[i + 1] == Step(trace[i], l, actions[i])
  }

  // ---------- placement ----------

  /** A request on the wire has been forwarded exactly once and is going to a replica of its source. */
  ghost predicate WellAddressed(p: Parcel, l: Lookup) {
    p.localOnly && p.hops == 1 && p.dest in l(p.e.sourceId)
  }

  ghost predicate AllWellAddressed(ps: multiset<Parcel>, l: Lookup) {
    forall p :: p in ps ==> WellAddressed(p, l)
  }

  ghost predicate Belongs(log: seq<Envelope>, l: Lookup, node: nat) {
    forall i :: 0 <= i < |log| ==> node in l(log[i].sourceId)
  }

  ghost predicate Placed(w: World, l: Lookup) {
    && AllWellAddressed(w.net, l)
    && forall n :: 0 <= n < |w.logs| ==> Belongs(w.logs[n], l, n)
  }

  lemma {:induction false} OccurrencesMember(nodes: seq<nat>, n: nat)
    ensures Occurrences(nodes, n) > 0 <==> n in nodes
  {
    if nodes != [] {
      var k := |nodes| - 1;
      OccurrencesMember(nodes[..k], n);
      assert nodes == nodes[..k] + [nodes[k]];
    }
  }

  lemma {:induction false} ShareBelongs(batch: seq<Envelope>, l: Lookup, n: nat)
    ensures Belongs(ShareOf(batch, l, n), l, n)
  {
    if batch != [] {
      var k := |batch| - 1;
      ShareBelongs(batch[..k], l, n);
      OccurrencesMember(l(batch[k].sourceId), n);
    }
  }

  lemma {:induction false} ForwardsOneAddressed(e: Envelope, nodes: seq<nat>, l: Lookup, node: nat)
    requires forall i :: 0 <= i < |nodes| ==> nodes[i] in l(e.sourceId)
    ensures AllWellAddressed(ForwardsOne(e, nodes, node, 0), l)
  {
    if nodes != [] {
      ForwardsOneAddressed(e, nodes[..|nodes| - 1], l, node);
    }
  }

  lemma {:induction false} ForwardsAddressed(batch: seq<Envelope>, l: Lookup, node: nat)
    ensures AllWellAddressed(Forwards(batch, l, node, 0), l)
  {
    if batch != [] {
      var e := batch[|batch| - 1];
      ForwardsAddressed(batch[..|batch| - 1], l, node);
      ForwardsOneAddressed(e, l(e.sourceId), l, node);
    }
  }

  lemma ParcelsBelong(w: World, l: Lookup, node: nat, parcels: seq<Parcel>)
    requires Placed(w, l) && multiset(parcels) <= w.net
    requires forall i :: 0 <= i < |parcels| ==> parcels[i].dest == node
    ensures Belongs(Contained(parcels), l, node)
    ensures forall i :: 0 <= i < |parcels| ==> WellAddressed(parcels[i], l)
  {
    forall i | 0 <= i < |parcels| ensures WellAddressed(parcels[i], l) {
      assert parcels[i] in multiset(parcels);
    }
  }

  lemma BelongsAppend(a: seq<Envelope>, b: seq<Envelope>, l: Lookup, n: nat)
    requires Belongs(a, l, n) && Belongs(b, l, n)
    ensures Belongs(a + b, l, n)
  {
  }

  lemma StepKeepsPlaced(w: World, l: Lookup, a: Action)
    requires Placed(w, l) && Enabled(w, a)
    ensures Placed(Step(w, l, a), l)
  {
    match a
    case ClientSend(node, batch) =>
      ShareBelongs(batch, l, node);
      ForwardsAddressed(batch, l, node);
      BelongsAppend(w.logs[node], ShareOf(batch, l, node), l, node);
    case Deliver(node, parcels, localOnly, hops) =>
      ParcelsBelong(w, l, node, parcels);
      BelongsAppend(w.logs[node], Contained(parcels), l, node);
      if parcels == [] {
        EmptyDelivery(w, l, node, localOnly, hops);
      } else {
        assert WellAddressed(parcels[0], l);
      }
    case Drop(p) =>
  }

  lemma EmptyDelivery(w: World, l: Lookup, node: nat, localOnly: bool, hops: nat)
    requires node < |w.logs|
    ensures Handle(w, l, node, localOnly, [], hops) == w
  {
    assert w.logs[node] + [] == w.logs[node];
    assert w.logs[node := w.logs[node]] == w.logs;
  }

  /**
   Whatever the network does, an envelope is stored only on nodes its source is routed to, and no
   request is forwarded more than once.
   */
  lemma {:induction false} EveryRunPlaces(trace: seq<World>, actions: seq<Action>, l: Lookup, n: nat, i: nat)
    requires IsRun(trace, actions, l, n) && i < |trace|
    ensures Placed(trace[i], l)
  {
    if i > 0 {
      EveryRunPlaces(trace, actions, l, n, i - 1);
      StepKeepsPlaced(trace[i - 1], l, actions[i - 1]);
    }
  }

  // ---------- the wire carries exactly the shares ----------

  lemma {:induction false} ForwardsOneCount(e: Envelope, nodes: seq<nat>, node: nat, hops: nat, d: nat, f: Envelope)
    requires d != node
    ensures ForwardsOne(e, nodes, node, hops)[Parcel(d, f, true, hops + 1)] == if f == e then Occurrences(nodes, d) else 0
  {
    if nodes != [] {
      ForwardsOneCount(e, nodes[..|nodes| - 1], node, hops, d, f);
    }
  }

  lemma {:induction false} RepeatCount(e: Envelope, k: nat, f: Envelope)
    ensures multiset(Repeat(e, k))[f] == if f == e then k else 0
  {
    if k > 0 {
      RepeatCount(e, k - 1, f);
      assert Repeat(e, k) == Repeat(e, k - 1) + [e];
    } else {
      assert Repeat(e, k) == [];
    }
  }

  /** What is put on the wire for another node is, envelope by envelope, that node's share of the batch. */
  lemma {:induction false} ForwardsAreShares(batch: seq<Envelope>, l: Lookup, node: nat, hops: nat, d: nat, f: Envelope)
    requires d != node
    ensures Forwards(batch, l, node, hops)[Parcel(d, f, true, hops + 1)] == multiset(ShareOf(batch, l, d))[f]
  {
    if batch != [] {
      var e := batch[|batch| - 1];
      ForwardsAreShares(batch[..|batch| - 1], l, node, hops, d, f);
      ForwardsOneCount(e, l(e.sourceId), node, hops, d, f);
      RepeatCount(e, Occurrences(l(e.sourceId), d), f);
    }
  }

  /** The envelopes of the batch that are routed to `n`, in their original order. */
  ghost function RoutedTo(batch: seq<Envelope>, l: Lookup, n: nat): seq<Envelope> {
    if batch == [] then [] else
    var e := batch[|batch| - 1];
    RoutedTo(batch[..|batch| - 1], l, n) + if n in l(e.sourceId) then [e] else []
  }

  /** When no source has two replicas on one node, a node's share is the ordered sub-list routed to it. */
  lemma {:induction false} ShareIsSublist(batch: seq<Envelope>, l: Lookup, n: nat)
    requires forall s :: Occurrences(l(s), n) <= 1
    ensures ShareOf(batch, l, n) == RoutedTo(batch, l, n)
  {
    if batch != [] {
      var e := batch[|batch| - 1];
      ShareIsSublist(batch[..|batch| - 1], l, n);
      OccurrencesMember(l(e.sourceId), n);
    }
  }
}

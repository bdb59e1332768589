/** Splitting a batch by owner on the way in, and finding a node that can answer on the way out. */
module ReverseProxies {
  import opened Envelopes

  /** The nodes a source is routed to. */
  type Lookup = SourceId -> seq<nat>

  // ---------- ingress ----------

  ghost function Occurrences(nodes: seq<nat>, n: nat): nat {
    if nodes == [] then 0 else
    Occurrences(nodes[..|nodes| - 1], n) + if nodes[|nodes| - 1] == n then 1 else 0
  }

  ghost function Repeat(e: Envelope, k: nat): seq<Envelope> {
    seq(k, i => e)
  }

  /** The part of a batch that goes to node `n`: the original order, once per replica on that node. */
  ghost function ShareOf(batch: seq<Envelope>, l: Lookup, n: nat): seq<Envelope> {
    if batch == [] then [] else
    var e := batch[|batch| - 1];
    ShareOf(batch[..|batch| - 1], l, n) + Repeat(e, Occurrences(l(e.sourceId), n))
  }

  ghost function Batch(byNode: map<nat, seq<Envelope>>, n: nat): seq<Envelope> {
    if n in byNode then byNode[n] else []
  }

  lemma RepeatMore(e: Envelope, k: nat)
    ensures Repeat(e, k) + [e] == Repeat(e, k + 1)
  {
  }

  /** The two nested loops of `Send`: append each envelope to the batch of every node it is routed to. */
  method Split(batch: seq<Envelope>, l: Lookup) returns (byNode: map<nat, seq<Envelope>>)
    ensures forall n :: Batch(byNode, n) == ShareOf(batch, l, n)
    ensures forall n :: n in byNode ==> byNode[n] != []
  {
    byNode := map[];
    for i := 0 to |batch|
      invariant forall n :: Batch(byNode, n) == ShareOf(batch[..i], l, n)
      invariant forall n :: n in byNode ==> byNode[n] != []
    {
      byNode := AppendToAll(byNode, batch[i], l(batch[i].sourceId));
      assert batch[..i + 1][..i] == batch[..i];
    }
    assert batch[..|batch|] == batch;
  }

  /** `r` is `byNode` with the envelope appended once for each listed node. */
  ghost predicate Appended(byNode: map<nat, seq<Envelope>>, e: Envelope, nodes: seq<nat>, r: map<nat, seq<Envelope>>) {
    && (forall n :: Batch(r, n) == Batch(byNode, n) + Repeat(e, Occurrences(nodes, n)))
    && (forall n :: n in r ==> r[n] != [])
  }

  lemma AppendOne(byNode: map<nat, seq<Envelope>>, e: Envelope, nodes: seq<nat>, node: nat, r: map<nat, seq<Envelope>>)
    requires Appended(byNode, e, nodes, r)
    ensures Appended(byNode, e, nodes + [node], r[node := Batch(r, node) + [e]])
  {
    var s := r[node := Batch(r, node) + [e]];
    assert (nodes + [node])[..|nodes|] == nodes;
    forall n ensures Batch(s, n) == Batch(byNode, n) + Repeat(e, Occurrences(nodes + [node], n)) {
      if n == node {
        var k := Occurrences(nodes, n);
        RepeatMore(e, k);
        assert Batch(byNode, n) + Repeat(e, k) + [e] == Batch(byNode, n) + (Repeat(e, k) + [e]);
      }
    }
  }

  method AppendToAll(byNode: map<nat, seq<Envelope>>, e: Envelope, nodes: seq<nat>) returns (r: map<nat, seq<Envelope>>)
    requires forall n :: n in byNode ==> byNode[n] != []
    ensures Appended(byNode, e, nodes, r)
  {
    r := byNode;
    for j := 0 to |nodes|
      invariant Appended(byNode, e, nodes[..j], r)
    {
      AppendOne(byNode, e, nodes[..j], nodes[j], r);
      assert nodes[..j] + [nodes[j]] == nodes[..j + 1];
      r := r[nodes[j] := (if nodes[j] in r then r[nodes[j]] else []) + [e]];
    }
    assert nodes[..|nodes|] == nodes;
  }

  // ---------- egress ----------

  /** How a proxy answers a read: from its own store, by asking another node, or not at all. */
  datatype Route = Unroutable | Local | Remote(node: nat)

  method RouteRead(localIdx: nat, nodes: seq<nat>, random: nat) returns (r: Route)
    requires nodes != [] ==> random < |nodes|
    ensures r.Unroutable? <==> nodes == []
    ensures r.Local? <==> localIdx in nodes
    ensures r.Remote? ==> r.node in nodes && r.node != localIdx && r.node == nodes[random]
  {
    if |nodes| == 0 {
      return Unroutable;
    }
    for i := 0 to |nodes|
      invariant localIdx !in nodes[..i]
    {
      if nodes[i] == localIdx {
        return Local;
      }
    }
    r := Remote(nodes[random]);
  }

  /** A node asked by another one finds itself among the replicas, so a read is forwarded at most once. */
  method AnswerForwarded(asked: nat, nodes: seq<nat>, random: nat) returns (r: Route)
    requires asked in nodes && random < |nodes|
    ensures r == Local
  {
    r := RouteRead(asked, nodes, random);
  }
}

/**
 Choosing keys is linear probing. Below capacity, neither the keys a source occupies nor the envelopes it
 holds depend on the order in which its envelopes arrive, even when their timestamps collide.
 */
module Probing {
  import opened Envelopes
  import opened StoreModel
  import opened Ordering
  import opened ClusterRefinement
  import C = Clusters
  import ReverseProxies

  // ---------- the next free key ----------

  ghost function NextFree(s: set<int>, t: int): (k: int)
    ensures t <= k && k !in s && forall i :: t <= i < k ==> i in s
    decreases |s|
  {
    if t !in s then t else
    var k := NextFree(s - {t}, t + 1);
    assert forall i :: i in s - {t} ==> i in s;
    assert forall i :: t + 1 <= i < k ==> i in s - {t};
    k
  }

  lemma NextFreeIs(s: set<int>, t: int, k: int)
    requires t <= k && k !in s && forall i :: t <= i < k ==> i in s
    ensures NextFree(s, t) == k
  {
  }

  ghost function Probe(s: set<int>, t: int): set<int> {
    s + {NextFree(s, t)}
  }

  /** Two probes occupy the same keys in either order. */
  lemma ProbesCommute(s: set<int>, a: int, b: int)
    ensures Probe(Probe(s, a), b) == Probe(Probe(s, b), a)
  {
    var x, y := NextFree(s, a), NextFree(s, b);
    if x != y {
      NextFreeIs(s + {x}, b, y);
      NextFreeIs(s + {y}, a, x);
      assert s + {x} + {y} == s + {y} + {x};
    } else {
      var z := NextFree(s + {x}, x + 1);
      NextFreeIs(s + {x}, b, z);
      NextFreeIs(s + {x}, a, z);
    }
  }

  // ---------- any order of arrival ----------

  ghost function Occupied(es: seq<Envelope>): set<int> {
    if es == [] then {} else Probe(Occupied(es[..|es| - 1]), es[|es| - 1].timestamp)
  }

  lemma OccupiedMore(es: seq<Envelope>, e: Envelope)
    ensures Occupied(es + [e]) == Probe(Occupied(es), e.timestamp)
  {
    assert (es + [e])[..|es|] == es;
  }

  /** An envelope can be moved to the end. */
  lemma {:induction false} MoveToEnd(p: seq<Envelope>, e: Envelope, q: seq<Envelope>)
    ensures Occupied(p + [e] + q) == Occupied(p + q + [e])
  {
    hide Occupied, Probe;
    if q == [] {
      assert p + [e] + q == p + q + [e];
    } else {
      var k, f := |q| - 1, q[|q| - 1];
      var r := q[..k];
      assert p + [e] + q == (p + [e] + r) + [f] && p + q == (p + r) + [f];
      MoveToEnd(p, e, r);
      OccupiedMore(p + [e] + r, f);
      OccupiedMore(p + r, e);
      OccupiedMore(p + r, f);
      OccupiedMore(p + q, e);
      ProbesCommute(Occupied(p + r), e.timestamp, f.timestamp);
    }
  }

  lemma {:induction false} OccupiedIsOrderFree(es: seq<Envelope>, fs: seq<Envelope>)
    requires multiset(es) == multiset(fs)
    ensures Occupied(es) == Occupied(fs)
  {
    if es == [] {
      NoElements(fs);
    } else {
      var n, e := |es| - 1, es[|es| - 1];
      assert es == es[..n] + [e];
      assert e in multiset(fs) by { assert e in multiset(es); }
      var j :| 0 <= j < |fs| && fs[j] == e;
      var p, q := fs[..j], fs[j + 1..];
      assert fs == p + [e] + q;
      RemoveOne(es[..n], p, q, e);
      OccupiedIsOrderFree(es[..n], p + q);
      MoveToEnd(p, e, q);
      OccupiedMore(es[..n], e);
      OccupiedMore(p + q, e);
    }
  }

  lemma NoElements(fs: seq<Envelope>)
    requires multiset(fs) == multiset{}
    ensures fs == []
  {
    assert |multiset(fs)| == |fs|;
  }

  lemma RemoveOne(es: seq<Envelope>, p: seq<Envelope>, q: seq<Envelope>, e: Envelope)
    requires multiset(es + [e]) == multiset(p + [e] + q)
    ensures multiset(es) == multiset(p + q)
  {
    assert multiset(es + [e]) == multiset(es) + multiset{e};
    assert multiset(p + [e] + q) == multiset(p) + multiset{e} + multiset(q);
    assert multiset(es) == multiset(es + [e]) - multiset{e};
  }

  // ---------- the store's key search is this probing ----------

  lemma SearchIsProbe(m: map<int, Envelope>, t: int)
    requires KeyFor(m, t) !in m
    ensures NextFree(m.Keys, t) == KeyFor(m, t)
  {
    assert forall i :: i in m <==> i in m.Keys;
    NextFreeIs(m.Keys, t, KeyFor(m, t));
  }

  lemma {:induction false} FillOccupies(es: seq<Envelope>, max: nat)
    requires 1 <= max && |es| <= max && NeverOverwrites(es, max)
    ensures Fill(es, max).entries.Keys == Occupied(es) && |Fill(es, max).entries| == |es|
  {
    hide Probe;
    if es != [] {
      var prefix, e := es[..|es| - 1], es[|es| - 1];
      FillOccupies(prefix, max);
      var s := Fill(prefix, max);
      RoomWhenNotFull(s, max);
      InsertSize(s, e, max);
      SearchIsProbe(s.entries, e.timestamp);
      ProbeKeys(s.entries, e);
    }
  }

  lemma ProbeKeys(m: map<int, Envelope>, e: Envelope)
    requires NextFree(m.Keys, e.timestamp) == KeyFor(m, e.timestamp)
    ensures m[KeyFor(m, e.timestamp) := e].Keys == Probe(m.Keys, e.timestamp)
  {
  }

  ghost function Holders(m: map<int, Envelope>, e: Envelope): set<int> {
    set k | k in m && m[k] == e
  }

  /** How many keys hold the envelope. */
  ghost function Copies(m: map<int, Envelope>, e: Envelope): nat {
    |Holders(m, e)|
  }

  lemma CopiesMore(m: map<int, Envelope>, k: int, f: Envelope, e: Envelope)
    requires k !in m
    ensures Copies(m[k := f], e) == Copies(m, e) + if f == e then 1 else 0
  {
    assert Holders(m[k := f], e) == if f == e then Holders(m, e) + {k} else Holders(m, e);
  }

  lemma {:induction false} FillHolds(es: seq<Envelope>, max: nat, e: Envelope)
    requires 1 <= max && |es| <= max && NeverOverwrites(es, max)
    ensures Copies(Fill(es, max).entries, e) == multiset(es)[e]
  {
    hide Copies;
    if es != [] {
      var prefix, f := es[..|es| - 1], es[|es| - 1];
      assert es == prefix + [f];
      FillHolds(prefix, max, e);
      FillOccupies(prefix, max);
      var s := Fill(prefix, max);
      RoomWhenNotFull(s, max);
      CopiesMore(s.entries, KeyFor(s.entries, f.timestamp), f, e);
    } else {
      NoCopies(e);
    }
  }

  lemma NoCopies(e: Envelope)
    ensures Copies(map[], e) == 0
  {
  }

  /**
   Below capacity and with at most 4001 puts of a source, whatever their timestamps: the order of arrival changes
   neither the keys in use nor how often each envelope is held, so nothing is lost in any order.
   */
  lemma ArrivalOrderDoesNotMatter(es: seq<Envelope>, fs: seq<Envelope>, max: nat, e: Envelope)
    requires multiset(es) == multiset(fs) && 1 <= max && |es| <= max && |es| <= MAX_FUDGE + 1
    ensures Fill(es, max).entries.Keys == Fill(fs, max).entries.Keys
    ensures Copies(Fill(es, max).entries, e) == Copies(Fill(fs, max).entries, e) == multiset(es)[e]
  {
    hide Fill, NeverOverwrites, Occupied, Copies;
    assert |multiset(es)| == |es| && |multiset(fs)| == |fs|;
    FewPutsNeverOverwrite(es, max);
    FewPutsNeverOverwrite(fs, max);
    FillOccupies(es, max);
    FillOccupies(fs, max);
    OccupiedIsOrderFree(es, fs);
    FillHolds(es, max, e);
    FillHolds(fs, max, e);
  }

  /**
   Hence the drained owner of a source in a cluster holds the same envelopes under the same keys as a single
   store that received every send, colliding timestamps included.
   */
  lemma OwnerHoldsSameEnvelopes(trace: seq<C.World>, actions: seq<C.Action>, l: ReverseProxies.Lookup, n: nat, i: nat,
                                id: SourceId, max: nat, e: Envelope)
    requires SingleOwner(l, n) && C.IsRun(trace, actions, l, n) && i < |trace| && Drained(trace[i], id)
    requires 1 <= max && |OfSource(trace[i].sent, id)| <= max && |OfSource(trace[i].sent, id)| <= MAX_FUDGE + 1
    ensures |trace[i].logs| == n
    ensures var mine, all := SourceOf(Replay(trace[i].logs[l(id)[0]], max), id).entries, SourceOf(Replay(trace[i].sent, max), id).entries;
      mine.Keys == all.Keys && Copies(mine, e) == Copies(all, e)
  {
    hide C.IsRun, Drained, OfSource, Replay, Fill, Copies;
    var w, o := trace[i], l(id)[0];
    EveryRunConserves(trace, actions, l, n, i);
    OwnerReceivedAll(w, l, n, id);
    ReplayIsFillPerSource(w.logs[o], id, max);
    ReplayIsFillPerSource(w.sent, id, max);
    ArrivalOrderDoesNotMatter(OfSource(w.sent, id), OfSource(w.logs[o], id), max, e);
  }
}

/**
 Truncation as a value: expire one envelope at a time, always from a source whose oldest key is
 smallest in the whole store. Ties may be broken either way.
 */
module Truncation {
  import opened Envelopes
  import opened StoreModel

  ghost predicate Holds(s: State, id: SourceId, k: int) {
    id in s.sources && k in s.sources[id].entries
  }

  /** `id` holds the oldest envelope of the store. */
  ghost predicate IsOldest(s: State, id: SourceId) {
    && id in s.sources && s.sources[id].entries != map[]
    && forall j, k :: Holds(s, j, k) ==> LeastKey(s.sources[id].entries) <= k
  }

  ghost predicate OldestFirst(s: State, ids: seq<SourceId>)
    decreases |ids|
  {
    ids == [] || (IsOldest(s, ids[0]) && OldestFirst(Expire(s, ids[0]), ids[1..]))
  }

  ghost function ExpireAll(s: State, ids: seq<SourceId>): State
    requires OldestFirst(s, ids)
    decreases |ids|
  {
    if ids == [] then s else ExpireAll(Expire(s, ids[0]), ids[1..])
  }

  /** Expiring the listed sources, oldest first, leads from `s` to `t`. */
  ghost predicate TruncatesTo(s: State, ids: seq<SourceId>, t: State) {
    OldestFirst(s, ids) && t == ExpireAll(s, ids)
  }

  /** Everything in `t` was in `s`. */
  ghost predicate Subset(t: State, s: State) {
    forall id, k :: Holds(t, id, k) ==> Holds(s, id, k) && t.sources[id].entries[k] == s.sources[id].entries[k]
  }

  /** Whatever is gone is no newer than anything that stayed, across all sources. */
  ghost predicate OldestGone(s: State, t: State) {
    forall i, k, j, l :: Holds(s, i, k) && !Holds(t, i, k) && Holds(t, j, l) ==> k <= l
  }

  /** The counters of a surviving source account for exactly what it lost. */
  ghost predicate Aged(s: Source, t: Source) {
    && t.expired == s.expired + |s.entries| - |t.entries|
    && t.newest == s.newest
    && t.entries != map[] && t.oldest == LeastKey(t.entries)
  }

  ghost predicate AllAged(s: State, t: State) {
    forall id :: id in t.sources ==> id in s.sources && Aged(s.sources[id], t.sources[id])
  }

  ghost predicate OldestRecorded(s: State) {
    forall id :: id in s.sources ==> s.sources[id].entries != map[] && s.sources[id].oldest == LeastKey(s.sources[id].entries)
  }

  lemma PutRecordsOldest(s: State, e: Envelope, id: SourceId, max: nat)
    requires 1 <= max && OldestRecorded(s)
    ensures OldestRecorded(StoreModel.Put(s, e, id, max))
  {
    var m := Room(SourceOf(s, id), max);
    assert KeyFor(m, e.timestamp) in m[KeyFor(m, e.timestamp) := e];
  }

  lemma ExpireRemoves(s: State, id: SourceId)
    requires IsOldest(s, id) && OldestRecorded(s)
    ensures var t := Expire(s, id);
      && (forall j, k :: Holds(t, j, k) <==> Holds(s, j, k) && !(j == id && k == LeastKey(s.sources[id].entries)))
      && Subset(t, s) && OldestRecorded(t) && AllAged(s, t) && OldestGone(s, t)
  {
    ExpireSize(s.sources[id]);
  }

  lemma AgedChain(s: State, t: State, u: State)
    requires AllAged(s, t) && AllAged(t, u)
    ensures AllAged(s, u)
  {
  }

  lemma GoneChain(s: State, t: State, u: State)
    requires Subset(u, t) && OldestGone(s, t) && OldestGone(t, u)
    ensures OldestGone(s, u)
  {
  }

  /**
   Main result on truncation. Expiring oldest-first removes exactly one envelope per step, and in the
   end every removed key is at most every surviving key of every source; sources that ran empty are
   gone and the counters of the others account for their losses.
   */
  lemma {:induction false} RemovesGloballyOldest(s: State, ids: seq<SourceId>)
    requires OldestRecorded(s) && OldestFirst(s, ids)
    ensures var t := ExpireAll(s, ids);
      && Total(t) == Total(s) - |ids|
      && t.count == s.count - |ids| && t.expired == s.expired + |ids| && t.ingress == s.ingress
      && Subset(t, s) && OldestGone(s, t) && OldestRecorded(t) && AllAged(s, t)
    decreases |ids|
  {
    if ids != [] {
      var m := Expire(s, ids[0]);
      ExpireRemoves(s, ids[0]);
      TotalAfterExpire(s, ids[0]);
      RemovesGloballyOldest(m, ids[1..]);
      var t := ExpireAll(m, ids[1..]);
      GoneChain(s, m, t);
      AgedChain(s, m, t);
    }
  }

  lemma {:induction false} OldestFirstAppend(s: State, ids: seq<SourceId>, id: SourceId)
    requires OldestFirst(s, ids) && IsOldest(ExpireAll(s, ids), id)
    ensures OldestFirst(s, ids + [id]) && ExpireAll(s, ids + [id]) == Expire(ExpireAll(s, ids), id)
    decreases |ids|
  {
    if ids == [] {
      assert ids + [id] == [id] && [id][1..] == [];
    } else {
      assert (ids + [id])[1..] == ids[1..] + [id] && (ids + [id])[0] == ids[0];
      OldestFirstAppend(Expire(s, ids[0]), ids[1..], id);
    }
  }
}

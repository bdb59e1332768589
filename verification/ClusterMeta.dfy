/** The report of a whole cluster: in every run, what is reported about a source comes from its owner. */
module ClusterMeta {
  import opened Envelopes
  import opened StoreModel
  import opened ReverseProxies
  import opened MetaCaches
  import opened ClusterRefinement
  import C = Clusters

  /** Whatever the network does, only its owner ever knows a source. */
  lemma OnlyOwnerKnows(trace: seq<C.World>, actions: seq<C.Action>, l: Lookup, n: nat, i: nat, k: nat, id: SourceId, max: nat)
    requires SingleOwner(l, n) && C.IsRun(trace, actions, l, n) && i < |trace| && k < |trace[i].logs| && 1 <= max
    ensures id in Replay(trace[i].logs[k], max).sources ==> k == l(id)[0]
  {
    hide C.IsRun, Replay, OfSource;
    C.EveryRunPlaces(trace, actions, l, n, i);
    ReplayIsFillPerSource(trace[i].logs[k], id, max);
    if k != l(id)[0] {
      NothingOfOthers(trace[i].logs[k], l, k, id);
    }
  }

  ghost function Report(s: State): Meta {
    map id | id in s.sources :: Reported(s.sources[id])
  }

  /** What the stores of a cluster report over time, as its run goes through the worlds of the trace. */
  ghost predicate ReportsRun(h: History, trace: seq<C.World>, at: int -> nat, max: nat)
    requires 1 <= max
  {
    forall k: nat, t :: at(t) < |trace| &&
      h(k, t) == if k < |trace[at(t)].logs| then Report(Replay(trace[at(t)].logs[k], max)) else map[]
  }

  /**
   In every run of a cluster, an entry of a merged report is the report of the source's owner at a moment at most
   one cache duration ago for the asked node's own sources and two for a peer's, plus the time spent fetching.
   */
  lemma ReportedEntryIsOwners(p: Proxy, h: History, trace: seq<C.World>, actions: seq<C.Action>, at: int -> nat,
                              l: Lookup, n: nat, max: nat, lag: nat, now: int, hi: int, id: SourceId)
    requires SingleOwner(l, n) && C.IsRun(trace, actions, l, n) && 1 <= max && ReportsRun(h, trace, at, max)
    requires p.AnswerFresh(h, lag, now, hi) && id in Merged(p.answers)
    ensures var owner := l(id)[0];
      exists t ::
        && now - p.duration - p.PartLag(owner, lag) <= t <= hi
        && id in h(owner, t) && h(owner, t)[id] == Merged(p.answers)[id]
  {
    hide C.IsRun, Replay, Merged;
    forall k: nat, t ensures id in h(k, t) ==> k == l(id)[0] {
      assert at(t) < |trace| by { assert h(k, t) == h(k, t); }
      if k < |trace[at(t)].logs| {
        OnlyOwnerKnows(trace, actions, l, n, at(t), k, id, max);
      }
    }
    EntryReflectsOwner(p, h, lag, now, hi, id, l(id)[0]);
  }
}

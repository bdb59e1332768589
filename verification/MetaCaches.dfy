/**
 The two caches in front of `Meta`: a node caches its own store's report for its peers, and the merged
 reports of all nodes for its clients. How stale can an answer be, and is anything lost in the merge?
 */
module MetaCaches {
  import opened Envelopes

  type Meta = map<SourceId, MetaInfo>

  /** What the store of each node reports when asked at each moment. */
  type History = (nat, int) -> Meta

  datatype Cached = Cached(timestamp: int, resp: Meta)

  predicate Expired(cache: Option<Cached>, duration: nat, now: int) {
    cache.None? || now > cache.value.timestamp + duration
  }

  /** The report of a node's store at some moment of an interval. */
  ghost predicate AsOf(m: Meta, h: History, node: nat, lo: int, hi: int) {
    exists t :: lo <= t <= hi && m == h(node, t)
  }

  lemma AsOfWider(m: Meta, h: History, node: nat, lo: int, hi: int, lo': int, hi': int)
    requires AsOf(m, h, node, lo, hi) && lo' <= lo && hi <= hi'
    ensures AsOf(m, h, node, lo', hi')
  {
    var t :| lo <= t <= hi && m == h(node, t);
    assert lo' <= t <= hi';
  }

  // ---------- merging ----------

  /** The answers of the nodes that answered, merged in node order. */
  ghost function Merged(answers: seq<Option<Meta>>): Meta {
    if answers == [] then map[] else
    var last := answers[|answers| - 1];
    var rest := Merged(answers[..|answers| - 1]);
    if last.Some? then rest + last.value else rest
  }

  /** How many nodes did not answer. */
  ghost function Failures(answers: seq<Option<Meta>>): nat {
    if answers == [] then 0 else Failures(answers[..|answers| - 1]) + if answers[|answers| - 1].None? then 1 else 0
  }

  ghost predicate Reports(answers: seq<Option<Meta>>, i: nat, id: SourceId) {
    i < |answers| && answers[i].Some? && id in answers[i].value
  }

  ghost predicate LastReport(answers: seq<Option<Meta>>, i: nat, id: SourceId) {
    Reports(answers, i, id) && forall j :: i < j < |answers| ==> !Reports(answers, j, id)
  }

  /** A merged entry is the entry of the last node that reported its source; without a report there is none. */
  lemma {:induction false} MergedTakesTheLast(answers: seq<Option<Meta>>, id: SourceId) returns (i: nat)
    ensures id in Merged(answers) ==> LastReport(answers, i, id) && Merged(answers)[id] == answers[i].value[id]
    ensures id !in Merged(answers) ==> forall j :: 0 <= j < |answers| ==> !Reports(answers, j, id)
  {
    if answers == [] {
      return 0;
    }
    var n, rest := |answers| - 1, answers[..|answers| - 1];
    if Reports(answers, n, id) {
      return n;
    }
    i := MergedTakesTheLast(rest, id);
    assert forall j :: 0 <= j < n ==> (Reports(answers, j, id) <==> Reports(rest, j, id));
  }

  /** When every source is reported by one node only, no node's entries are lost. */
  lemma MergedIsLossless(answers: seq<Option<Meta>>, i: nat, id: SourceId)
    requires Reports(answers, i, id) && forall j :: 0 <= j < |answers| && j != i ==> !Reports(answers, j, id)
    ensures id in Merged(answers) && Merged(answers)[id] == answers[i].value[id]
  {
    var _ := MergedTakesTheLast(answers, id);
  }

  // ---------- the proxy of one node ----------

  class Proxy {
    const index: nat
    const duration: nat
    var localCache: Option<Cached>
    var remoteCache: Option<Cached>
    /** The answers the remote cache was merged from. */
    ghost var answers: seq<Option<Meta>>

    constructor (index: nat, duration: nat)
      ensures this.index == index && this.duration == duration && localCache == None && remoteCache == None
    {
      this.index, this.duration, localCache, remoteCache, answers := index, duration, None, None, [];
    }

    /** The cached report was true at most `lag` before it was stamped, if fetching takes at most `lag`. */
    ghost predicate LocalFresh(h: History, lag: nat)
      reads this`localCache
    {
      localCache.Some? ==>
        var stamp := localCache.value.timestamp;
        AsOf(localCache.value.resp, h, index, stamp - lag, stamp)
    }

    /** The clock does not go back. */
    ghost predicate LocalStampedBy(now: int)
      reads this`localCache
    {
      localCache.Some? ==> localCache.value.timestamp <= now
    }

    /** A peer's part may have been cached by the peer before. */
    ghost function PartLag(node: nat, lag: nat): nat {
      if node == index then lag else duration + 2 * lag
    }

    ghost predicate PartFresh(part: Option<Meta>, node: nat, h: History, lag: nat, stamp: int) {
      part.Some? ==> AsOf(part.value, h, node, stamp - PartLag(node, lag), stamp)
    }

    ghost predicate RemoteFresh(h: History, lag: nat)
      reads this`remoteCache, this`answers
    {
      remoteCache.Some? ==>
        && remoteCache.value.resp == Merged(answers)
        && forall i :: 0 <= i < |answers| ==> PartFresh(answers[i], i, h, lag, remoteCache.value.timestamp)
    }

    /** `Meta` with `LocalOnly`: the cached report, or a new one fetched at `at` and stamped at `stamp`. */
    method LocalMeta(h: History, now: int, at: int, stamp: int, fails: bool, ghost lag: nat) returns (r: Result<Meta>)
      requires now <= at <= stamp <= now + lag && LocalFresh(h, lag) && LocalStampedBy(now)
      modifies this`localCache
      ensures LocalFresh(h, lag) && LocalStampedBy(stamp)
      ensures r.Err? <==> old(Expired(localCache, duration, now)) && fails
      ensures r.Ok? ==> AsOf(r.value, h, index, now - duration - lag, stamp)
      ensures r.Ok? ==> localCache.Some? && localCache.value.resp == r.value
      ensures r.Ok? && old(Expired(localCache, duration, now)) ==> localCache.value.timestamp == stamp && r.value == h(index, at)
      ensures r.Err? || !old(Expired(localCache, duration, now)) ==> localCache == old(localCache)
      ensures old(localCache).Some? && now <= old(localCache).value.timestamp + duration ==>
        r == Ok(old(localCache).value.resp) && localCache == old(localCache)
      ensures r.Ok? && (old(localCache).None? || now > old(localCache).value.timestamp + duration) ==>
        localCache == Some(Cached(stamp, h(index, at)))
    {
      if !Expired(localCache, duration, now) {
        var s := localCache.value.timestamp;
        AsOfWider(localCache.value.resp, h, index, s - lag, s, now - duration - lag, stamp);
        return Ok(localCache.value.resp);
      }
      if fails {
        return Err("failed to read meta data from the store");
      }
      r := Ok(h(index, at));
      localCache := Some(Cached(stamp, r.value));
    }

    // ---------- all nodes ----------

    /** Ask one node for its own report: the own store directly, a peer through the peer's cache. */
    method Ask(peers: seq<Proxy>, i: nat, h: History, now: int, at: int, stamp: int, unreachable: bool, broken: bool, ghost lag: nat)
      returns (r: Result<Meta>)
      requires i < |peers| && Peers(peers, duration)
      requires now <= at <= stamp <= now + lag && AllLocalFresh(peers, h, lag, now)
      modifies peers`localCache
      ensures AllLocalFresh(peers, h, lag, stamp)
      ensures forall j :: 0 <= j < |peers| && j != i ==> peers[j].localCache == old(peers[j].localCache)
      ensures i == index ==> r == if unreachable then Err("unreachable") else Ok(h(index, at))
      ensures unreachable ==> r.Err?
      ensures r.Ok? ==> AsOf(r.value, h, i, now - (if i == index then 0 else duration + lag), stamp)
    {
      if unreachable {
        return Err("unreachable");
      }
      if i == index {
        return Ok(h(index, at));
      }
      r := peers[i].LocalMeta(h, now, at, stamp, broken, lag);
    }

    /** The parts gathered so far, all from after the check at `start`. */
    ghost predicate Gathered(parts: seq<Option<Meta>>, h: History, lag: nat, start: int, stamp: int) {
      forall i :: 0 <= i < |parts| && parts[i].Some? ==>
        AsOf(parts[i].value, h, i, start - (if i == index then 0 else duration + lag), stamp)
    }

    lemma GatherMore(parts: seq<Option<Meta>>, h: History, lag: nat, start: int, stamp: int, part: Option<Meta>, now: int, stamp': int)
      requires Gathered(parts, h, lag, start, stamp) && start <= now && stamp <= stamp'
      requires part.Some? ==> AsOf(part.value, h, |parts|, now - (if |parts| == index then 0 else duration + lag), stamp')
      ensures Gathered(parts + [part], h, lag, start, stamp')
    {
      var more := parts + [part];
      forall i | 0 <= i < |more| && more[i].Some?
        ensures AsOf(more[i].value, h, i, start - (if i == index then 0 else duration + lag), stamp')
      {
        var slack := if i == index then 0 else duration + lag;
        if i < |parts| {
          AsOfWider(more[i].value, h, i, start - slack, stamp, start - slack, stamp');
        } else {
          AsOfWider(more[i].value, h, i, now - slack, stamp', start - slack, stamp');
        }
      }
    }

    lemma GatheredIsFresh(parts: seq<Option<Meta>>, h: History, lag: nat, start: int, stamp: int, stamp': int)
      requires Gathered(parts, h, lag, start, stamp) && stamp <= stamp' <= start + lag
      ensures forall i :: 0 <= i < |parts| ==> PartFresh(parts[i], i, h, lag, stamp')
    {
      forall i | 0 <= i < |parts| && parts[i].Some? ensures PartFresh(parts[i], i, h, lag, stamp') {
        var slack := if i == index then 0 else duration + lag;
        AsOfWider(parts[i].value, h, i, start - slack, stamp, stamp' - PartLag(i, lag), stamp');
      }
    }

    /** Every part of an answer given at `now` reflects its node's store of one duration ago, or two for a peer's. */
    ghost predicate AnswerFresh(h: History, lag: nat, now: int, hi: int)
      reads this`answers
    {
      forall i :: 0 <= i < |answers| && answers[i].Some? ==>
        AsOf(answers[i].value, h, i, now - duration - PartLag(i, lag), hi)
    }

    lemma ServedFresh(h: History, lag: nat, now: int, hi: int)
      requires RemoteFresh(h, lag) && remoteCache.Some?
      requires now - duration <= remoteCache.value.timestamp <= hi
      ensures AnswerFresh(h, lag, now, hi)
    {
      var stamp := remoteCache.value.timestamp;
      forall i | 0 <= i < |answers| && answers[i].Some?
        ensures AsOf(answers[i].value, h, i, now - duration - PartLag(i, lag), hi)
      {
        assert PartFresh(answers[i], i, h, lag, stamp);
        AsOfWider(answers[i].value, h, i, stamp - PartLag(i, lag), stamp, now - duration - PartLag(i, lag), hi);
      }
    }

    /** What asking every node once leaves behind. */
    ghost predicate Polled(parts: seq<Option<Meta>>, result: Meta, errs: int, unreachable: nat -> bool) {
      && result == Merged(parts) && errs == Failures(parts) <= |parts|
      && (errs < |parts| <==> exists j :: 0 <= j < |parts| && parts[j].Some?)
      && (forall j :: 0 <= j < |parts| && unreachable(j) ==> parts[j].None?)
      && (index < |parts| && !unreachable(index) ==> parts[index].Some?)
    }

    lemma PollMore(parts: seq<Option<Meta>>, result: Meta, errs: int, unreachable: nat -> bool, part: Option<Meta>)
      requires Polled(parts, result, errs, unreachable)
      requires unreachable(|parts|) ==> part.None?
      requires |parts| == index && !unreachable(index) ==> part.Some?
      ensures Polled(parts + [part], if part.Some? then result + part.value else result,
                     if part.Some? then errs else errs + 1, unreachable)
    {
      var more := parts + [part];
      assert more[..|parts|] == parts;
      assert forall j :: 0 <= j < |parts| ==> more[j] == parts[j];
      if part.Some? {
        assert more[|parts|].Some?;
      }
    }

    /** The loop over all nodes: errors are counted and skipped, reports are merged. */
    method Poll(peers: seq<Proxy>, h: History, clock: nat -> int, unreachable: nat -> bool, broken: nat -> bool, ghost lag: nat)
      returns (result: Meta, errs: nat, ghost parts: seq<Option<Meta>>)
      requires Peers(peers, duration) && Ticks(clock, 3 * |peers|) && clock(3 * |peers|) <= clock(0) + lag
      requires AllLocalFresh(peers, h, lag, clock(0))
      modifies peers`localCache
      ensures AllLocalFresh(peers, h, lag, clock(3 * |peers|)) && Gathered(parts, h, lag, clock(0), clock(3 * |peers|))
      ensures |parts| == |peers| && Polled(parts, result, errs, unreachable)
    {
      hide Merged, Failures, Polled, Gathered, AsOf;
      result, errs, parts := map[], 0, [];
      assert Gathered(parts, h, lag, clock(0), clock(0)) && Polled(parts, result, errs, unreachable) by {
        StartPoll(h, lag, clock(0), unreachable);
      }
      for i := 0 to |peers|
        invariant AllLocalFresh(peers, h, lag, clock(3 * i)) && Gathered(parts, h, lag, clock(0), clock(3 * i))
        invariant |parts| == i && Polled(parts, result, errs, unreachable)
      {
        StillFresh(peers, h, lag, clock(3 * i), clock(3 * i + 1));
        var resp := Ask(peers, i, h, clock(3 * i + 1), clock(3 * i + 2), clock(3 * i + 3), unreachable(i), broken(i), lag);
        ghost var part := if resp.Ok? then Some(resp.value) else None;
        GatherMore(parts, h, lag, clock(0), clock(3 * i), part, clock(3 * i + 1), clock(3 * i + 3));
        PollMore(parts, result, errs, unreachable, part);
        parts := parts + [part];
        if resp.Err? {
          errs := errs + 1;
        } else {
          result := result + resp.value;
        }
      }
    }

    lemma StartPoll(h: History, lag: nat, now: int, unreachable: nat -> bool)
      ensures Gathered([], h, lag, now, now) && Polled([], map[], 0, unreachable)
    {
    }

    /** `Meta` for clients: the cached merge, or a new one over the nodes that answer. */
    method RemoteMeta(peers: seq<Proxy>, h: History, clock: nat -> int, unreachable: nat -> bool, broken: nat -> bool, ghost lag: nat)
      returns (r: Result<Meta>)
      requires index < |peers| && peers[index] == this && Peers(peers, duration)
      requires Ticks(clock, 3 * |peers| + 1) && clock(3 * |peers| + 1) <= clock(0) + lag
      requires AllLocalFresh(peers, h, lag, clock(0)) && RemoteFresh(h, lag)
      requires remoteCache.Some? ==> remoteCache.value.timestamp <= clock(0)
      modifies this`remoteCache, this`answers, peers`localCache
      ensures AllLocalFresh(peers, h, lag, clock(3 * |peers| + 1)) && RemoteFresh(h, lag)
      ensures remoteCache.Some? ==> remoteCache.value.timestamp <= clock(3 * |peers| + 1)
      ensures r.Ok? ==> r.value == Merged(answers) && AnswerFresh(h, lag, clock(0), clock(3 * |peers| + 1))
      ensures r.Ok? && old(Expired(remoteCache, duration, clock(0))) ==>
        && |answers| == |peers| && (exists i :: 0 <= i < |peers| && answers[i].Some?)
        && (forall i :: 0 <= i < |peers| && unreachable(i) ==> answers[i].None?)
        && (!unreachable(index) ==> answers[index].Some?)
      ensures r.Err? || !old(Expired(remoteCache, duration, clock(0))) ==> remoteCache == old(remoteCache) && answers == old(answers)
      ensures r.Err? ==> unreachable(index)
      ensures old(remoteCache).Some? && clock(0) <= old(remoteCache).value.timestamp + duration ==>
        r == Ok(old(remoteCache).value.resp) && remoteCache == old(remoteCache)
      ensures r.Ok? && (old(remoteCache).None? || clock(0) > old(remoteCache).value.timestamp + duration) ==>
        remoteCache == Some(Cached(clock(3 * |peers| + 1), r.value))
    {
      hide AsOf, Merged, Gathered;
      var end := 3 * |peers| + 1;
      if !Expired(remoteCache, duration, clock(0)) {
        ServedFresh(h, lag, clock(0), clock(end));
        StillFresh(peers, h, lag, clock(0), clock(end));
        return Ok(remoteCache.value.resp);
      }
      var result, errs, parts := Poll(peers, h, clock, unreachable, broken, lag);
      StillFresh(peers, h, lag, clock(end - 1), clock(end));
      if errs == |peers| {
        return Err("failed to read meta data from remote node");
      }
      GatheredIsFresh(parts, h, lag, clock(0), clock(end - 1), clock(end));
      remoteCache := Some(Cached(clock(end), result));
      answers := parts;
      ServedFresh(h, lag, clock(0), clock(end));
      r := Ok(result);
    }
  }

  /**
   If only one node ever stores a source, a reported entry is that node's own report, at most one cache
   duration old for the asked node's sources and two for a peer's, plus the time spent fetching.
   */
  lemma EntryReflectsOwner(p: Proxy, h: History, lag: nat, now: int, hi: int, id: SourceId, owner: nat)
    requires p.AnswerFresh(h, lag, now, hi) && id in Merged(p.answers)
    requires forall n, t :: id in h(n, t) ==> n == owner
    ensures exists t ::
      && now - p.duration - (if owner == p.index then lag else p.duration + 2 * lag) <= t <= hi
      && id in h(owner, t) && h(owner, t)[id] == Merged(p.answers)[id]
  {
    var i := MergedTakesTheLast(p.answers, id);
    var t :| now - p.duration - p.PartLag(i, lag) <= t <= hi && p.answers[i].value == h(i, t);
    assert id in h(i, t);
  }

  // ---------- the cluster's proxies ----------

  /** Node `i` is served by the `i`-th proxy, and all use the same cache duration. */
  ghost predicate Peers(peers: seq<Proxy>, duration: nat) {
    forall i :: 0 <= i < |peers| ==> peers[i].index == i && peers[i].duration == duration
  }

  ghost predicate AllLocalFresh(peers: seq<Proxy>, h: History, lag: nat, now: int)
    reads peers`localCache
  {
    forall i :: 0 <= i < |peers| ==> peers[i].LocalFresh(h, lag) && peers[i].LocalStampedBy(now)
  }

  lemma StillFresh(peers: seq<Proxy>, h: History, lag: nat, now: int, later: int)
    requires AllLocalFresh(peers, h, lag, now) && now <= later
    ensures AllLocalFresh(peers, h, lag, later)
  {
  }

  /** The first readings of a clock that does not go back. */
  ghost predicate Ticks(clock: nat -> int, n: nat) {
    forall i, j :: 0 <= i <= j <= n ==> clock(i) <= clock(j)
  }
}

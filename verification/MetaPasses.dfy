/**
 The store's report takes two passes: the first collects the indexed sources, the second looks each of them
 up again. A source that has left the index in between crashes the second pass.
 */
module MetaPasses {
  import opened Envelopes
  import opened StoreModel
  import opened Interleaving
  import opened TruncationCrashes

  /** A source met by the first pass in one world of a run and looked up by the second in a later one. */
  datatype LookUp = LookUp(id: SourceId, met: nat, again: nat)

  ghost predicate IsReport(trace: seq<World>, report: seq<LookUp>) {
    forall i :: 0 <= i < |report| ==> IsLookUp(trace, report[i])
  }

  ghost predicate IsLookUp(trace: seq<World>, x: LookUp) {
    x.met <= x.again < |trace| && x.id in trace[x.met].index
  }

  /** The second pass finds nothing under the source. */
  ghost predicate FindsNothing(trace: seq<World>, x: LookUp)
    requires IsLookUp(trace, x)
  {
    x.id !in trace[x.again].index
  }

  /** The round of the truncation loop that takes a source out of the index. */
  ghost predicate Drops(w: World, a: Action, id: SourceId, max: nat)
    requires 1 <= max && Enabled(w, a)
  {
    a.Prune? && id in w.index && id !in Step(w, a, max).index
  }

  ghost predicate Begins(a: Action, id: SourceId) {
    a.Begin? && a.id == id
  }

  lemma IndexStep(w: World, a: Action, id: SourceId, max: nat)
    requires 1 <= max && Enabled(w, a)
    ensures id in Step(w, a, max).index <==> (id in w.index && !Drops(w, a, id, max)) || Begins(a, id)
  {
  }

  /** The source is dropped in round `k` and not put to again before `j`. */
  ghost predicate DroppedAt(trace: seq<World>, actions: seq<Action>, id: SourceId, max: nat, i: nat, k: nat, j: nat)
    requires 1 <= max && Follows(trace, actions, max)
  {
    && i <= k < j < |trace| && Drops(trace[k], actions[k], id, max)
    && forall m :: k < m < j ==> !Begins(actions[m], id)
  }

  /** A source that was in the index is missing later exactly if it was dropped and not put to since. */
  lemma {:induction false} MissingIff(trace: seq<World>, actions: seq<Action>, id: SourceId, max: nat, i: nat, j: nat)
    requires 1 <= max && Follows(trace, actions, max) && i <= j < |trace| && id in trace[i].index
    ensures id !in trace[j].index <==> exists k :: DroppedAt(trace, actions, id, max, i, k, j)
    decreases j
  {
    hide Step, Enabled, Drops, Begins;
    if i < j {
      var w, a := trace[j - 1], actions[j - 1];
      MissingIff(trace, actions, id, max, i, j - 1);
      OneStep(trace, actions, max, j - 1);
      IndexStep(w, a, id, max);
      if id !in trace[j].index {
        if id in w.index {
          assert DroppedAt(trace, actions, id, max, i, j - 1, j);
        } else {
          var k :| DroppedAt(trace, actions, id, max, i, k, j - 1);
          assert DroppedAt(trace, actions, id, max, i, k, j);
        }
      }
      if k: nat :| DroppedAt(trace, actions, id, max, i, k, j) {
        if k < j - 1 {
          assert DroppedAt(trace, actions, id, max, i, k, j - 1);
          assert !Begins(actions[j - 1], id);
        } else {
          DroppedIsGone(w, a, id, max);
        }
      }
    }
  }

  lemma DroppedIsGone(w: World, a: Action, id: SourceId, max: nat)
    requires 1 <= max && Enabled(w, a) && Drops(w, a, id, max)
    ensures id !in Step(w, a, max).index
  {
  }

  /** The report crashes exactly if, between its two passes over some source, that source was dropped and not put to since. */
  lemma ReportCrashesIff(trace: seq<World>, actions: seq<Action>, report: seq<LookUp>, max: nat)
    requires 1 <= max && Follows(trace, actions, max) && IsReport(trace, report)
    ensures (exists i :: 0 <= i < |report| && FindsNothing(trace, report[i])) <==>
      exists i, k :: 0 <= i < |report| && DroppedAt(trace, actions, report[i].id, max, report[i].met, k, report[i].again)
  {
    hide Follows, DroppedAt;
    forall i | 0 <= i < |report|
      ensures FindsNothing(trace, report[i]) <==>
        exists k :: DroppedAt(trace, actions, report[i].id, max, report[i].met, k, report[i].again)
    {
      assert IsLookUp(trace, report[i]);
      MissingIff(trace, actions, report[i].id, max, report[i].met, report[i].again);
    }
  }

  // ---------- a run that crashes ----------

  ghost predicate PassesThrough(u: World, w: World, trace: seq<World>, actions: seq<Action>, i: nat, max: nat)
    requires 1 <= max
  {
    IsRun(trace, actions, max) && i < |trace| && trace[i] == u && trace[|trace| - 1] == w
  }

  ghost predicate Through(u: World, w: World, max: nat)
    requires 1 <= max
  {
    exists trace, actions, i :: PassesThrough(u, w, trace, actions, i, max)
  }

  lemma ThroughItself(u: World, max: nat)
    requires 1 <= max && Reachable(u, max)
    ensures Through(u, u, max)
  {
    var trace, actions :| IsRun(trace, actions, max) && trace[|trace| - 1] == u;
    assert PassesThrough(u, u, trace, actions, |trace| - 1, max);
  }

  lemma ThroughStep(u: World, w: World, a: Action, v: World, max: nat)
    requires 1 <= max && Through(u, w, max) && Enabled(w, a) && v == Step(w, a, max)
    ensures Through(u, v, max)
  {
    hide Step, Enabled;
    var trace, actions, i :| PassesThrough(u, w, trace, actions, i, max);
    Extend(trace, actions, a, max);
    assert PassesThrough(u, v, trace + [v], actions + [a], i, max);
  }

  /** A report that meets the only source before a truncation and looks it up afterwards. */
  lemma DroppedSourceCrashesReport(id: SourceId, e: Envelope, max: nat)
    returns (trace: seq<World>, actions: seq<Action>, x: LookUp)
    requires 1 <= max
    ensures IsRun(trace, actions, max) && IsLookUp(trace, x) && FindsNothing(trace, x)
  {
    FilledIsReachable(id, e, max);
    var w := Filled(id, e);
    ThroughItself(w, max);
    var gone := TruncatedAway(id, e, max);
    var t, b, i :| PassesThrough(w, gone, t, b, i, max);
    trace, actions, x := t, b, LookUp(id, i, |t| - 1);
  }

  lemma TruncatedAway(id: SourceId, e: Envelope, max: nat) returns (gone: World)
    requires 1 <= max && Through(Filled(id, e), Filled(id, e), max)
    ensures Through(Filled(id, e), gone, max) && id !in gone.index
  {
    hide Through;
    var w, m := Filled(id, e), map[e.timestamp := e];
    assert m - {e.timestamp} == map[] && LeastKey(m) == e.timestamp;
    assert w.index.Keys == {id} && {} + {id} == {id};
    var x := Item(e.timestamp, id, 0);
    assert [] + [x] == [x];
    var w1 := w.(truncator := Building(1, {id}, {}, []));
    ThroughStep(w, w, StartTruncation(1), w1, max);
    var w2 := w.(truncator := Building(1, {id}, {id}, [x]));
    ThroughStep(w, w1, Visit(id), w2, max);
    var w3 := w.(truncator := Pruning(1, [x]));
    ThroughStep(w, w2, FinishBuild, w3, max);
    gone := World([Cell(id, map[])], map[], map[2 := Pending(0, e)], 0, 0, Pruning(0, []));
    assert WithoutItem([x], 0) == [] && map[id := 0] - {id} == map[];
    ThroughStep(w, w3, Prune(0), gone, max);
  }
}

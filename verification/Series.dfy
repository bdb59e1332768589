/** Turning envelopes into series of points, and reading a series back in order. */
module Series {
  import Alternatives
  import opened Envelopes
  import opened Measurements
  import opened SeriesIds
  import opened SourceIdRewriting
  import SourcedTags
  import opened StoreModel

  /** Milliseconds and a value. */
  datatype Point = Point(t: int, v: real)

  datatype SeriesData = SeriesData(tags: Tags, points: seq<Point>)

  datatype Add = Add(tags: Tags, point: Point)

  // ---------- gathering points by series ----------

  /** The points added under an id, in the order they were added. */
  ghost function PointsOf(adds: seq<Add>, id: string): seq<Point> {
    if adds == [] then [] else
    var a := adds[|adds| - 1];
    PointsOf(adds[..|adds| - 1], id) + if SeriesId(a.tags) == id then [a.point] else []
  }

  ghost function Counts(data: map<string, SeriesData>): map<string, nat> {
    map id | id in data :: |data[id].points|
  }

  class SeriesSetBuilder {
    var data: map<string, SeriesData>
    ghost var adds: seq<Add>

    constructor ()
      ensures Valid() && adds == []
    {
      data, adds := map[], [];
    }

    ghost predicate Valid()
      reads this
    {
      Gathers(data, adds)
    }

    method AddPoint(tags: Tags, p: Point)
      requires Valid()
      modifies this
      ensures Valid() && adds == old(adds) + [Add(tags, p)]
      ensures data == Gather(old(data), SeriesId(tags), tags, p)
    {
      hide SeriesId, Gathers;
      var id := GetSeriesId(tags);
      GatherKeeps(data, adds, tags, p);
      if id !in data {
        data := data[id := SeriesData(tags, [])];
      }
      var d := data[id];
      data := data[id := d.(points := d.points + [p])];
      adds := adds + [Add(tags, p)];
      assert data == Gather(old(data), id, tags, p);
    }
  }

  /** Each series holds exactly the points added under its id, and no point is lost or kept twice. */
  ghost predicate Gathers(data: map<string, SeriesData>, adds: seq<Add>) {
    && (forall id :: id in data ==> data[id].points == PointsOf(adds, id) && SeriesId(data[id].tags) == id)
    && (forall id :: id !in data ==> PointsOf(adds, id) == [])
    && Sum(Counts(data)) == |adds|
  }

  ghost function Gather(data: map<string, SeriesData>, id: string, tags: Tags, p: Point): map<string, SeriesData> {
    var d := if id in data then data[id] else SeriesData(tags, []);
    data[id := d.(points := d.points + [p])]
  }

  lemma GatherKeeps(data: map<string, SeriesData>, adds: seq<Add>, tags: Tags, p: Point)
    requires Gathers(data, adds)
    ensures Gathers(Gather(data, SeriesId(tags), tags, p), adds + [Add(tags, p)])
  {
    hide SeriesId, Sum, Counts, PointsOf;
    var id, more := SeriesId(tags), adds + [Add(tags, p)];
    var d := Gather(data, id, tags, p)[id];
    Recount(data, id, d);
    forall x ensures PointsOf(more, x) == if x == id then PointsOf(adds, x) + [p] else PointsOf(adds, x) {
      PointsOfMore(adds, Add(tags, p), x);
    }
    assert d.points == PointsOf(more, id) && SeriesId(d.tags) == id;
    assert Gather(data, id, tags, p) == data[id := d];
  }

  lemma PointsOfMore(adds: seq<Add>, a: Add, id: string)
    ensures PointsOf(adds + [a], id) == if SeriesId(a.tags) == id then PointsOf(adds, id) + [a.point] else PointsOf(adds, id)
  {
    assert (adds + [a])[..|adds|] == adds;
  }

  lemma Recount(data: map<string, SeriesData>, id: string, d: SeriesData)
    ensures Sum(Counts(data[id := d])) == Sum(Counts(data)) + |d.points| - (if id in data then |data[id].points| else 0)
  {
    var m := Counts(data);
    assert Counts(data[id := d]) == m[id := |d.points|];
    SumUpdate(m, id, |d.points|);
    if id in data {
      SumRemove(m, id);
    } else {
      assert m - {id} == m;
    }
  }

  // ---------- from envelopes to points ----------

  /** The value an envelope contributes to the selected metric, if it is one of its measurements. */
  type Measure = Envelope -> Option<real>

  datatype Label = Label(name: string, value: string)

  predicate HasLabels(tags: Tags, labels: seq<Label>) {
    forall i :: 0 <= i < |labels| ==> labels[i].name in tags && tags[labels[i].name] == labels[i].value
  }

  /** The labels an envelope must have, as pairs of a name and a value. */
  lemma HasLabelsIff(tags: Tags, labels: seq<Label>)
    ensures HasLabels(tags, labels) <==> forall l :: l in labels ==> (l.name, l.value) in tags.Items
  {
    forall i | 0 <= i < |labels|
      ensures (labels[i].name, labels[i].value) in tags.Items <==>
        labels[i].name in tags && tags[labels[i].name] == labels[i].value
    {
    }
    if forall l :: l in labels ==> (l.name, l.value) in tags.Items {
      forall i | 0 <= i < |labels| ensures labels[i].name in tags && tags[labels[i].name] == labels[i].value {
        assert labels[i] in labels;
      }
    }
  }

  const SECOND := 1_000_000_000

  /** Truncation to a whole second, in milliseconds. */
  function Millis(timestamp: int): int {
    timestamp / SECOND * SECOND / 1_000_000
  }

  /** The second an instant lies in, before the epoch as well as after it. */
  lemma MillisTruncates(t: int)
    ensures Millis(t) % 1000 == 0 && Millis(t) * 1_000_000 <= t < (Millis(t) + 1000) * 1_000_000
  {
    var s := t / SECOND;
    assert s * SECOND <= t < (s + 1) * SECOND;
    assert s * SECOND / 1_000_000 == s * 1000;
  }

  /** Nothing else is a whole second that the instant lies in. */
  lemma MillisIsUnique(t: int, m: int)
    requires m % 1000 == 0 && m * 1_000_000 <= t < (m + 1000) * 1_000_000
    ensures m == Millis(t)
  {
    hide Millis;
    MillisTruncates(t);
    SameSecond(t, m / 1000, Millis(t) / 1000);
  }

  lemma SameSecond(t: int, a: int, b: int)
    requires a * 1_000_000_000 <= t < (a + 1) * 1_000_000_000
    requires b * 1_000_000_000 <= t < (b + 1) * 1_000_000_000
    ensures a == b
  {
  }

  lemma MillisMonotone(a: int, b: int)
    requires a <= b
    ensures Millis(a) <= Millis(b)
  {
    assert a / SECOND <= b / SECOND;
  }

  function SeriesTags(e: Envelope): Tags {
    var tags := e.tags["source_id" := e.sourceId];
    if e.instanceId != "" then tags["instance_id" := e.instanceId] else tags
  }

  /** The tags of a point, key by key: source and instance of the envelope, and elsewhere its own tags. */
  ghost predicate AreTagsOf(tags: Tags, e: Envelope) {
    && tags.Keys == e.tags.Keys + {"source_id"} + (if e.instanceId == "" then {} else {"instance_id"})
    && "source_id" in tags && tags["source_id"] == e.sourceId
    && (e.instanceId != "" ==> "instance_id" in tags && tags["instance_id"] == e.instanceId)
    && forall k :: k in e.tags && k in tags && k != "source_id" && (k != "instance_id" || e.instanceId == "") ==>
      tags[k] == e.tags[k]
  }

  lemma SeriesTagsIff(tags: Tags, e: Envelope)
    ensures tags == SeriesTags(e) <==> AreTagsOf(tags, e)
  {
  }

  /**
   The envelope adds the point: it has every label as a tag and measures the metric. The point is at the second
   the envelope lies in, with the measured value, under the envelope's tags.
   */
  ghost predicate Contributes(e: Envelope, labels: seq<Label>, measure: Measure, a: Add) {
    && (forall l :: l in labels ==> (l.name, l.value) in e.tags.Items)
    && measure(e) == Some(a.point.v)
    && a.point.t % 1000 == 0 && a.point.t * 1_000_000 <= e.timestamp < (a.point.t + 1000) * 1_000_000
    && AreTagsOf(a.tags, e)
  }

  ghost function AddOf(e: Envelope, labels: seq<Label>, measure: Measure): seq<Add> {
    if HasLabels(e.tags, labels) && measure(e).Some?
    then [Add(SeriesTags(e), Point(Millis(e.timestamp), measure(e).value))] else []
  }

  ghost function AddsOf(batch: seq<Envelope>, labels: seq<Label>, measure: Measure): seq<Add> {
    if batch == [] then [] else
    AddsOf(batch[..|batch| - 1], labels, measure) + AddOf(batch[|batch| - 1], labels, measure)
  }

  lemma AddOfIff(e: Envelope, labels: seq<Label>, measure: Measure, a: Add)
    ensures Contributes(e, labels, measure, a) <==> AddOf(e, labels, measure) == [a]
    ensures a in AddOf(e, labels, measure) ==> AddOf(e, labels, measure) == [a]
  {
    hide SeriesTags, AreTagsOf, HasLabels, Millis;
    HasLabelsIff(e.tags, labels);
    SeriesTagsIff(a.tags, e);
    MillisTruncates(e.timestamp);
    if Contributes(e, labels, measure, a) {
      MillisIsUnique(e.timestamp, a.point.t);
    }
  }

  /** The envelopes of a batch that have the labels and measure the metric. */
  ghost function Contributors(batch: seq<Envelope>, labels: seq<Label>, measure: Measure): set<int> {
    set j | 0 <= j < |batch| && measure(batch[j]).Some? && forall l :: l in labels ==> (l.name, l.value) in batch[j].tags.Items
  }

  /** A batch adds exactly the points its envelopes contribute, one for each envelope that contributes. */
  lemma {:induction false} AddsOfIff(batch: seq<Envelope>, labels: seq<Label>, measure: Measure)
    ensures forall a :: a in AddsOf(batch, labels, measure) <==> exists j :: 0 <= j < |batch| && Contributes(batch[j], labels, measure, a)
    ensures |AddsOf(batch, labels, measure)| == |Contributors(batch, labels, measure)|
  {
    hide Contributes, AddOf;
    if batch != [] {
      var k, e := |batch| - 1, batch[|batch| - 1];
      AddsOfIff(batch[..k], labels, measure);
      forall a ensures a in AddOf(e, labels, measure) <==> Contributes(e, labels, measure, a) {
        AddOfIff(e, labels, measure, a);
      }
      ContributorsMore(batch, labels, measure);
    } else {
      assert Contributors(batch, labels, measure) == {};
    }
  }

  lemma ContributorsMore(batch: seq<Envelope>, labels: seq<Label>, measure: Measure)
    requires batch != []
    ensures var k := |batch| - 1;
      |Contributors(batch, labels, measure)| == |Contributors(batch[..k], labels, measure)| + |AddOf(batch[k], labels, measure)|
  {
    hide HasLabels, SeriesTags, Millis;
    var k := |batch| - 1;
    HasLabelsIff(batch[k].tags, labels);
    var before, here := Contributors(batch[..k], labels, measure), AddOf(batch[k], labels, measure);
    assert Contributors(batch, labels, measure) == before + if here == [] then {} else {k};
  }

  method CollectBatch(b: SeriesSetBuilder, batch: seq<Envelope>, labels: seq<Label>, measure: Measure)
    requires b.Valid()
    modifies b
    ensures b.Valid() && b.adds == old(b.adds) + AddsOf(batch, labels, measure)
    ensures |b.adds| == |old(b.adds)| + |Contributors(batch, labels, measure)|
    ensures forall a :: a in b.adds[|old(b.adds)|..] <==>
      exists j :: 0 <= j < |batch| && Contributes(batch[j], labels, measure, a)
  {
    AddsOfIff(batch, labels, measure);
    hide Contributes, Contributors;
    hide SeriesTags, Millis, HasLabels, Gathers;
    for i := 0 to |batch|
      invariant b.Valid() && b.adds == old(b.adds) + AddsOf(batch[..i], labels, measure)
    {
      assert batch[..i + 1][..i] == batch[..i];
      var e := batch[i];
      var f := measure(e);
      if HasLabels(e.tags, labels) && f.Some? {
        b.AddPoint(SeriesTags(e), Point(Millis(e.timestamp), f.value));
      }
    }
    assert batch[..|batch|] == batch;
  }

  ghost function AllAdds(batches: seq<seq<Envelope>>, labels: seq<Label>, measure: Measure): seq<Add> {
    if batches == [] then [] else
    AllAdds(batches[..|batches| - 1], labels, measure) + AddsOf(batches[|batches| - 1], labels, measure)
  }

  // ---------- the selection ----------

  /** What the matchers of a selector ask for: the metric, and labels that every envelope must have. */
  ghost function MetricOf(ms: seq<Matcher>): string {
    if ms == [] then "" else
    var m := ms[|ms| - 1];
    if m.name == "__name__" then m.value else MetricOf(ms[..|ms| - 1])
  }

  ghost function LabelsOf(ms: seq<Matcher>): seq<Label> {
    if ms == [] then [] else
    var m := ms[|ms| - 1];
    LabelsOf(ms[..|ms| - 1]) + if m.name == "__name__" || m.name == "source_id" then [] else [Label(m.name, m.value)]
  }

  /** The last matcher on the name gives the metric; without one it is empty. */
  ghost predicate NamesMetric(metric: string, ms: seq<Matcher>) {
    if forall m :: m in ms ==> m.name != "__name__" then metric == "" else
    exists i :: 0 <= i < |ms| && ms[i].name == "__name__" && ms[i].value == metric && LastName(ms, i)
  }

  ghost predicate LastName(ms: seq<Matcher>, i: nat) {
    forall j :: i < j < |ms| ==> ms[j].name != "__name__"
  }

  lemma {:induction false} MetricIsLastName(ms: seq<Matcher>)
    ensures NamesMetric(MetricOf(ms), ms)
  {
    if ms != [] {
      var k := |ms| - 1;
      var before := ms[..k];
      MetricIsLastName(before);
      if ms[k].name == "__name__" {
        assert LastName(ms, k);
      } else if i: nat :| i < k && before[i].name == "__name__" && before[i].value == MetricOf(before) && LastName(before, i) {
        assert ms[i] == before[i];
        forall j | i < j < |ms| ensures ms[j].name != "__name__" {
          if j < k { assert before[j] == ms[j]; }
        }
        assert LastName(ms, i);
      }
    }
  }

  /** Every matcher but those on the name and the source id asks for a label. */
  lemma {:induction false} LabelsIff(ms: seq<Matcher>, l: Label)
    ensures l in LabelsOf(ms) <==>
      exists m :: m in ms && m.name == l.name && m.value == l.value && l.name != "__name__" && l.name != "source_id"
  {
    if ms != [] {
      var k := |ms| - 1;
      LabelsIff(ms[..k], l);
      assert ms == ms[..k] + [ms[k]];
    }
  }

  method ReadMatchers(ms: seq<Matcher>) returns (metric: string, sources: set<SourceId>, labels: seq<Label>)
    ensures metric == MetricOf(ms) && sources == ListIds(ms) && labels == LabelsOf(ms)
    ensures NamesMetric(metric, ms)
    ensures forall n, v :: Label(n, v) in labels <==>
      exists m :: m in ms && m.name == n && m.value == v && n != "__name__" && n != "source_id"
    ensures forall x :: x in sources <==> exists i :: 0 <= i < |ms| && NamesSource(ms[i], x)
  {
    metric, sources, labels := "", {}, [];
    for i := 0 to |ms|
      invariant metric == MetricOf(ms[..i]) && sources == ListIds(ms[..i]) && labels == LabelsOf(ms[..i])
    {
      assert ms[..i + 1][..i] == ms[..i];
      ListIdsMore(ms, i);
      var m := ms[i];
      if m.name == "__name__" {
        metric := m.value;
      } else if m.name == "source_id" {
        sources := sources + MatcherIds(m);
      } else {
        labels := labels + [Label(m.name, m.value)];
      }
    }
    assert ms[..|ms|] == ms;
    MetricIsLastName(ms);
    SourcesIff(ms);
    forall n, v ensures Label(n, v) in labels <==>
      exists m :: m in ms && m.name == n && m.value == v && n != "__name__" && n != "source_id"
    {
      LabelsIff(ms, Label(n, v));
    }
  }

  /** An equality names its value, a regular expression each of its alternatives, and other matchers name nothing. */
  ghost predicate NamesSource(m: Matcher, x: SourceId) {
    m.name == "source_id" && ((m.kind.Equal? && x == m.value) || (m.kind.Regexp? && x in Alternatives.Split(m.value)))
  }

  lemma SourcesIff(ms: seq<Matcher>)
    ensures forall x :: x in ListIds(ms) <==> exists i :: 0 <= i < |ms| && NamesSource(ms[i], x)
  {
    forall i, x | 0 <= i < |ms| ensures x in MatcherIds(ms[i]) <==> NamesSource(ms[i], x) {
    }
  }

  type Reader = SourceId -> Result<seq<Envelope>>

  ghost function BatchesOf(order: seq<SourceId>, read: Reader): seq<seq<Envelope>> {
    seq(|order|, i requires 0 <= i < |order| => if read(order[i]).Ok? then read(order[i]).value else [])
  }

  ghost predicate NoRepeats(order: seq<SourceId>) {
    forall i, j :: 0 <= i < j < |order| ==> order[i] != order[j]
  }

  function Measuring(metric: string, choose: Choice): Measure {
    e => Measurements.Measure(e, metric, choose)
  }

  /** The envelope has the tags the matchers ask for, measures their metric, and adds this point. */
  ghost predicate Satisfies(e: Envelope, ms: seq<Matcher>, choose: Choice, a: Add) {
    && (forall m :: m in ms && m.name != "__name__" && m.name != "source_id" ==> (m.name, m.value) in e.tags.Items)
    && Measurements.Measure(e, MetricOf(ms), choose) == Some(a.point.v)
    && a.point.t % 1000 == 0 && a.point.t * 1_000_000 <= e.timestamp < (a.point.t + 1000) * 1_000_000
    && AreTagsOf(a.tags, e)
  }

  lemma SatisfiesIff(e: Envelope, ms: seq<Matcher>, choose: Choice, a: Add)
    ensures Satisfies(e, ms, choose, a) <==> Contributes(e, LabelsOf(ms), Measuring(MetricOf(ms), choose), a)
  {
    hide AreTagsOf, LabelsOf, MetricOf, Measurements.Measure;
    forall m | m in ms && m.name != "__name__" && m.name != "source_id" ensures Label(m.name, m.value) in LabelsOf(ms) {
      LabelsIff(ms, Label(m.name, m.value));
    }
    forall l | l in LabelsOf(ms)
      ensures exists m :: m in ms && m.name == l.name && m.value == l.value && l.name != "__name__" && l.name != "source_id"
    {
      LabelsIff(ms, l);
    }
  }

  /** Some envelope read from a named source adds the point. */
  ghost predicate AddedBySome(ms: seq<Matcher>, read: Reader, choose: Choice, a: Add) {
    exists s, e :: s in ListIds(ms) && read(s).Ok? && e in read(s).value && Satisfies(e, ms, choose, a)
  }

  lemma {:induction false} AllAddsIff(batches: seq<seq<Envelope>>, labels: seq<Label>, measure: Measure, a: Add)
    ensures a in AllAdds(batches, labels, measure) <==>
      exists i, j :: 0 <= i < |batches| && 0 <= j < |batches[i]| && Contributes(batches[i][j], labels, measure, a)
  {
    hide Contributes, AddsOf;
    if batches != [] {
      var k := |batches| - 1;
      AllAddsIff(batches[..k], labels, measure, a);
      AddsOfIff(batches[k], labels, measure);
    }
  }

  lemma SelectionIff(ms: seq<Matcher>, read: Reader, choose: Choice, order: seq<SourceId>, a: Add)
    requires forall s :: s in order <==> s in ListIds(ms)
    requires forall s :: s in order ==> read(s).Ok?
    ensures a in AllAdds(BatchesOf(order, read), LabelsOf(ms), Measuring(MetricOf(ms), choose)) <==>
      AddedBySome(ms, read, choose, a)
  {
    hide Contributes, Satisfies, AllAdds, LabelsOf, ListIds;
    var batches, labels, measure := BatchesOf(order, read), LabelsOf(ms), Measuring(MetricOf(ms), choose);
    AllAddsIff(batches, labels, measure, a);
    if i, j :| 0 <= i < |batches| && 0 <= j < |batches[i]| && Contributes(batches[i][j], labels, measure, a) {
      SatisfiesIff(batches[i][j], ms, choose, a);
      assert order[i] in ListIds(ms) && batches[i][j] in read(order[i]).value;
    }
    if s, e :| s in ListIds(ms) && read(s).Ok? && e in read(s).value && Satisfies(e, ms, choose, a) {
      SatisfiesIff(e, ms, choose, a);
      var i :| 0 <= i < |order| && order[i] == s;
      var j :| 0 <= j < |read(s).value| && read(s).value[j] == e;
      assert Contributes(batches[i][j], labels, measure, a);
    }
  }

  /**
   `Select`: without a source id or if a read fails there is no result; otherwise the builder has exactly the
   points of all sources, in whatever order the sources were read.
   */
  method Select(ms: seq<Matcher>, read: Reader, choose: Choice) returns (r: Option<SeriesSetBuilder>, ghost order: seq<SourceId>)
    ensures r.Some? <==> ListIds(ms) != {} && forall s :: s in ListIds(ms) ==> read(s).Ok?
    ensures r.Some? ==> NoRepeats(order) && (forall s :: s in order <==> s in ListIds(ms))
    ensures r.Some? ==> fresh(r.value) && r.value.Valid()
    ensures r.Some? ==>
      r.value.adds == AllAdds(BatchesOf(order, read), LabelsOf(ms), Measuring(MetricOf(ms), choose))
    ensures r.Some? ==> forall a :: a in r.value.adds <==> AddedBySome(ms, read, choose, a)
  {
    hide Gathers, AddsOf, ListIds, LabelsOf, MetricOf, AddedBySome, Contributes, Contributors, NamesMetric, NamesSource;
    order := [];
    var metric, sources, labels := ReadMatchers(ms);
    if sources == {} {
      return None, order;
    }
    var b := new SeriesSetBuilder();
    assert BatchesOf(order, read) == [];
    var todo := sources;
    while todo != {}
      invariant todo <= sources && NoRepeats(order)
      invariant forall s :: s in order <==> s in sources && s !in todo
      invariant forall s :: s in order ==> read(s).Ok?
      invariant fresh(b) && b.Valid() && b.adds == AllAdds(BatchesOf(order, read), labels, Measuring(metric, choose))
      decreases |todo|
    {
      var s :| s in todo;
      todo := todo - {s};
      var batch := read(s);
      if batch.Err? {
        return None, order;
      }
      BatchesMore(order, s, read);
      CollectBatch(b, batch.value, labels, Measuring(metric, choose));
      order := order + [s];
    }
    forall a ensures a in b.adds <==> AddedBySome(ms, read, choose, a) {
      SelectionIff(ms, read, choose, order, a);
    }
    r := Some(b);
  }

  lemma BatchesMore(order: seq<SourceId>, s: SourceId, read: Reader)
    requires read(s).Ok?
    ensures BatchesOf(order + [s], read) == BatchesOf(order, read) + [read(s).value]
    ensures forall labels, measure ::
      AllAdds(BatchesOf(order + [s], read), labels, measure)
        == AllAdds(BatchesOf(order, read), labels, measure) + AddsOf(read(s).value, labels, measure)
  {
    var a := BatchesOf(order, read);
    assert BatchesOf(order + [s], read) == a + [read(s).value];
    assert (a + [read(s).value])[..|a|] == a;
  }

  // ---------- every series is sorted ----------

  ghost predicate Sorted(points: seq<Point>) {
    forall i, j :: 0 <= i < j < |points| ==> points[i].t <= points[j].t
  }

  ghost predicate Ascending(batch: seq<Envelope>) {
    forall i, j :: 0 <= i < j < |batch| ==> batch[i].timestamp <= batch[j].timestamp
  }

  ghost predicate AtMost(points: seq<Point>, t: int) {
    forall i :: 0 <= i < |points| ==> points[i].t <= t
  }

  lemma {:induction false} PointsOfConcat(a: seq<Add>, b: seq<Add>, id: string)
    ensures PointsOf(a + b, id) == PointsOf(a, id) + PointsOf(b, id)
  {
    hide SeriesId;
    if b == [] {
      assert a + b == a;
    } else {
      var k := |b| - 1;
      assert (a + b)[..|a| + k] == a + b[..k];
      PointsOfConcat(a, b[..k], id);
    }
  }

  lemma {:induction false} AtMostBatch(batch: seq<Envelope>, labels: seq<Label>, measure: Measure, id: string, t: int)
    requires forall i :: 0 <= i < |batch| ==> batch[i].timestamp <= t
    ensures AtMost(PointsOf(AddsOf(batch, labels, measure), id), Millis(t))
  {
    hide PointsOf, AddOf, Millis;
    NoPoints(id);
    if batch != [] {
      var k := |batch| - 1;
      AtMostBatch(batch[..k], labels, measure, id, t);
      PointsOfConcat(AddsOf(batch[..k], labels, measure), AddOf(batch[k], labels, measure), id);
      MillisMonotone(batch[k].timestamp, t);
      PointsOfOne(batch[k], labels, measure, id);
    }
  }

  lemma NoPoints(id: string)
    ensures PointsOf([], id) == []
  {
  }

  lemma PointsOfOne(e: Envelope, labels: seq<Label>, measure: Measure, id: string)
    ensures |PointsOf(AddOf(e, labels, measure), id)| <= 1
    ensures forall i :: 0 <= i < |PointsOf(AddOf(e, labels, measure), id)| ==>
      PointsOf(AddOf(e, labels, measure), id)[i].t == Millis(e.timestamp)
  {
    hide SeriesId, SeriesTags, Millis, HasLabels;
    var a := AddOf(e, labels, measure);
    if a != [] { assert a[..|a| - 1] == []; }
  }

  lemma {:induction false} BatchIsSorted(batch: seq<Envelope>, labels: seq<Label>, measure: Measure, id: string)
    requires Ascending(batch)
    ensures Sorted(PointsOf(AddsOf(batch, labels, measure), id))
  {
    hide PointsOf, AddOf, Millis;
    NoPoints(id);
    if batch != [] {
      var k, e := |batch| - 1, batch[|batch| - 1];
      BatchIsSorted(batch[..k], labels, measure, id);
      AtMostBatch(batch[..k], labels, measure, id, e.timestamp);
      PointsOfConcat(AddsOf(batch[..k], labels, measure), AddOf(e, labels, measure), id);
      PointsOfOne(e, labels, measure, id);
    }
  }

  /** One source per batch, no source twice, each batch in ascending order. */
  ghost predicate ReadPerSource(batches: seq<seq<Envelope>>, sources: seq<SourceId>) {
    && |batches| == |sources|
    && (forall i, j :: 0 <= i < j < |sources| ==> sources[i] != sources[j])
    && forall i :: 0 <= i < |batches| ==> Ascending(batches[i]) && OfOneSource(batches[i], sources[i])
  }

  ghost predicate OfOneSource(batch: seq<Envelope>, s: SourceId) {
    forall i :: 0 <= i < |batch| ==> batch[i].sourceId == s
  }

  /** The source a series belongs to, if any point was added to it. */
  ghost predicate OnlyFrom(adds: seq<Add>, id: string, s: SourceId) {
    forall i :: 0 <= i < |adds| && SeriesId(adds[i].tags) == id ==>
      "source_id" in adds[i].tags && adds[i].tags["source_id"] == s
  }

  lemma {:induction false} AddsCarrySource(batch: seq<Envelope>, labels: seq<Label>, measure: Measure, s: SourceId)
    requires OfOneSource(batch, s)
    ensures forall i :: 0 <= i < |AddsOf(batch, labels, measure)| ==>
      var tags := AddsOf(batch, labels, measure)[i].tags;
      "source_id" in tags && tags["source_id"] == s
  {
    if batch != [] {
      AddsCarrySource(batch[..|batch| - 1], labels, measure, s);
    }
  }

  lemma {:induction false} NoPointsElsewhere(adds: seq<Add>, id: string, s: SourceId)
    requires OnlyFrom(adds, id, s)
    requires forall i :: 0 <= i < |adds| ==> !("source_id" in adds[i].tags && adds[i].tags["source_id"] == s)
    ensures PointsOf(adds, id) == []
  {
    if adds != [] {
      NoPointsElsewhere(adds[..|adds| - 1], id, s);
    }
  }

  lemma OnlyFromParts(a: seq<Add>, b: seq<Add>, id: string, s: SourceId)
    requires OnlyFrom(a + b, id, s)
    ensures OnlyFrom(a, id, s) && OnlyFrom(b, id, s)
  {
    hide SeriesId;
    assert forall i :: 0 <= i < |a| ==> (a + b)[i] == a[i];
    assert forall i :: 0 <= i < |b| ==> (a + b)[|a| + i] == b[i];
  }

  lemma ReadPerSourceParts(batches: seq<seq<Envelope>>, sources: seq<SourceId>, k: nat)
    requires ReadPerSource(batches, sources) && |batches| == k + 1
    ensures ReadPerSource(batches[..k], sources[..k])
    ensures Ascending(batches[k]) && OfOneSource(batches[k], sources[k])
    ensures sources[k] !in sources[..k]
  {
  }

  /** What one source's batch contributes to a series that belongs to `s`. */
  lemma BatchContribution(batch: seq<Envelope>, source: SourceId, labels: seq<Label>, measure: Measure,
                          id: string, s: SourceId)
    requires Ascending(batch) && OfOneSource(batch, source) && OnlyFrom(AddsOf(batch, labels, measure), id, s)
    ensures Sorted(PointsOf(AddsOf(batch, labels, measure), id))
    ensures source != s ==> PointsOf(AddsOf(batch, labels, measure), id) == []
  {
    hide SeriesId, SeriesTags, Millis, HasLabels, Ascending, OfOneSource;
    BatchIsSorted(batch, labels, measure, id);
    AddsCarrySource(batch, labels, measure, source);
    if source != s {
      NoPointsElsewhere(AddsOf(batch, labels, measure), id, s);
    }
  }

  /** If all points of a series come from one source, they come from that source's batch and are in time order. */
  lemma {:induction false} SeriesIsSorted(batches: seq<seq<Envelope>>, sources: seq<SourceId>, labels: seq<Label>,
                                          measure: Measure, id: string, s: SourceId)
    requires ReadPerSource(batches, sources) && OnlyFrom(AllAdds(batches, labels, measure), id, s)
    ensures Sorted(PointsOf(AllAdds(batches, labels, measure), id))
    ensures s !in sources ==> PointsOf(AllAdds(batches, labels, measure), id) == []
  {
    hide AddsOf, ReadPerSource, OnlyFrom, Ascending, OfOneSource;
    if batches != [] {
      var k := |batches| - 1;
      assert |sources| == k + 1 by { SameNumber(batches, sources); }
      var before, here := AllAdds(batches[..k], labels, measure), AddsOf(batches[k], labels, measure);
      OnlyFromParts(before, here, id, s);
      ReadPerSourceParts(batches, sources, k);
      assert sources == sources[..k] + [sources[k]];
      SeriesIsSorted(batches[..k], sources[..k], labels, measure, id, s);
      BatchContribution(batches[k], sources[k], labels, measure, id, s);
      PointsOfConcat(before, here, id);
    } else {
      assert PointsOf([], id) == [];
    }
  }

  lemma SameNumber(batches: seq<seq<Envelope>>, sources: seq<SourceId>)
    requires ReadPerSource(batches, sources)
    ensures |batches| == |sources|
  {
  }

  // ---------- exactly when a series is sorted ----------

  /** What one batch contributes to a series. */
  ghost function Contribution(batch: seq<Envelope>, labels: seq<Label>, measure: Measure, id: string): seq<Point> {
    PointsOf(AddsOf(batch, labels, measure), id)
  }

  ghost predicate NoneAfter(a: seq<Point>, b: seq<Point>) {
    forall i, j :: 0 <= i < |a| && 0 <= j < |b| ==> a[i].t <= b[j].t
  }

  /** No batch contributes a point to the series that is later than a point of a batch read after it. */
  ghost predicate BatchesInOrder(batches: seq<seq<Envelope>>, labels: seq<Label>, measure: Measure, id: string) {
    forall i, j :: 0 <= i < j < |batches| ==>
      NoneAfter(Contribution(batches[i], labels, measure, id), Contribution(batches[j], labels, measure, id))
  }

  lemma SortedConcatIff(a: seq<Point>, b: seq<Point>)
    ensures Sorted(a + b) <==> Sorted(a) && Sorted(b) && NoneAfter(a, b)
  {
    var s := a + b;
    assert forall i :: 0 <= i < |a| ==> s[i] == a[i];
    assert forall j :: 0 <= j < |b| ==> s[|a| + j] == b[j];
    if Sorted(s) {
      forall i, j | 0 <= i < |a| && 0 <= j < |b| ensures a[i].t <= b[j].t {
        assert s[i].t <= s[|a| + j].t;
      }
    }
  }

  lemma NoneAfterConcatIff(a: seq<Point>, b: seq<Point>, c: seq<Point>)
    ensures NoneAfter(a + b, c) <==> NoneAfter(a, c) && NoneAfter(b, c)
  {
    var s := a + b;
    assert forall i :: 0 <= i < |a| ==> s[i] == a[i];
    assert forall j :: 0 <= j < |b| ==> s[|a| + j] == b[j];
  }

  /** All points of the series so far are at most those of one more batch exactly if those of each batch are. */
  lemma {:induction false} AllNoneAfterIff(batches: seq<seq<Envelope>>, labels: seq<Label>, measure: Measure, id: string, c: seq<Point>)
    ensures NoneAfter(PointsOf(AllAdds(batches, labels, measure), id), c) <==>
      forall i :: 0 <= i < |batches| ==> NoneAfter(Contribution(batches[i], labels, measure, id), c)
  {
    hide NoneAfter, AddsOf;
    if batches != [] {
      var k := |batches| - 1;
      AllNoneAfterIff(batches[..k], labels, measure, id, c);
      var a, b := AllAdds(batches[..k], labels, measure), AddsOf(batches[k], labels, measure);
      PointsOfConcat(a, b, id);
      NoneAfterConcatIff(PointsOf(a, id), PointsOf(b, id), c);
      assert forall i :: 0 <= i < k ==> batches[..k][i] == batches[i];
    } else {
      NothingAfterNone(id, c);
    }
  }

  lemma NothingAfterNone(id: string, c: seq<Point>)
    ensures NoneAfter(PointsOf([], id), c)
  {
  }

  /** Whatever the sources and tags, a series is in time order exactly if its batches follow one another in time. */
  lemma {:induction false} SeriesIsSortedIff(batches: seq<seq<Envelope>>, labels: seq<Label>, measure: Measure, id: string)
    requires forall i :: 0 <= i < |batches| ==> Ascending(batches[i])
    ensures Sorted(PointsOf(AllAdds(batches, labels, measure), id)) <==> BatchesInOrder(batches, labels, measure, id)
  {
    hide NoneAfter, AddsOf, Ascending, Sorted, PointsOf;
    if batches != [] {
      var k := |batches| - 1;
      SeriesIsSortedIff(batches[..k], labels, measure, id);
      var a, b := AllAdds(batches[..k], labels, measure), AddsOf(batches[k], labels, measure);
      PointsOfConcat(a, b, id);
      BatchIsSorted(batches[k], labels, measure, id);
      SortedConcatIff(PointsOf(a, id), PointsOf(b, id));
      AllNoneAfterIff(batches[..k], labels, measure, id, PointsOf(b, id));
      assert forall i :: 0 <= i < k ==> batches[..k][i] == batches[i];
    } else {
      NothingIsSorted(id);
    }
  }

  lemma NothingIsSorted(id: string)
    ensures Sorted(PointsOf([], id))
  {
  }

  // ---------- whatever order the sources are read in ----------

  /** An order in which `n` batches can be read. */
  ghost predicate IsOrder(order: seq<nat>, n: nat) {
    && |order| == n && (forall i :: 0 <= i < n ==> order[i] < n)
    && forall i, j :: 0 <= i < j < n ==> order[i] != order[j]
  }

  ghost function Reordered(batches: seq<seq<Envelope>>, order: seq<nat>): seq<seq<Envelope>>
    requires IsOrder(order, |batches|)
  {
    seq(|order|, i requires 0 <= i < |order| => batches[order[i]])
  }

  ghost predicate SortedInOrder(batches: seq<seq<Envelope>>, order: seq<nat>, labels: seq<Label>, measure: Measure, id: string)
    requires IsOrder(order, |batches|)
  {
    Sorted(PointsOf(AllAdds(Reordered(batches, order), labels, measure), id))
  }

  /** All points that the batches contribute are at one time. */
  ghost predicate SameTime(a: seq<Point>, b: seq<Point>) {
    forall i, j :: 0 <= i < |a| && 0 <= j < |b| ==> a[i].t == b[j].t
  }

  lemma SortedInOrderIff(batches: seq<seq<Envelope>>, order: seq<nat>, labels: seq<Label>, measure: Measure, id: string)
    requires IsOrder(order, |batches|) && forall i :: 0 <= i < |batches| ==> Ascending(batches[i])
    ensures SortedInOrder(batches, order, labels, measure, id) <==>
      forall i, j :: 0 <= i < j < |batches| ==>
        NoneAfter(Contribution(batches[order[i]], labels, measure, id), Contribution(batches[order[j]], labels, measure, id))
  {
    hide Ascending, Sorted, PointsOf, AllAdds, Contribution, NoneAfter;
    var rs := Reordered(batches, order);
    SeriesIsSortedIff(rs, labels, measure, id);
    if SortedInOrder(batches, order, labels, measure, id) {
      forall i, j | 0 <= i < j < |batches|
        ensures NoneAfter(Contribution(batches[order[i]], labels, measure, id), Contribution(batches[order[j]], labels, measure, id))
      {
        assert rs[i] == batches[order[i]] && rs[j] == batches[order[j]];
      }
    }
  }

  /** Reading forwards and reading backwards in order pins two contributions to one time. */
  lemma BothWays(batches: seq<seq<Envelope>>, labels: seq<Label>, measure: Measure, id: string, i: nat, j: nat)
    requires i < j < |batches| && forall k :: 0 <= k < |batches| ==> Ascending(batches[k])
    requires forall order :: IsOrder(order, |batches|) ==> SortedInOrder(batches, order, labels, measure, id)
    ensures SameTime(Contribution(batches[i], labels, measure, id), Contribution(batches[j], labels, measure, id))
  {
    hide Ascending, SortedInOrder, Contribution;
    var n := |batches|;
    var up, down := seq(n, k requires 0 <= k < n => k), seq(n, k requires 0 <= k < n => n - 1 - k);
    assert IsOrder(up, n) && IsOrder(down, n);
    SortedInOrderIff(batches, up, labels, measure, id);
    SortedInOrderIff(batches, down, labels, measure, id);
    var a, b := Contribution(batches[i], labels, measure, id), Contribution(batches[j], labels, measure, id);
    assert up[i] == i && up[j] == j && down[n - 1 - j] == j && down[n - 1 - i] == i;
    assert NoneAfter(a, b) && NoneAfter(b, a);
  }

  /**
   A series is in time order whatever order the sources are read in exactly if the points of different
   sources in it are all at one time.
   */
  lemma SortedInEveryOrderIff(batches: seq<seq<Envelope>>, labels: seq<Label>, measure: Measure, id: string)
    requires forall i :: 0 <= i < |batches| ==> Ascending(batches[i])
    ensures (forall order :: IsOrder(order, |batches|) ==> SortedInOrder(batches, order, labels, measure, id)) <==>
      forall i, j :: 0 <= i < j < |batches| ==>
        SameTime(Contribution(batches[i], labels, measure, id), Contribution(batches[j], labels, measure, id))
  {
    hide Ascending, SortedInOrder, Contribution;
    if forall order :: IsOrder(order, |batches|) ==> SortedInOrder(batches, order, labels, measure, id) {
      forall i, j | 0 <= i < j < |batches|
        ensures SameTime(Contribution(batches[i], labels, measure, id), Contribution(batches[j], labels, measure, id))
      {
        BothWays(batches, labels, measure, id, i, j);
      }
    }
    if forall i, j :: 0 <= i < j < |batches| ==>
         SameTime(Contribution(batches[i], labels, measure, id), Contribution(batches[j], labels, measure, id)) {
      forall order | IsOrder(order, |batches|) ensures SortedInOrder(batches, order, labels, measure, id) {
        SortedInOrderIff(batches, order, labels, measure, id);
        forall i, j | 0 <= i < j < |batches|
          ensures NoneAfter(Contribution(batches[order[i]], labels, measure, id), Contribution(batches[order[j]], labels, measure, id))
        {
          EitherWay(batches, labels, measure, id, order[i], order[j]);
        }
      }
    }
  }

  lemma EitherWay(batches: seq<seq<Envelope>>, labels: seq<Label>, measure: Measure, id: string, i: nat, j: nat)
    requires i < |batches| && j < |batches| && i != j
    requires var k, l := Min(i, j), Max(i, j);
      SameTime(Contribution(batches[k], labels, measure, id), Contribution(batches[l], labels, measure, id))
    ensures NoneAfter(Contribution(batches[i], labels, measure, id), Contribution(batches[j], labels, measure, id))
  {
    hide Contribution;
  }

  // ---------- two sources in one series ----------

  function Sample(timestamp: int, sourceId: SourceId, tags: Tags): Envelope {
    Envelope(timestamp, sourceId, "", tags, Counter("requests", 1))
  }

  /** Source "p-z-r", and source "p" with the tag z = "r". */
  lemma TwoSourcesShareASeries()
    ensures SeriesId(map["source_id" := "p-z-r"]) == SeriesId(map["source_id" := "p", "z" := "r"])
  {
    hide SeriesId;
    SourcedTags.SingleId("source_id", "p-z-r");
    SourcedTags.SingleId("z", "r");
    var n := map["z" := "r"]["source_id" := "p"];
    SourcedTags.Prepend(map["z" := "r"], "source_id", "p");
    assert n == map["source_id" := "p", "z" := "r"];
    assert Field("source_id") + Field("p") + (Field("z") + Field("r")) == Field("source_id") + Field("p-z-r");
  }

  /** Read after a later sample of the one source, an earlier sample of the other makes the series go back in time. */
  lemma SharedSeriesIsUnsorted(labels: seq<Label>, measure: Measure)
    requires labels == []
    requires measure(Sample(5 * SECOND, "p-z-r", map[])).Some? && measure(Sample(1 * SECOND, "p", map["z" := "r"])).Some?
    ensures var batches := [[Sample(5 * SECOND, "p-z-r", map[])], [Sample(1 * SECOND, "p", map["z" := "r"])]];
      && ReadPerSource(batches, ["p-z-r", "p"])
      && !Sorted(PointsOf(AllAdds(batches, labels, measure), SeriesId(map["source_id" := "p-z-r"])))
  {
    hide SeriesId, AddsOf, AllAdds, PointsOf, Sorted, ReadPerSource;
    var e, f := Sample(5 * SECOND, "p-z-r", map[]), Sample(1 * SECOND, "p", map["z" := "r"]);
    var batches := [[e], [f]];
    var id := SeriesId(map["source_id" := "p-z-r"]);
    TwoSourcesShareASeries();
    assert SeriesTags(e) == map["source_id" := "p-z-r"];
    assert SeriesTags(f) == map["source_id" := "p", "z" := "r"];
    OneSample(e, labels, measure, id);
    OneSample(f, labels, measure, id);
    EarlierPointIsOutOfOrder(batches, labels, measure, id);
    OneBatchEach(e, f);
    SeriesIsSortedIff(batches, labels, measure, id);
  }

  lemma EarlierPointIsOutOfOrder(batches: seq<seq<Envelope>>, labels: seq<Label>, measure: Measure, id: string)
    requires |batches| == 2
    requires |Contribution(batches[0], labels, measure, id)| == 1 == |Contribution(batches[1], labels, measure, id)|
    requires Contribution(batches[1], labels, measure, id)[0].t < Contribution(batches[0], labels, measure, id)[0].t
    ensures !BatchesInOrder(batches, labels, measure, id)
  {
    hide Contribution;
    assert !NoneAfter(Contribution(batches[0], labels, measure, id), Contribution(batches[1], labels, measure, id));
  }

  lemma OneBatchEach(e: Envelope, f: Envelope)
    requires e.sourceId != f.sourceId
    ensures ReadPerSource([[e], [f]], [e.sourceId, f.sourceId]) && Ascending([e]) && Ascending([f])
  {
  }

  lemma OneSample(e: Envelope, labels: seq<Label>, measure: Measure, id: string)
    requires labels == [] && measure(e).Some? && SeriesId(SeriesTags(e)) == id
    ensures Contribution([e], labels, measure, id) == [Point(Millis(e.timestamp), measure(e).value)]
  {
    hide SeriesId, Millis, SeriesTags, PointsOf;
    var a := Add(SeriesTags(e), Point(Millis(e.timestamp), measure(e).value));
    OneAdd(e, labels, measure);
    NoPoints(id);
    PointsOfMore([], a, id);
    assert [] + [a] == [a];
  }

  lemma OneAdd(e: Envelope, labels: seq<Label>, measure: Measure)
    requires labels == [] && measure(e).Some?
    ensures AddsOf([e], labels, measure) == [Add(SeriesTags(e), Point(Millis(e.timestamp), measure(e).value))]
  {
    hide SeriesTags, Millis;
    assert [e][..0] == [];
    assert AddsOf([e][..0], labels, measure) == [];
  }

  /** Tags without dashes never put two sources into one series. */
  lemma DashFreeSeriesHaveOneSource(adds: seq<Add>, k: nat)
    requires k < |adds| && forall i :: 0 <= i < |adds| ==> AllDashFree(adds[i].tags) && "source_id" in adds[i].tags
    ensures OnlyFrom(adds, SeriesId(adds[k].tags), adds[k].tags["source_id"])
  {
    forall i | 0 <= i < |adds| && SeriesId(adds[i].tags) == SeriesId(adds[k].tags) ensures adds[i].tags == adds[k].tags {
      DashFreeIdsAreDistinct(adds[i].tags, adds[k].tags);
    }
  }

  // ---------- reading a series ----------

  /** The points at or after a time, in their order. */
  ghost function From(points: seq<Point>, t: int): seq<Point> {
    if points == [] then [] else
    var p := points[|points| - 1];
    From(points[..|points| - 1], t) + if p.t >= t then [p] else []
  }

  lemma {:induction false} FromIsSuffix(points: seq<Point>, t: int, k: nat)
    requires k <= |points|
    requires forall i :: 0 <= i < k ==> points[i].t < t
    requires forall i :: k <= i < |points| ==> points[i].t >= t
    ensures From(points, t) == points[k..]
  {
    if points != [] {
      var n := |points| - 1;
      if k <= n {
        FromIsSuffix(points[..n], t, k);
        assert points[k..] == points[..n][k..] + [points[n]];
      } else {
        FromIsSuffix(points[..n], t, n);
      }
    }
  }

  class SeriesIterator {
    const points: seq<Point>
    var cur: int

    constructor (points: seq<Point>)
      ensures this.points == points && cur == -1
    {
      this.points, cur := points, -1;
    }

    /** Binary search for the first point at or after `t`. On unsorted points it still stops at a crossing. */
    method Seek(t: int) returns (found: bool)
      modifies this`cur
      ensures 0 <= cur <= |points| && found == (cur < |points|)
      ensures cur < |points| ==> points[cur].t >= t
      ensures cur > 0 ==> points[cur - 1].t < t
      ensures Sorted(points) ==> points[cur..] == From(points, t)
    {
      var i, j := 0, |points|;
      while i < j
        invariant 0 <= i <= j <= |points|
        invariant i > 0 ==> points[i - 1].t < t
        invariant j < |points| ==> points[j].t >= t
      {
        var h := (i + j) / 2;
        if points[h].t >= t {
          j := h;
        } else {
          i := h + 1;
        }
      }
      cur := i;
      if Sorted(points) { FromIsSuffix(points, t, i); }
      found := cur < |points|;
    }

    method Next() returns (more: bool)
      requires -1 <= cur
      modifies this`cur
      ensures cur == old(cur) + 1 && more == (cur < |points|)
    {
      cur := cur + 1;
      more := cur < |points|;
    }

    method At() returns (p: Point)
      requires 0 <= cur < |points|
      ensures p == points[cur]
    {
      p := points[cur];
    }

    /** Seeking and then advancing to the end yields every point at or after `t`, once and in order. */
    method ReadFrom(t: int) returns (out: seq<Point>)
      modifies this`cur
      ensures Sorted(points) ==> out == From(points, t)
    {
      out := [];
      var more := Seek(t);
      ghost var first := cur;
      while more
        invariant first <= cur && more == (cur < |points|) && cur <= |points|
        invariant out == points[first..cur]
        decreases |points| - cur
      {
        var p := At();
        out := out + [p];
        more := Next();
      }
    }
  }
}

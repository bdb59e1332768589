/**
 Reading envelopes out of one source's tree: the filters, the callback that collects results, and the
 two recursive traversals that prune on timestamps while the tree is ordered by key.
 */
module Traversal {
  import opened Envelopes
  import opened SearchTrees

  /** The arguments of a read. A compiled name filter is any predicate on names; no type list means any type. */
  datatype Query = Query(
    start: int,
    end: int,
    types: Option<seq<EnvelopeType>>,
    name: Option<string -> bool>,
    limit: int,
    descending: bool)

  // ---------- filters and callback ----------

  function FilterByName(e: Envelope, name: Option<string -> bool>): Option<Envelope> {
    if name.None? then Some(e) else
    match e.message
    case Counter(n, _) => if name.value(n) then Some(e) else None
    case Gauge(metrics) =>
      var kept := map m | m in metrics && name.value(m) :: metrics[m];
      if kept != map[] then Some(e.(message := Gauge(kept))) else None
    case Timer(n, _, _) => if name.value(n) then Some(e) else None
    case Log(_) => None
    case Event(_) => None
  }

  predicate HasType(e: Envelope, t: EnvelopeType) {
    match t
    case ANY => true
    case LOG => e.message.Log?
    case COUNTER => e.message.Counter?
    case GAUGE => e.message.Gauge?
    case TIMER => e.message.Timer?
    case EVENT => e.message.Event?
  }

  predicate ValidEnvelopeType(e: Envelope, types: Option<seq<EnvelopeType>>) {
    types.None? || exists i :: 0 <= i < |types.value| && HasType(e, types.value[i])
  }

  /** What the envelope contributes to a result, ignoring the time range. */
  function Project(e: Envelope, q: Query): Option<Envelope> {
    var f := FilterByName(e, q.name);
    if f.Some? && ValidEnvelopeType(f.value, q.types) then f else None
  }

  predicate InRange(e: Envelope, q: Query) {
    q.start <= e.timestamp < q.end
  }

  datatype Outcome = Outcome(stopped: bool, res: seq<Envelope>)

  /** The closure handed to the traversals: collect the envelope and say whether the limit is reached. */
  function Collect(e: Envelope, q: Query, res: seq<Envelope>): Outcome {
    var f := FilterByName(e, q.name);
    if f.None? then
      Outcome(false, res)
    else
      var res' := if ValidEnvelopeType(f.value, q.types) then res + [f.value] else res;
      Outcome(|res'| >= q.limit, res')
  }

  // ---------- the two traversals ----------

  predicate Fudged(n: Tree<Envelope>)
    requires n.Node?
  {
    n.value.timestamp != n.key
  }

  predicate IsFudgeSequenceMember(n: Tree<Envelope>, next: Tree<Envelope>)
    requires n.Node?
  {
    Fudged(n) || (next.Node? && Fudged(next))
  }

  function TreeAscTraverse(n: Tree<Envelope>, q: Query, res: seq<Envelope>): Outcome {
    if n.Nil? then Outcome(false, res) else
    var t := n.value.timestamp;
    if t >= q.start then
      var near := TreeAscTraverse(n.left, q, res);
      if near.stopped then near else
      var here := if t >= q.end then Outcome(true, near.res) else Collect(n.value, q, near.res);
      if here.stopped && !IsFudgeSequenceMember(n, n.right) then here
      else TreeAscTraverse(n.right, q, here.res)
    else
      TreeAscTraverse(n.right, q, res)
  }

  function TreeDescTraverse(n: Tree<Envelope>, q: Query, res: seq<Envelope>): Outcome {
    if n.Nil? then Outcome(false, res) else
    var t := n.value.timestamp;
    if t < q.end then
      var near := TreeDescTraverse(n.right, q, res);
      if near.stopped then near else
      var here := if t < q.start then Outcome(true, near.res) else Collect(n.value, q, near.res);
      if here.stopped && !IsFudgeSequenceMember(n, n.left) then here
      else TreeDescTraverse(n.left, q, here.res)
    else
      TreeDescTraverse(n.left, q, res)
  }

  /** The envelopes a read of the tree returns. */
  function Read(n: Tree<Envelope>, q: Query): seq<Envelope> {
    if q.descending then TreeDescTraverse(n, q, []).res else TreeAscTraverse(n, q, []).res
  }

  // ---------- one traversal for both directions ----------

  function Near(n: Tree<Envelope>, descending: bool): Tree<Envelope>
    requires n.Node?
  {
    if descending then n.right else n.left
  }

  function Far(n: Tree<Envelope>, descending: bool): Tree<Envelope>
    requires n.Node?
  {
    if descending then n.left else n.right
  }

  /** The traversal has not reached the range yet. */
  predicate Before(e: Envelope, q: Query) {
    if q.descending then e.timestamp >= q.end else e.timestamp < q.start
  }

  /** The traversal has left the range. */
  predicate After(e: Envelope, q: Query) {
    if q.descending then e.timestamp < q.start else e.timestamp >= q.end
  }

  function Touch(e: Envelope, q: Query, res: seq<Envelope>): Outcome {
    if After(e, q) then Outcome(true, res) else Collect(e, q, res)
  }

  function Walk(n: Tree<Envelope>, q: Query, res: seq<Envelope>): Outcome {
    if n.Nil? then Outcome(false, res) else
    var near, far := Near(n, q.descending), Far(n, q.descending);
    if Before(n.value, q) then Walk(far, q, res) else
    var a := Walk(near, q, res);
    if a.stopped then a else
    var here := Touch(n.value, q, a.res);
    if here.stopped && !IsFudgeSequenceMember(n, far) then here else Walk(far, q, here.res)
  }

  lemma {:induction false} AscIsWalk(n: Tree<Envelope>, q: Query, res: seq<Envelope>)
    requires !q.descending
    ensures TreeAscTraverse(n, q, res) == Walk(n, q, res)
  {
    if n.Node? {
      AscIsWalk(n.left, q, res);
      AscIsWalk(n.right, q, res);
      AscIsWalk(n.right, q, Touch(n.value, q, Walk(n.left, q, res).res).res);
    }
  }

  lemma {:induction false} DescIsWalk(n: Tree<Envelope>, q: Query, res: seq<Envelope>)
    requires q.descending
    ensures TreeDescTraverse(n, q, res) == Walk(n, q, res)
  {
    if n.Node? {
      DescIsWalk(n.right, q, res);
      DescIsWalk(n.left, q, res);
      DescIsWalk(n.left, q, Touch(n.value, q, Walk(n.right, q, res).res).res);
    }
  }

  lemma ReadIsWalk(n: Tree<Envelope>, q: Query)
    ensures Read(n, q) == Walk(n, q, []).res
  {
    if q.descending { DescIsWalk(n, q, []); } else { AscIsWalk(n, q, []); }
  }

  // ---------- the simple form: filter a list ----------

  /** The entries in the order a traversal meets them. */
  ghost function Timeline(n: Tree<Envelope>, descending: bool): seq<Entry<Envelope>> {
    if n.Nil? then [] else
    Timeline(Near(n, descending), descending) + [Entry(n.key, n.value)] + Timeline(Far(n, descending), descending)
  }

  /** The entry's contribution to a result: nothing if it is out of range or filtered out. */
  ghost function Match(x: Entry<Envelope>, q: Query): Option<Envelope> {
    if InRange(x.value, q) then Project(x.value, q) else None
  }

  /** The reference answer without a limit. */
  ghost function Matches(s: seq<Entry<Envelope>>, q: Query): seq<Envelope> {
    if s == [] then [] else
    var m := Match(s[0], q);
    (if m.Some? then [m.value] else []) + Matches(s[1..], q)
  }

  lemma {:induction false} MatchesConcat(a: seq<Entry<Envelope>>, b: seq<Entry<Envelope>>, q: Query)
    ensures Matches(a + b, q) == Matches(a, q) + Matches(b, q)
  {
    if a == [] {
      assert a + b == b;
    } else {
      assert (a + b)[1..] == a[1..] + b;
      MatchesConcat(a[1..], b, q);
    }
  }

  lemma {:induction false} NoMatches(s: seq<Entry<Envelope>>, q: Query)
    requires forall i :: 0 <= i < |s| ==> !InRange(s[i].value, q)
    ensures Matches(s, q) == []
  {
    if s != [] { NoMatches(s[1..], q); }
  }

  // ---------- soundness on every tree ----------

  /** `a` can be obtained from `b` by deleting elements. */
  ghost predicate Subsequence<T>(a: seq<T>, b: seq<T>) {
    a == [] || (b != [] && ((a[0] == b[0] && Subsequence(a[1..], b[1..])) || Subsequence(a, b[1..])))
  }

  lemma {:induction false} SubsequenceRefl<T>(a: seq<T>)
    ensures Subsequence(a, a)
  {
    if a != [] { SubsequenceRefl(a[1..]); }
  }

  lemma {:induction false} SubsequenceAppend<T>(a: seq<T>, b: seq<T>, c: seq<T>, d: seq<T>)
    requires Subsequence(a, b) && Subsequence(c, d)
    ensures Subsequence(a + c, b + d)
    decreases |b|
  {
    if b == [] {
      assert a + c == c && b + d == d;
    } else {
      assert (b + d)[1..] == b[1..] + d;
      if a == [] {
        SubsequenceAppend([], b[1..], c, d);
        assert [] + c == c && a + c == c;
      } else if a[0] == b[0] && Subsequence(a[1..], b[1..]) {
        SubsequenceAppend(a[1..], b[1..], c, d);
        assert (a + c)[1..] == a[1..] + c;
      } else {
        SubsequenceAppend(a, b[1..], c, d);
      }
    }
  }

  /** `out` is `res` followed by a subsequence of `ms`. */
  ghost predicate Extends(res: seq<Envelope>, out: seq<Envelope>, ms: seq<Envelope>) {
    res <= out && Subsequence(out[|res|..], ms)
  }

  lemma ExtendsChain(a: seq<Envelope>, b: seq<Envelope>, c: seq<Envelope>, m: seq<Envelope>, n: seq<Envelope>)
    requires Extends(a, b, m) && Extends(b, c, n)
    ensures Extends(a, c, m + n)
  {
    SubsequenceAppend(b[|a|..], m, c[|b|..], n);
    assert c[|a|..] == b[|a|..] + c[|b|..];
  }

  lemma TouchExtends(x: Entry<Envelope>, q: Query, res: seq<Envelope>)
    requires !Before(x.value, q)
    ensures Extends(res, Touch(x.value, q, res).res, Matches([x], q))
  {
    var own := Touch(x.value, q, res).res[|res|..];
    assert own == Matches([x], q);
    SubsequenceRefl(own);
  }

  /** Whatever the shape and the keys, the result is read off the filtered timeline, in order, each node at most once. */
  lemma {:induction false} WalkIsSound(n: Tree<Envelope>, q: Query, res: seq<Envelope>)
    ensures Extends(res, Walk(n, q, res).res, Matches(Timeline(n, q.descending), q))
  {
    if n.Node? {
      var near, far := Near(n, q.descending), Far(n, q.descending);
      var l, x, r := Timeline(near, q.descending), Entry(n.key, n.value), Timeline(far, q.descending);
      MatchesConcat(l + [x], r, q);
      MatchesConcat(l, [x], q);
      var a := if Before(n.value, q) then Outcome(false, res) else Walk(near, q, res);
      if !Before(n.value, q) { WalkIsSound(near, q, res); }
      var here := if Before(n.value, q) || a.stopped then a else Touch(n.value, q, a.res);
      if !Before(n.value, q) && !a.stopped { TouchExtends(x, q, a.res); }
      ExtendsChain(res, a.res, here.res, Matches(l, q), Matches([x], q));
      WalkIsSound(far, q, here.res);
      ExtendsChain(res, here.res, Walk(far, q, here.res).res, Matches(l + [x], q), Matches(r, q));
      ExtendsChain(res, here.res, here.res, Matches(l + [x], q), Matches(r, q));
    }
  }

  /** Filtering twice by the same name filter changes nothing, and the timestamp is never touched. */
  lemma FilterIsIdempotent(e: Envelope, name: Option<string -> bool>)
    ensures var f := FilterByName(e, name);
      f.Some? ==> f.value.timestamp == e.timestamp && FilterByName(f.value, name) == f
  {
    if name.Some? && e.message.Gauge? {
      var kept := map m | m in e.message.metrics && name.value(m) :: e.message.metrics[m];
      assert kept == map m | m in kept && name.value(m) :: kept[m];
    }
  }

  /** The metric names an envelope carries. */
  function Names(e: Envelope): set<string> {
    match e.message
    case Counter(n, _) => {n}
    case Gauge(metrics) => metrics.Keys
    case Timer(n, _, _) => {n}
    case _ => {}
  }

  /** The same kind of payload with part of the names and nothing else changed. */
  ghost predicate Restricts(f: Envelope, e: Envelope) {
    && f == e.(message := f.message)
    && if e.message.Gauge?
       then f.message.Gauge? && forall n :: n in f.message.metrics ==>
              n in e.message.metrics && f.message.metrics[n] == e.message.metrics[n]
       else f.message == e.message
  }

  /** A name filter lets an envelope through exactly if one of its names passes, reduced to the names that pass. */
  lemma FilterKeepsPassingNames(e: Envelope, passes: string -> bool)
    ensures var f := FilterByName(e, Some(passes));
      && (f.Some? <==> exists n :: n in Names(e) && passes(n))
      && (f.Some? ==> Restricts(f.value, e) && forall n :: n in Names(f.value) <==> n in Names(e) && passes(n))
  {
    if e.message.Gauge? {
      var kept := map m | m in e.message.metrics && passes(m) :: e.message.metrics[m];
      if n :| n in e.message.metrics && passes(n) {
        assert n in kept;
      }
    }
  }

  /** Without a name filter every envelope passes as it is. */
  lemma NoNameFilter(e: Envelope)
    ensures FilterByName(e, None) == Some(e)
  {
  }

  /** Which payloads each type of a request stands for. */
  lemma TypeOfPayload(e: Envelope, t: EnvelopeType)
    ensures e.message.Log? ==> (HasType(e, t) <==> t == ANY || t == LOG)
    ensures e.message.Counter? ==> (HasType(e, t) <==> t == ANY || t == COUNTER)
    ensures e.message.Gauge? ==> (HasType(e, t) <==> t == ANY || t == GAUGE)
    ensures e.message.Timer? ==> (HasType(e, t) <==> t == ANY || t == TIMER)
    ensures e.message.Event? ==> (HasType(e, t) <==> t == ANY || t == EVENT)
  {
  }

  /** The envelope's payload is one that was asked for. */
  ghost predicate Wanted(e: Envelope, types: Option<seq<EnvelopeType>>) {
    types.Some? ==>
      || ANY in types.value
      || (e.message.Log? && LOG in types.value) || (e.message.Counter? && COUNTER in types.value)
      || (e.message.Gauge? && GAUGE in types.value) || (e.message.Timer? && TIMER in types.value)
      || (e.message.Event? && EVENT in types.value)
  }

  lemma ValidIffWanted(e: Envelope, types: Option<seq<EnvelopeType>>)
    ensures ValidEnvelopeType(e, types) <==> Wanted(e, types)
  {
    if types.Some? {
      var ts := types.value;
      forall t ensures (exists i :: 0 <= i < |ts| && ts[i] == t && HasType(e, t)) <==> t in ts && HasType(e, t) {
        if t in ts { var i :| 0 <= i < |ts| && ts[i] == t; }
      }
      if i :| 0 <= i < |ts| && HasType(e, ts[i]) {
        TypeOfPayload(e, ts[i]);
      }
    }
  }

  /** An entry contributes an envelope exactly if that passes the name filter, is in the range and is wanted. */
  lemma MatchIff(x: Entry<Envelope>, q: Query, f: Envelope)
    ensures Match(x, q) == Some(f) <==>
      FilterByName(x.value, q.name) == Some(f) && q.start <= f.timestamp < q.end && Wanted(f, q.types)
  {
    FilterIsIdempotent(x.value, q.name);
    ValidIffWanted(f, q.types);
  }

  lemma {:induction false} MatchesMember(s: seq<Entry<Envelope>>, q: Query, f: Envelope)
    ensures f in Matches(s, q) <==> exists i :: 0 <= i < |s| && Match(s[i], q) == Some(f)
  {
    if s != [] {
      MatchesMember(s[1..], q, f);
      if i :| 0 <= i < |s| && Match(s[i], q) == Some(f) {
        if i > 0 { assert s[1..][i - 1] == s[i]; }
      }
    }
  }

  ghost predicate Admitted(e: Envelope, q: Query) {
    InRange(e, q) && FilterByName(e, q.name) == Some(e) && ValidEnvelopeType(e, q.types)
  }

  lemma {:induction false} MatchesAdmitted(s: seq<Entry<Envelope>>, q: Query)
    ensures forall e :: e in Matches(s, q) ==> Admitted(e, q)
  {
    if s != [] {
      FilterIsIdempotent(s[0].value, q.name);
      MatchesAdmitted(s[1..], q);
    }
  }

  lemma {:induction false} SubsequenceElements<T>(a: seq<T>, b: seq<T>)
    requires Subsequence(a, b)
    ensures forall x :: x in a ==> x in b
    decreases |b|
  {
    if a != [] {
      if a[0] == b[0] && Subsequence(a[1..], b[1..]) {
        SubsequenceElements(a[1..], b[1..]);
        assert forall x :: x in a ==> x == a[0] || x in a[1..];
      } else {
        SubsequenceElements(a, b[1..]);
      }
    }
  }

  lemma ReadIsSound(n: Tree<Envelope>, q: Query)
    ensures Subsequence(Read(n, q), Matches(Timeline(n, q.descending), q))
    ensures forall e :: e in Read(n, q) ==> Admitted(e, q)
  {
    ReadIsWalk(n, q);
    WalkIsSound(n, q, []);
    assert Read(n, q)[0..] == Read(n, q);
    SubsequenceElements(Read(n, q), Matches(Timeline(n, q.descending), q));
    MatchesAdmitted(Timeline(n, q.descending), q);
  }
}

/** Extracting the source ids a PromQL query names, and replacing them by the ids they expand to. */
module SourceIdRewriting {
  import opened Alternatives
  import opened Envelopes

  datatype MatchType = Equal | NotEqual | Regexp | NotRegexp

  datatype Matcher = Matcher(kind: MatchType, name: string, value: string)

  /** What sits between the selectors of a query: every such node's children are visited in order. */
  datatype NodeKind =
    | NumberLiteral(value: real) | StringLiteral(text: string)
    | Paren | Unary(op: string) | Subquery(range: int, offset: int, step: int)
    | Binary(op: string) | Aggregate(op: string, hasParam: bool, grouping: seq<string>) | Call(func: string)

  /** A parsed query; a selector with a range is a matrix selector. */
  datatype Expr<S> =
    | Selector(metric: string, range: Option<int>, matchers: S)
    | Node(kind: NodeKind, children: seq<Expr<S>>)

  type Query = Expr<seq<Matcher>>

  type Expansions = map<string, seq<string>>

  // ---------- extraction ----------

  function Elements(xs: seq<string>): set<string> {
    set x | x in xs
  }

  function MatcherIds(m: Matcher): set<string> {
    if m.name != "source_id" then {} else
    match m.kind
    case Regexp => Elements(Split(m.value))
    case Equal => {m.value}
    case _ => {}
  }

  ghost function ListIds(ms: seq<Matcher>): set<string> {
    set i, x | 0 <= i < |ms| && x in MatcherIds(ms[i]) :: x
  }

  /** The source ids a query names. */
  ghost function Ids(q: Query): set<string> {
    match q
    case Selector(_, _, ms) => ListIds(ms)
    case Node(_, cs) => set i, x | 0 <= i < |cs| && x in Ids(cs[i]) :: x
  }

  // ---------- replacement ----------

  /** The expansions of a list of ids; an id without an entry expands to nothing. */
  ghost function ExpandAll(ids: seq<string>, sets: Expansions): seq<string> {
    if ids == [] then [] else
    var id := ids[|ids| - 1];
    ExpandAll(ids[..|ids| - 1], sets) + if id in sets then sets[id] else []
  }

  function Joined(name: string, expansions: seq<string>): Matcher {
    Matcher(if |expansions| > 1 then Regexp else Equal, name, Join(expansions))
  }

  ghost function RewriteMatcher(m: Matcher, sets: Expansions): Matcher {
    if m.name != "source_id" then m else
    match m.kind
    case Equal => if m.value in sets then Joined(m.name, sets[m.value]) else m
    case Regexp => Joined(m.name, ExpandAll(Split(m.value), sets))
    case _ => m
  }

  ghost function RewriteList(ms: seq<Matcher>, sets: Expansions): seq<Matcher> {
    seq(|ms|, i requires 0 <= i < |ms| => RewriteMatcher(ms[i], sets))
  }

  ghost function Rewrite(q: Query, sets: Expansions): Query {
    match q
    case Selector(metric, range, ms) => Selector(metric, range, RewriteList(ms, sets))
    case Node(kind, cs) => Node(kind, seq(|cs|, i requires 0 <= i < |cs| => Rewrite(cs[i], sets)))
  }

  // ---------- the two commute ----------

  /** The ids of a list can be read back from its joined matcher. */
  ghost predicate Readable(xs: seq<string>) {
    |xs| == 1 || (|xs| > 1 && BarFree(xs))
  }

  /** The exact condition: extraction after joining gives the list's ids if and only if it is readable. */
  lemma JoinedIdsIff(xs: seq<string>)
    ensures MatcherIds(Joined("source_id", xs)) == Elements(xs) <==> Readable(xs)
  {
    if xs == [] {
      assert "" in MatcherIds(Joined("source_id", xs));
    } else if |xs| > 1 {
      if BarFree(xs) {
        SplitJoin(xs);
      } else {
        var i :| 0 <= i < |xs| && '|' in xs[i];
        assert xs[i] in Elements(xs);
        assert xs[i] !in Split(Join(xs));
      }
    }
  }

  /** The matcher names no source ids, or its ids can be read back; an equality without an entry is not replaced at all. */
  ghost predicate ReadableMatcher(m: Matcher, sets: Expansions) {
    m.name == "source_id" ==>
      && (m.kind.Equal? ==> m.value in sets && Readable(sets[m.value]))
      && (m.kind.Regexp? ==> Readable(ExpandAll(Split(m.value), sets)))
  }

  ghost predicate AllReadable(q: Query, sets: Expansions) {
    match q
    case Selector(_, _, ms) => forall i :: 0 <= i < |ms| ==> ReadableMatcher(ms[i], sets)
    case Node(_, cs) => forall i :: 0 <= i < |cs| ==> AllReadable(cs[i], sets)
  }

  ghost function ExpansionOf(id: string, sets: Expansions): set<string> {
    if id in sets then Elements(sets[id]) else {}
  }

  /** The union of the expansions of a set of ids. */
  ghost function ExpandedIds(ids: set<string>, sets: Expansions): set<string> {
    set id, x | id in ids && x in ExpansionOf(id, sets) :: x
  }

  lemma {:induction false} ExpandAllElements(ids: seq<string>, sets: Expansions, x: string)
    ensures x in ExpandAll(ids, sets) <==> exists i :: 0 <= i < |ids| && x in ExpansionOf(ids[i], sets)
  {
    if ids != [] {
      var k := |ids| - 1;
      ExpandAllElements(ids[..k], sets, x);
      assert forall i :: 0 <= i < k ==> ids[..k][i] == ids[i];
    }
  }

  lemma EqualExpansion(v: string, sets: Expansions)
    ensures ExpandedIds({v}, sets) == ExpansionOf(v, sets)
  {
  }

  lemma RegexpExpansion(ids: seq<string>, sets: Expansions)
    ensures Elements(ExpandAll(ids, sets)) == ExpandedIds(Elements(ids), sets)
  {
    forall x ensures x in ExpandAll(ids, sets) <==> x in ExpandedIds(Elements(ids), sets) {
      ExpandAllElements(ids, sets, x);
      if i :| 0 <= i < |ids| && x in ExpansionOf(ids[i], sets) {
        assert ids[i] in Elements(ids);
      }
    }
  }

  /** For every matcher: extraction and rewriting commute exactly if it is readable. */
  lemma MatcherCommutesIff(m: Matcher, sets: Expansions)
    ensures MatcherIds(RewriteMatcher(m, sets)) == ExpandedIds(MatcherIds(m), sets) <==> ReadableMatcher(m, sets)
  {
    if m.name == "source_id" {
      match m.kind
      case Equal =>
        EqualExpansion(m.value, sets);
        if m.value in sets {
          JoinedIdsIff(sets[m.value]);
        } else {
          assert m.value in MatcherIds(m);
        }
      case Regexp =>
        RegexpExpansion(Split(m.value), sets);
        JoinedIdsIff(ExpandAll(Split(m.value), sets));
      case _ =>
    }
  }

  lemma ListCommutes(ms: seq<Matcher>, sets: Expansions)
    requires forall i :: 0 <= i < |ms| ==> ReadableMatcher(ms[i], sets)
    ensures ListIds(RewriteList(ms, sets)) == ExpandedIds(ListIds(ms), sets)
  {
    var rs := RewriteList(ms, sets);
    forall i | 0 <= i < |ms| ensures MatcherIds(rs[i]) == ExpandedIds(MatcherIds(ms[i]), sets) {
      MatcherCommutesIff(ms[i], sets);
    }
    forall x ensures x in ListIds(rs) <==> x in ExpandedIds(ListIds(ms), sets) {
      if x in ListIds(rs) {
        var i :| 0 <= i < |rs| && x in MatcherIds(rs[i]);
        var id :| id in MatcherIds(ms[i]) && x in ExpansionOf(id, sets);
        assert id in ListIds(ms);
      }
      if x in ExpandedIds(ListIds(ms), sets) {
        var id :| id in ListIds(ms) && x in ExpansionOf(id, sets);
        var i :| 0 <= i < |ms| && id in MatcherIds(ms[i]);
        assert x in MatcherIds(rs[i]);
      }
    }
  }

  /** For every query: the ids of the rewritten query are the expansions of the ids of the original one. */
  lemma {:induction false} RewritingCommutes(q: Query, sets: Expansions)
    requires AllReadable(q, sets)
    ensures Ids(Rewrite(q, sets)) == ExpandedIds(Ids(q), sets)
  {
    match q
    case Selector(_, _, ms) => ListCommutes(ms, sets);
    case Node(kind, cs) =>
      var rs := Rewrite(q, sets).children;
      forall i | 0 <= i < |cs| ensures Ids(rs[i]) == ExpandedIds(Ids(cs[i]), sets) {
        RewritingCommutes(cs[i], sets);
      }
      forall x ensures x in Ids(Rewrite(q, sets)) <==> x in ExpandedIds(Ids(q), sets) {
        if x in Ids(Rewrite(q, sets)) {
          var i :| 0 <= i < |rs| && x in Ids(rs[i]);
          var id :| id in Ids(cs[i]) && x in ExpansionOf(id, sets);
          assert id in Ids(q);
        }
        if x in ExpandedIds(Ids(q), sets) {
          var id :| id in Ids(q) && x in ExpansionOf(id, sets);
          var i :| 0 <= i < |cs| && id in Ids(cs[i]);
          assert x in Ids(rs[i]);
        }
      }
  }

  // ---------- ids that are not read back ----------

  ghost function OneSelector(m: Matcher): Query {
    Selector("m", None, [m])
  }

  lemma OneSelectorIds(m: Matcher, sets: Expansions)
    ensures Ids(OneSelector(m)) == MatcherIds(m)
    ensures Rewrite(OneSelector(m), sets) == OneSelector(RewriteMatcher(m, sets))
  {
    assert forall x :: x in MatcherIds(m) ==> x in MatcherIds([m][0]);
    assert RewriteList([m], sets) == [RewriteMatcher(m, sets)];
  }

  /** A query for an id that expands to "x|y" and "z" ends up naming x, y and z instead. */
  lemma BarredExpansionIsMisread()
    ensures var sets := map["a" := ["x|y", "z"]];
      var q := OneSelector(Matcher(Equal, "source_id", "a"));
      Ids(Rewrite(q, sets)) == {"x", "y", "z"} && ExpandedIds(Ids(q), sets) == {"x|y", "z"}
  {
    hide Split, Join;
    var sets := map["a" := ["x|y", "z"]];
    var m := Matcher(Equal, "source_id", "a");
    OneSelectorIds(m, sets);
    OneSelectorIds(RewriteMatcher(m, sets), sets);
    EqualExpansion("a", sets);
    BarsRunTogether();
  }

  lemma BarsRunTogether()
    ensures Split(Join(["x|y", "z"])) == ["x", "y", "z"]
  {
    assert ["x|y", "z"][1..] == ["z"] && ["x", "y", "z"][1..] == ["y", "z"] && ["y", "z"][1..] == ["z"];
    assert Join(["x|y", "z"]) == Join(["x", "y", "z"]);
    SplitJoin(["x", "y", "z"]);
  }

  /** A query for an id that expands to nothing ends up naming the empty id. */
  lemma EmptyExpansionNamesEmptyId()
    ensures var sets := map["a" := []];
      var q := OneSelector(Matcher(Equal, "source_id", "a"));
      Ids(Rewrite(q, sets)) == {""} && ExpandedIds(Ids(q), sets) == {}
  {
    var sets := map["a" := []];
    var m := Matcher(Equal, "source_id", "a");
    OneSelectorIds(m, sets);
    OneSelectorIds(RewriteMatcher(m, sets), sets);
    EqualExpansion("a", sets);
  }

  // ---------- plain expansions ----------

  /** Every id has at least one expansion and no expansion contains a bar. */
  ghost predicate Plain(ids: set<string>, sets: Expansions) {
    forall id :: id in ids ==> id in sets && sets[id] != [] && BarFree(sets[id])
  }

  lemma {:induction false} ExpandAllPlain(ids: seq<string>, sets: Expansions)
    requires Plain(Elements(ids), sets)
    ensures BarFree(ExpandAll(ids, sets)) && (ids != [] ==> ExpandAll(ids, sets) != [])
  {
    if ids != [] {
      var k := |ids| - 1;
      assert ids[k] in Elements(ids);
      assert forall x :: x in Elements(ids[..k]) ==> x in Elements(ids);
      ExpandAllPlain(ids[..k], sets);
    }
  }

  lemma PlainMatcher(m: Matcher, sets: Expansions)
    requires Plain(MatcherIds(m), sets)
    ensures ReadableMatcher(m, sets)
  {
    if m.name == "source_id" && m.kind.Equal? {
      assert m.value in MatcherIds(m);
    } else if m.name == "source_id" && m.kind.Regexp? {
      ExpandAllPlain(Split(m.value), sets);
    }
  }

  lemma {:induction false} PlainIsReadable(q: Query, sets: Expansions)
    requires Plain(Ids(q), sets)
    ensures AllReadable(q, sets)
  {
    match q
    case Selector(_, _, ms) =>
      forall i | 0 <= i < |ms| ensures ReadableMatcher(ms[i], sets) {
        assert forall x :: x in MatcherIds(ms[i]) ==> x in Ids(q);
        PlainMatcher(ms[i], sets);
      }
    case Node(_, cs) =>
      forall i | 0 <= i < |cs| ensures AllReadable(cs[i], sets) {
        assert forall x :: x in Ids(cs[i]) ==> x in Ids(q);
        PlainIsReadable(cs[i], sets);
      }
  }

  /** With plain expansions, extraction and rewriting commute on every query. */
  lemma PlainRewritingCommutes(q: Query, sets: Expansions)
    requires Plain(Ids(q), sets)
    ensures Ids(Rewrite(q, sets)) == ExpandedIds(Ids(q), sets)
  {
    PlainIsReadable(q, sets);
    RewritingCommutes(q, sets);
  }

  // ---------- expanding every id to itself ----------

  ghost predicate SelfExpanding(ids: set<string>, sets: Expansions) {
    forall id :: id in ids ==> id in sets && sets[id] == [id]
  }

  lemma {:induction false} ExpandAllSelf(ids: seq<string>, sets: Expansions)
    requires SelfExpanding(Elements(ids), sets)
    ensures ExpandAll(ids, sets) == ids
  {
    if ids != [] {
      var k := |ids| - 1;
      assert ids[k] in Elements(ids);
      assert forall x :: x in Elements(ids[..k]) ==> x in Elements(ids);
      ExpandAllSelf(ids[..k], sets);
      assert ExpandAll(ids, sets) == ExpandAll(ids[..k], sets) + [ids[k]];
      hide ExpandAll;
      assert ids == ids[..k] + [ids[k]];
    }
  }

  /** A matcher whose ids expand to themselves keeps its value; only a regular expression without bars becomes an equality. */
  lemma SelfExpansionKeepsValue(m: Matcher, sets: Expansions)
    requires SelfExpanding(MatcherIds(m), sets)
    ensures var r := RewriteMatcher(m, sets);
      && r.name == m.name && r.value == m.value
      && (r.kind == m.kind || (m.kind.Regexp? && r.kind.Equal? && '|' !in m.value))
  {
    if m.name == "source_id" && m.kind.Equal? {
      assert m.value in MatcherIds(m);
    } else if m.name == "source_id" && m.kind.Regexp? {
      ExpandAllSelf(Split(m.value), sets);
      JoinSplit(m.value);
    }
  }

  // ---------- queries whose matchers are updated in place ----------

  /** A parsed query whose selectors refer to rows of matchers that can be updated. */
  type Shape = Expr<nat>

  ghost function Rows(q: Shape): set<nat> {
    match q
    case Selector(_, _, row) => {row}
    case Node(_, cs) => set i, r | 0 <= i < |cs| && r in Rows(cs[i]) :: r
  }

  /** The parser gives every selector matchers of its own. */
  ghost predicate Unshared(q: Shape) {
    match q
    case Selector(_, _, _) => true
    case Node(_, cs) =>
      && (forall i :: 0 <= i < |cs| ==> Unshared(cs[i]))
      && (forall i, j :: 0 <= i < j < |cs| ==> Rows(cs[i]) !! Rows(cs[j]))
  }

  ghost predicate Within(q: Shape, n: nat) {
    forall r :: r in Rows(q) ==> r < n
  }

  lemma ChildWithin(q: Shape, n: nat, i: nat)
    requires q.Node? && i < |q.children| && Within(q, n)
    ensures Rows(q.children[i]) <= Rows(q) && Within(q.children[i], n)
  {
  }

  /** The query that the current rows give. */
  ghost function Filled(q: Shape, rows: seq<seq<Matcher>>): Query
    requires Within(q, |rows|)
  {
    match q
    case Selector(metric, range, row) => assert row in Rows(q); Selector(metric, range, rows[row])
    case Node(kind, cs) =>
      Node(kind, seq(|cs|, i requires 0 <= i < |cs| => ChildWithin(q, |rows|, i); Filled(cs[i], rows)))
  }

  lemma {:induction false} FilledDependsOnRows(q: Shape, rows: seq<seq<Matcher>>, rows': seq<seq<Matcher>>)
    requires Within(q, |rows|) && |rows| == |rows'|
    requires forall r :: r in Rows(q) ==> rows[r] == rows'[r]
    ensures Filled(q, rows) == Filled(q, rows')
  {
    if q.Node? {
      forall i | 0 <= i < |q.children| ensures Filled(q, rows).children[i] == Filled(q, rows').children[i] {
        ChildWithin(q, |rows|, i);
        FilledDependsOnRows(q.children[i], rows, rows');
      }
    }
  }

  lemma ChildrenApart(q: Shape, i: nat, j: nat)
    requires q.Node? && i < |q.children| && j < |q.children| && i != j && Unshared(q)
    ensures Rows(q.children[i]) !! Rows(q.children[j])
  {
  }

  /** The loop over the alternatives of a regular expression. */
  method Expand(ids: seq<string>, sets: Expansions) returns (expansions: seq<string>)
    ensures expansions == ExpandAll(ids, sets)
  {
    expansions := [];
    for i := 0 to |ids|
      invariant expansions == ExpandAll(ids[..i], sets)
    {
      assert ids[..i + 1][..i] == ids[..i];
      expansions := expansions + if ids[i] in sets then sets[ids[i]] else [];
    }
    assert ids[..|ids|] == ids;
  }

  method ReplaceInMatcher(m: Matcher, sets: Expansions) returns (r: Matcher)
    ensures r == RewriteMatcher(m, sets)
  {
    r := m;
    if m.name == "source_id" {
      match m.kind
      case Equal =>
        if m.value in sets {
          r := Joined(m.name, sets[m.value]);
        }
      case Regexp =>
        var expansions := Expand(Split(m.value), sets);
        r := Joined(m.name, expansions);
      case _ =>
    }
  }

  method AddIds(ids: set<string>, ms: seq<Matcher>) returns (r: set<string>)
    ensures r == ids + ListIds(ms)
  {
    r := ids;
    for i := 0 to |ms|
      invariant r == ids + ListIds(ms[..i])
    {
      ListIdsMore(ms, i);
      r := r + MatcherIds(ms[i]);
    }
    assert ms[..|ms|] == ms;
  }

  lemma ListIdsMore(ms: seq<Matcher>, i: nat)
    requires i < |ms|
    ensures ListIds(ms[..i + 1]) == ListIds(ms[..i]) + MatcherIds(ms[i])
  {
    assert forall j :: 0 <= j < i ==> ms[..i + 1][j] == ms[..i][j];
    assert ms[..i + 1][i] == ms[i];
  }

  ghost function FirstIds(qs: seq<Query>, n: nat): set<string>
    requires n <= |qs|
  {
    if n == 0 then {} else FirstIds(qs, n - 1) + Ids(qs[n - 1])
  }

  lemma {:induction false} FirstIdsMember(qs: seq<Query>, n: nat, x: string)
    requires n <= |qs|
    ensures x in FirstIds(qs, n) <==> exists i :: 0 <= i < n && x in Ids(qs[i])
  {
    if n > 0 { FirstIdsMember(qs, n - 1, x); }
  }

  lemma IdsOfNode(q: Query)
    requires q.Node?
    ensures Ids(q) == FirstIds(q.children, |q.children|)
  {
    forall x ensures x in Ids(q) <==> x in FirstIds(q.children, |q.children|) {
      FirstIdsMember(q.children, |q.children|, x);
    }
  }

  class ParsedQuery {
    const shape: Shape
    var rows: seq<seq<Matcher>>

    constructor (shape: Shape, rows: seq<seq<Matcher>>)
      requires Unshared(shape) && Within(shape, |rows|)
      ensures Valid() && this.shape == shape && this.rows == rows
    {
      this.shape, this.rows := shape, rows;
    }

    ghost predicate Valid()
      reads this`rows
    {
      Unshared(shape) && Within(shape, |rows|)
    }

    ghost function Current(): Query
      requires Valid()
      reads this`rows
    {
      Filled(shape, rows)
    }

    /** The replacing visitor walks a part of the query and updates the matchers of each selector it meets. */
    method Replace(q: Shape, sets: Expansions)
      requires Unshared(q) && Within(q, |rows|)
      modifies this`rows
      ensures |rows| == old(|rows|) && Filled(q, rows) == Rewrite(Filled(q, old(rows)), sets)
      ensures forall r :: 0 <= r < |rows| && r !in Rows(q) ==> rows[r] == old(rows[r])
      decreases q
    {
      if q.Selector? {
        assert q.matchers in Rows(q);
        ReplaceInRow(q.matchers, sets);
        return;
      }
      ReplaceInChildren(q, sets);
      assert Filled(q, rows).children == Rewrite(Filled(q, old(rows)), sets).children;
    }

    method ReplaceInChildren(q: Shape, sets: Expansions)
      requires q.Node? && Unshared(q) && Within(q, |rows|)
      modifies this`rows
      ensures |rows| == old(|rows|)
      ensures forall i :: 0 <= i < |q.children| ==>
        Filled(q, rows).children[i] == Rewrite(Filled(q, old(rows)).children[i], sets)
      ensures forall r :: 0 <= r < |rows| && r !in Rows(q) ==> rows[r] == old(rows[r])
      decreases q, 0
    {
      hide Rewrite;
      var cs := q.children;
      for i := 0 to |cs|
        invariant |rows| == old(|rows|)
        invariant forall j :: 0 <= j < i ==> Filled(q, rows).children[j] == Rewrite(Filled(q, old(rows)).children[j], sets)
        invariant forall j :: i <= j < |cs| ==> Filled(q, rows).children[j] == Filled(q, old(rows)).children[j]
        invariant forall r :: 0 <= r < |rows| && r !in Rows(q) ==> rows[r] == old(rows[r])
      {
        ghost var before := rows;
        ChildWithin(q, |rows|, i);
        Replace(cs[i], sets);
        forall j | 0 <= j < |cs| && j != i ensures Filled(q, rows).children[j] == Filled(q, before).children[j] {
          ChildWithin(q, |rows|, j);
          ChildrenApart(q, i, j);
          FilledDependsOnRows(cs[j], before, rows);
        }
      }
    }

    /** The loop over the matchers of one selector. */
    method ReplaceInRow(row: nat, sets: Expansions)
      requires row < |rows|
      modifies this`rows
      ensures rows == old(rows)[row := RewriteList(old(rows)[row], sets)]
    {
      ghost var was := rows[row];
      for i := 0 to |rows[row]|
        invariant |rows| == old(|rows|) && |rows[row]| == |was| && rows == old(rows)[row := rows[row]]
        invariant forall j :: 0 <= j < i ==> rows[row][j] == RewriteMatcher(was[j], sets)
        invariant forall j :: i <= j < |was| ==> rows[row][j] == was[j]
      {
        var m := ReplaceInMatcher(rows[row][i], sets);
        rows := rows[row := rows[row][i := m]];
      }
      assert rows[row] == RewriteList(was, sets);
    }

    /** The extracting visitor adds the ids of each selector it meets to one set. */
    method Extract(q: Shape, ids: set<string>) returns (r: set<string>)
      requires Within(q, |rows|)
      ensures r == ids + Ids(Filled(q, rows))
      decreases q
    {
      hide Ids;
      if q.Selector? {
        assert q.matchers in Rows(q);
        r := AddIds(ids, rows[q.matchers]);
        IdsOfSelector(Filled(q, rows));
        return;
      }
      ghost var qs := Filled(q, rows).children;
      IdsOfNode(Filled(q, rows));
      r := ids;
      for i := 0 to |q.children|
        invariant r == ids + FirstIds(qs, i)
      {
        ChildWithin(q, |rows|, i);
        assert ids + FirstIds(qs, i) + Ids(qs[i]) == ids + FirstIds(qs, i + 1);
        r := Extract(q.children[i], r);
      }
    }
  }

  lemma IdsOfSelector(q: Query)
    requires q.Selector?
    ensures Ids(q) == ListIds(q.matchers)
  {
  }
}

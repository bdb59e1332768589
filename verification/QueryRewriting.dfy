/** Exactly when rewriting a whole query gives the expansions of its ids, although single matchers may be misread. */
module QueryRewriting {
  import opened Alternatives
  import opened Envelopes
  import opened SourceIdRewriting

  // ---------- a query as the set of its matchers ----------

  ghost function Matchers(q: Query): set<Matcher> {
    match q
    case Selector(_, _, ms) => set m | m in ms
    case Node(_, cs) => set i, m | 0 <= i < |cs| && m in Matchers(cs[i]) :: m
  }

  /** Some matcher of the query names the id. */
  ghost predicate Names(q: Query, m: Matcher, x: string) {
    m in Matchers(q) && x in MatcherIds(m)
  }

  lemma {:induction false} IdsAreNamed(q: Query, x: string)
    ensures x in Ids(q) <==> exists m :: Names(q, m, x)
  {
    match q
    case Selector(_, _, ms) =>
      if i :| 0 <= i < |ms| && x in MatcherIds(ms[i]) {
        assert Names(q, ms[i], x);
      }
      if m :| Names(q, m, x) {
        var i :| 0 <= i < |ms| && ms[i] == m;
        assert x in MatcherIds(ms[i]);
      }
    case Node(_, cs) =>
      forall i | 0 <= i < |cs| ensures x in Ids(cs[i]) <==> exists m :: Names(cs[i], m, x) {
        IdsAreNamed(cs[i], x);
      }
      if i :| 0 <= i < |cs| && x in Ids(cs[i]) {
        var m :| Names(cs[i], m, x);
        assert Names(q, m, x);
      }
      if m :| Names(q, m, x) {
        var i :| 0 <= i < |cs| && m in Matchers(cs[i]);
        assert Names(cs[i], m, x);
      }
  }

  lemma {:induction false} RewrittenMatchers(q: Query, sets: Expansions, r: Matcher)
    ensures r in Matchers(Rewrite(q, sets)) <==> exists m :: m in Matchers(q) && RewriteMatcher(m, sets) == r
  {
    match q
    case Selector(_, _, ms) =>
      var rs := RewriteList(ms, sets);
      if r in Matchers(Rewrite(q, sets)) {
        var i :| 0 <= i < |rs| && rs[i] == r;
        assert ms[i] in Matchers(q) && RewriteMatcher(ms[i], sets) == r;
      }
      if m :| m in Matchers(q) && RewriteMatcher(m, sets) == r {
        var i :| 0 <= i < |ms| && ms[i] == m;
        assert rs[i] == r;
      }
    case Node(_, cs) =>
      var rs := Rewrite(q, sets).children;
      forall i | 0 <= i < |cs|
        ensures r in Matchers(rs[i]) <==> exists m :: m in Matchers(cs[i]) && RewriteMatcher(m, sets) == r
      {
        RewrittenMatchers(cs[i], sets, r);
      }
      if r in Matchers(Rewrite(q, sets)) {
        var i :| 0 <= i < |rs| && r in Matchers(rs[i]);
        var m :| m in Matchers(cs[i]) && RewriteMatcher(m, sets) == r;
        assert m in Matchers(q);
      }
      if m :| m in Matchers(q) && RewriteMatcher(m, sets) == r {
        var i :| 0 <= i < |cs| && m in Matchers(cs[i]);
        assert r in Matchers(rs[i]);
      }
  }

  // ---------- what a rewritten matcher names ----------

  ghost predicate IsReplaced(m: Matcher) {
    m.name == "source_id" && (m.kind.Equal? || m.kind.Regexp?)
  }

  /** The list that stands behind a matcher after the replacement; an equality without an entry keeps its id. */
  ghost function Behind(m: Matcher, sets: Expansions): seq<string> {
    if m.kind.Regexp? then ExpandAll(Split(m.value), sets)
    else if m.value in sets then sets[m.value] else [m.value]
  }

  /** An empty list is read as the empty id, a single id as itself, and several as the pieces between bars. */
  ghost predicate ReadFrom(xs: seq<string>, p: string) {
    if |xs| == 0 then p == ""
    else if |xs| == 1 then p == xs[0]
    else exists i :: 0 <= i < |xs| && p in Split(xs[i])
  }

  lemma RewrittenNames(m: Matcher, sets: Expansions, p: string)
    ensures p in MatcherIds(RewriteMatcher(m, sets)) <==> IsReplaced(m) && ReadFrom(Behind(m, sets), p)
  {
    if IsReplaced(m) {
      var xs := Behind(m, sets);
      if |xs| > 1 { PieceOfJoin(xs, p); }
    }
  }

  lemma BarFreeIsRead(xs: seq<string>, x: string)
    requires x in xs && '|' !in x
    ensures ReadFrom(xs, x)
  {
    SplitPiece(x);
    var i :| 0 <= i < |xs| && xs[i] == x;
    assert x in Split(xs[i]);
  }

  lemma BarredIsReadOnlyAlone(xs: seq<string>, x: string)
    requires '|' in x
    ensures ReadFrom(xs, x) <==> xs == [x]
  {
    if |xs| > 1 {
      forall i | 0 <= i < |xs| ensures x !in Split(xs[i]) {
        assert forall j :: 0 <= j < |Split(xs[i])| ==> '|' !in Split(xs[i])[j];
      }
    }
  }

  // ---------- the condition ----------

  /** An expansion of some id of the query. */
  ghost predicate IsExpansion(q: Query, sets: Expansions, x: string) {
    x in ExpandedIds(Ids(q), sets)
  }

  /** Whatever is read from the list behind a matcher is an expansion. */
  ghost predicate OnlyExpansionsAreRead(q: Query, sets: Expansions) {
    forall m, p :: m in Matchers(q) && IsReplaced(m) && ReadFrom(Behind(m, sets), p) ==> IsExpansion(q, sets, p)
  }

  ghost predicate StandsAlone(q: Query, sets: Expansions, m: Matcher, x: string) {
    m in Matchers(q) && IsReplaced(m) && Behind(m, sets) == [x]
  }

  /** Every expansion with a bar stands alone behind some matcher. */
  ghost predicate BarredStandAlone(q: Query, sets: Expansions) {
    forall x :: IsExpansion(q, sets, x) && '|' in x ==> exists m :: StandsAlone(q, sets, m, x)
  }

  lemma RewrittenIds(q: Query, sets: Expansions, p: string)
    ensures p in Ids(Rewrite(q, sets)) <==> exists m :: m in Matchers(q) && IsReplaced(m) && ReadFrom(Behind(m, sets), p)
  {
    var r := Rewrite(q, sets);
    IdsAreNamed(r, p);
    if k :| Names(r, k, p) {
      RewrittenMatchers(q, sets, k);
      var m :| m in Matchers(q) && RewriteMatcher(m, sets) == k;
      RewrittenNames(m, sets, p);
    }
    if m :| m in Matchers(q) && IsReplaced(m) && ReadFrom(Behind(m, sets), p) {
      RewrittenMatchers(q, sets, RewriteMatcher(m, sets));
      RewrittenNames(m, sets, p);
      assert Names(r, RewriteMatcher(m, sets), p);
    }
  }

  /** Every expansion is in the list behind a matcher that names an id it belongs to. */
  lemma ExpansionIsBehind(q: Query, sets: Expansions, x: string) returns (m: Matcher)
    requires IsExpansion(q, sets, x)
    ensures m in Matchers(q) && IsReplaced(m) && x in Behind(m, sets)
  {
    var id :| id in Ids(q) && x in ExpansionOf(id, sets);
    IdsAreNamed(q, id);
    m :| Names(q, m, id);
    if m.kind.Regexp? {
      var ids := Split(m.value);
      ExpandAllElements(ids, sets, x);
      var i :| 0 <= i < |ids| && ids[i] == id;
      assert x in ExpansionOf(ids[i], sets);
    }
  }

  /**
   For every query: the ids of the rewritten query are the expansions of its ids exactly if whatever is read from
   its matchers is an expansion and every expansion with a bar stands alone behind some matcher.
   */
  lemma QueryCommutesIff(q: Query, sets: Expansions)
    ensures Ids(Rewrite(q, sets)) == ExpandedIds(Ids(q), sets) <==>
      OnlyExpansionsAreRead(q, sets) && BarredStandAlone(q, sets)
  {
    hide Ids, Rewrite, Matchers, ReadFrom, Behind, ExpandedIds;
    var named, expanded := Ids(Rewrite(q, sets)), ExpandedIds(Ids(q), sets);
    forall p ensures p in named <==> exists m :: m in Matchers(q) && IsReplaced(m) && ReadFrom(Behind(m, sets), p) {
      RewrittenIds(q, sets, p);
    }
    if named == expanded {
      forall x | IsExpansion(q, sets, x) && '|' in x ensures exists m :: StandsAlone(q, sets, m, x) {
        var m :| m in Matchers(q) && IsReplaced(m) && ReadFrom(Behind(m, sets), x);
        BarredIsReadOnlyAlone(Behind(m, sets), x);
        assert StandsAlone(q, sets, m, x);
      }
    }
    if OnlyExpansionsAreRead(q, sets) && BarredStandAlone(q, sets) {
      forall x | x in expanded ensures x in named {
        ExpansionIsNamed(q, sets, x);
      }
      forall p | p in named ensures p in expanded {
        var m :| m in Matchers(q) && IsReplaced(m) && ReadFrom(Behind(m, sets), p);
        assert IsExpansion(q, sets, p);
      }
      assert named == expanded;
    }
  }

  lemma ExpansionIsNamed(q: Query, sets: Expansions, x: string)
    requires IsExpansion(q, sets, x) && BarredStandAlone(q, sets)
    ensures exists m :: m in Matchers(q) && IsReplaced(m) && ReadFrom(Behind(m, sets), x)
  {
    if '|' in x {
      var m :| StandsAlone(q, sets, m, x);
      BarredIsReadOnlyAlone(Behind(m, sets), x);
    } else {
      var m := ExpansionIsBehind(q, sets, x);
      BarFreeIsRead(Behind(m, sets), x);
    }
  }
}

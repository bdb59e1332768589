/**
 How much of a read's result depends on the shape of the tree. The store re-balances its trees behind
 the readers' backs, so a caller can rely only on what holds for every shape.
 */
module Shapes {
  import opened Envelopes
  import opened SearchTrees
  import opened Traversal
  import opened Completeness

  // ---------- sources without fudged keys ----------

  /** No two envelopes collided, so every key is the envelope's own timestamp. */
  ghost predicate Unfudged(m: map<int, Envelope>) {
    forall k :: k in m ==> m[k].timestamp == k
  }

  /** With a limit of zero or less a read still returns the first envelope that passes the name filter, if its type fits. */
  ghost function FirstNamed(s: seq<Entry<Envelope>>, q: Query): seq<Envelope> {
    if s == [] then [] else
    if InRange(s[0].value, q) && FilterByName(s[0].value, q.name).Some? then Matches([s[0]], q)
    else FirstNamed(s[1..], q)
  }

  ghost function Answer(s: seq<Entry<Envelope>>, q: Query): seq<Envelope> {
    if q.limit >= 1 then Matches(s, q)[..Min(q.limit, |Matches(s, q)|)] else FirstNamed(s, q)
  }

  ghost predicate Unguarded(s: seq<Step>) {
    forall i :: 0 <= i < |s| ==> !s[i].guarded
  }

  /** The results so far, filled up to the limit. */
  ghost function FillUp(res: seq<Envelope>, more: seq<Envelope>, limit: int): seq<Envelope>
    requires |res| <= limit
  {
    res + more[..Min(limit - |res|, |more|)]
  }

  lemma FillUpStep(res: seq<Envelope>, own: seq<Envelope>, more: seq<Envelope>, limit: int)
    requires |res| + |own| <= limit
    ensures FillUp(res, own + more, limit) == FillUp(res + own, more, limit)
  {
  }

  lemma MatchesOne(x: Entry<Envelope>, q: Query)
    ensures |Matches([x], q)| <= 1
    ensures !InRange(x.value, q) ==> Matches([x], q) == []
  {
    assert [x][1..] == [];
  }

  /** Unless the limit is reached here, the scan goes on with the entry's own match appended. */
  lemma ScanUnguardedStep(s: seq<Step>, q: Query, res: seq<Envelope>)
    requires s != [] && !s[0].guarded && |res| < q.limit
    requires Before(s[0].entry.value, q) || !After(s[0].entry.value, q)
    ensures var next := res + Matches([s[0].entry], q);
      if |next| < q.limit then Scan(s, q, res) == Scan(s[1..], q, next) else Scan(s, q, res).res == next
  {
    var x := s[0].entry;
    TouchMatches(x, q, res);
    assert res + [] == res;
    assert !Before(x.value, q) ==>
      (Collect(x.value, q, res).stopped <==> |Collect(x.value, q, res).res| >= q.limit);
  }

  lemma {:induction false} ScanTakes(s: seq<Step>, q: Query, res: seq<Envelope>)
    requires Monotone(s, q.descending) && Unguarded(s) && |res| < q.limit
    ensures Scan(s, q, res).res == FillUp(res, Matches(Entries(s), q), q.limit)
  {
    if s != [] {
      var own := Matches([s[0].entry], q);
      MatchesOne(s[0].entry, q);
      MatchesHead(s, q);
      FillUpStep(res, own, Matches(Entries(s[1..]), q), q.limit);
      if After(s[0].entry.value, q) && !Before(s[0].entry.value, q) {
        AfterLast(s, q);
        TouchMatches(s[0].entry, q, res);
      } else {
        ScanUnguardedStep(s, q, res);
        if |res + own| < q.limit { ScanTakes(s[1..], q, res + own); }
      }
    }
  }

  lemma {:induction false} ScanFirst(s: seq<Step>, q: Query, res: seq<Envelope>)
    requires Monotone(s, q.descending) && Unguarded(s) && |res| >= q.limit
    ensures Scan(s, q, res).res == res + FirstNamed(Entries(s), q)
  {
    if s != [] {
      var x := s[0];
      assert Entries(s)[0] == x.entry && Entries(s)[1..] == Entries(s[1..]);
      TouchMatches(x.entry, q, res);
      if Before(x.entry.value, q) {
        ScanFirst(s[1..], q, res);
      } else if After(x.entry.value, q) {
        AfterLastNamed(s, q);
      } else {
        var here := Touch(x.entry.value, q, res);
        assert here == Collect(x.entry.value, q, res);
        if !here.stopped { ScanFirst(s[1..], q, here.res); }
      }
    }
  }

  lemma {:induction false} AfterLastNamed(s: seq<Step>, q: Query)
    requires Monotone(s, q.descending) && s != [] && After(s[0].entry.value, q)
    ensures FirstNamed(Entries(s), q) == []
    decreases |s|
  {
    assert Entries(s)[0] == s[0].entry && Entries(s)[1..] == Entries(s[1..]);
    if |s| > 1 { AfterLastNamed(s[1..], q); }
  }

  lemma {:induction false} UnfudgedIsUnguarded(n: Tree<Envelope>, descending: bool)
    requires IsBst(n) && Unfudged(Contents(n))
    ensures Unguarded(Steps(n, descending))
  {
    if n.Node? {
      assert Contents(n)[n.key] == n.value;
      SubtreesUnfudged(Contents(n.left), n.key, n.value, Contents(n.right));
      UnfudgedIsUnguarded(n.left, descending);
      UnfudgedIsUnguarded(n.right, descending);
      var far := Far(n, descending);
      if far.Node? { assert Contents(far)[far.key] == far.value; }
      var x := Step(Entry(n.key, n.value), IsFudgeSequenceMember(n, far));
      UnguardedJoin(Steps(Near(n, descending), descending), x, Steps(far, descending));
    }
  }

  lemma UnguardedJoin(l: seq<Step>, x: Step, r: seq<Step>)
    requires Unguarded(l) && !x.guarded && Unguarded(r)
    ensures Unguarded(l + [x] + r)
  {
  }

  lemma SubtreesUnfudged(a: map<int, Envelope>, k: int, v: Envelope, b: map<int, Envelope>)
    requires Separates(a, k, b) && Unfudged(Merge(a, k, v, b))
    ensures Unfudged(a) && Unfudged(b)
  {
    var m := Merge(a, k, v, b);
    assert forall x :: x in a ==> x in m && m[x] == a[x];
    assert forall x :: x in b ==> x in m && m[x] == b[x];
  }

  /** Without collisions a read is exactly "the first `limit` entries of the filtered, sorted list", in both directions. */
  lemma UnfudgedReadIsExact(n: Tree<Envelope>, q: Query)
    requires IsBst(n) && Unfudged(Contents(n))
    ensures Read(n, q) == Answer(Timeline(n, q.descending), q)
  {
    UnfudgedIsUnguarded(n, q.descending);
    var s, cut := ReadStops(n, q);
    if q.limit >= 1 { ScanTakes(s, q, []); } else { ScanFirst(s, q, []); }
  }

  // ---------- the timeline does not depend on the shape ----------

  ghost function Reverse<T>(s: seq<T>): seq<T> {
    seq(|s|, i requires 0 <= i < |s| => s[|s| - 1 - i])
  }

  lemma ReverseConcat<T>(a: seq<T>, x: T, b: seq<T>)
    ensures Reverse(a + [x] + b) == Reverse(b) + [x] + Reverse(a)
  {
  }

  lemma {:induction false} TimelineIsInOrder(n: Tree<Envelope>, descending: bool)
    ensures Timeline(n, descending) == if descending then Reverse(InOrder(n)) else InOrder(n)
  {
    if n.Node? {
      TimelineIsInOrder(n.left, descending);
      TimelineIsInOrder(n.right, descending);
      ReverseConcat(InOrder(n.left), Entry(n.key, n.value), InOrder(n.right));
    }
  }

  /** Without collisions two trees with equal contents answer every query alike. */
  lemma UnfudgedShapeIsIrrelevant(n: Tree<Envelope>, m: Tree<Envelope>, q: Query)
    requires IsBst(n) && IsBst(m) && Contents(n) == Contents(m) && Unfudged(Contents(n))
    ensures Read(n, q) == Read(m, q)
  {
    UnfudgedReadIsExact(n, q);
    UnfudgedReadIsExact(m, q);
    SameContentsSameOrder(n, m);
    TimelineIsInOrder(n, q.descending);
    TimelineIsInOrder(m, q.descending);
  }

  // ---------- a read misses nothing exactly on order-consistent trees ----------

  function PlainQuery(start: int, end: int, limit: int): Query {
    Query(start, end, None, None, limit, false)
  }

  /** Nothing is missing except behind a limit. */
  ghost predicate Complete(n: Tree<Envelope>, q: Query) {
    var all := Matches(Timeline(n, q.descending), q);
    Read(n, q) <= all && (Read(n, q) == all || |Read(n, q)| >= q.limit)
  }

  /** Some node's timestamp makes the traversal skip a subtree that holds a match. */
  ghost predicate Hides(n: Tree<Envelope>, q: Query) {
    n.Node? && (
      || (Before(n.value, q) && Matches(Timeline(Near(n, q.descending), q.descending), q) != [])
      || Hides(n.left, q) || Hides(n.right, q))
  }

  lemma MatchesOfNode(n: Tree<Envelope>, q: Query)
    requires n.Node?
    ensures var near, far := Near(n, q.descending), Far(n, q.descending);
      Matches(Timeline(n, q.descending), q) == Matches(Timeline(near, q.descending), q)
        + Matches([Entry(n.key, n.value)], q) + Matches(Timeline(far, q.descending), q)
  {
    var l, r := Timeline(Near(n, q.descending), q.descending), Timeline(Far(n, q.descending), q.descending);
    MatchesConcat(l + [Entry(n.key, n.value)], r, q);
    MatchesConcat(l, [Entry(n.key, n.value)], q);
  }

  lemma {:induction false} HiddenIsAMatch(n: Tree<Envelope>, q: Query)
    requires Hides(n, q)
    ensures Matches(Timeline(n, q.descending), q) != []
  {
    MatchesOfNode(n, q);
    if Hides(n.left, q) { HiddenIsAMatch(n.left, q); }
    if Hides(n.right, q) { HiddenIsAMatch(n.right, q); }
  }

  lemma {:induction false} SubsequenceLength<T>(a: seq<T>, b: seq<T>)
    requires Subsequence(a, b)
    ensures |a| <= |b|
    decreases |b|
  {
    if a != [] {
      if a[0] == b[0] && Subsequence(a[1..], b[1..]) {
        SubsequenceLength(a[1..], b[1..]);
      } else {
        SubsequenceLength(a, b[1..]);
      }
    }
  }

  /** How much a traversal adds to the results. */
  ghost function Gain(n: Tree<Envelope>, q: Query, res: seq<Envelope>): int {
    |Walk(n, q, res).res| - |res|
  }

  ghost function Available(n: Tree<Envelope>, q: Query): nat {
    |Matches(Timeline(n, q.descending), q)|
  }

  lemma GainBound(n: Tree<Envelope>, q: Query, res: seq<Envelope>)
    ensures 0 <= Gain(n, q, res) <= Available(n, q)
  {
    WalkIsSound(n, q, res);
    SubsequenceLength(Walk(n, q, res).res[|res|..], Matches(Timeline(n, q.descending), q));
  }

  /** The gain of a node whose time has been reached: the near side, the node, and the far side unless it stops. */
  lemma GainOfNode(n: Tree<Envelope>, q: Query, res: seq<Envelope>) returns (r1: seq<Envelope>, r2: seq<Envelope>)
    requires n.Node? && !Before(n.value, q)
    ensures var near, far := Near(n, q.descending), Far(n, q.descending);
      && (Gain(n, q, res) == Gain(near, q, res) + Gain(far, q, r2) + |r2| - |r1|
          || (Gain(n, q, res) == Gain(near, q, res) + |r2| - |r1|))
      && |r2| - |r1| <= |Matches([Entry(n.key, n.value)], q)|
  {
    var a := Walk(Near(n, q.descending), q, res);
    TouchMatches(Entry(n.key, n.value), q, a.res);
    r1 := a.res;
    r2 := if a.stopped then a.res else Touch(n.value, q, a.res).res;
  }

  /** A hidden match is lost: the traversal adds fewer results than there are matches. */
  lemma {:induction false} HiddenIsLost(n: Tree<Envelope>, q: Query, res: seq<Envelope>)
    requires Hides(n, q)
    ensures Gain(n, q, res) < Available(n, q)
  {
    hide Matches, Subsequence;
    var near, far := Near(n, q.descending), Far(n, q.descending);
    MatchesOfNode(n, q);
    if Before(n.value, q) {
      GainBound(far, q, res);
      if Hides(near, q) { HiddenIsAMatch(near, q); }
      if Hides(far, q) { HiddenIsLost(far, q, res); }
    } else {
      var r1, r2 := GainOfNode(n, q, res);
      GainBound(near, q, res);
      GainBound(far, q, r2);
      if Hides(near, q) { HiddenIsLost(near, q, res); }
      if Hides(far, q) { HiddenIsLost(far, q, r2); HiddenIsAMatch(far, q); }
    }
  }

  lemma {:induction false} MatchesCount(s: seq<Entry<Envelope>>, i: nat, q: Query)
    requires i < |s| && Match(s[i], q).Some?
    ensures |Matches(s, q)| >= |Matches(s[i + 1..], q)| + 1
  {
    assert s == s[..i] + ([s[i]] + s[i + 1..]);
    MatchesConcat(s[..i], [s[i]] + s[i + 1..], q);
    MatchesConcat([s[i]], s[i + 1..], q);
  }

  lemma {:induction false} MatchesSuffix(s: seq<Entry<Envelope>>, i: nat, j: nat, q: Query)
    requires i <= j <= |s|
    ensures |Matches(s[j..], q)| <= |Matches(s[i..], q)|
  {
    assert s[i..] == s[i..j] + s[j..];
    MatchesConcat(s[i..j], s[j..], q);
  }

  lemma {:induction false} MatchesBound(s: seq<Entry<Envelope>>, q: Query)
    ensures |Matches(s, q)| <= |s|
  {
    if s != [] { MatchesBound(s[1..], q); }
  }

  // ---------- trees that hide nothing are order-consistent ----------

  ghost predicate NoneLater(s: seq<Entry<Envelope>>, t: int) {
    forall i :: 0 <= i < |s| ==> s[i].value.timestamp <= t
  }

  ghost predicate NoneEarlier(s: seq<Entry<Envelope>>, t: int) {
    forall i :: 0 <= i < |s| ==> t <= s[i].value.timestamp
  }

  /** No node has a later one to its left or an earlier one to its right. */
  ghost predicate Upright(n: Tree<Envelope>) {
    n.Node? ==>
      && NoneLater(InOrder(n.left), n.value.timestamp) && NoneEarlier(InOrder(n.right), n.value.timestamp)
      && Upright(n.left) && Upright(n.right)
  }

  ghost predicate TimesAscend(s: seq<Entry<Envelope>>) {
    forall i, j :: 0 <= i < j < |s| ==> s[i].value.timestamp <= s[j].value.timestamp
  }

  lemma JoinAscending(l: seq<Entry<Envelope>>, x: Entry<Envelope>, r: seq<Entry<Envelope>>)
    requires TimesAscend(l) && TimesAscend(r) && NoneLater(l, x.value.timestamp) && NoneEarlier(r, x.value.timestamp)
    ensures TimesAscend(l + [x] + r)
  {
  }

  lemma {:induction false} UprightAscends(n: Tree<Envelope>)
    requires Upright(n)
    ensures TimesAscend(InOrder(n))
  {
    if n.Node? {
      UprightAscends(n.left);
      UprightAscends(n.right);
      JoinAscending(InOrder(n.left), Entry(n.key, n.value), InOrder(n.right));
    }
  }

  lemma Locate(s: seq<Entry<Envelope>>, m: map<int, Envelope>, k: int) returns (i: nat)
    requires Lists(s, m) && k in m
    ensures i < |s| && s[i] == Entry(k, m[k])
  {
    assert Entry(k, m[k]) in s;
    i :| i < |s| && s[i] == Entry(k, m[k]);
  }

  lemma UprightIsConsistent(n: Tree<Envelope>)
    requires IsBst(n) && Upright(n)
    ensures OrderConsistent(Contents(n))
  {
    UprightAscends(n);
    InOrderLists(n);
    AscendingIsConsistent(InOrder(n), Contents(n));
  }

  lemma AscendingIsConsistent(s: seq<Entry<Envelope>>, m: map<int, Envelope>)
    requires Lists(s, m) && TimesAscend(s)
    ensures OrderConsistent(m)
  {
    forall a, b | a in m && b in m && a < b ensures m[a].timestamp <= m[b].timestamp {
      var i := Locate(s, m, a);
      var j := Locate(s, m, b);
    }
  }

  lemma MatchAt(s: seq<Entry<Envelope>>, i: nat, q: Query)
    requires i < |s| && Match(s[i], q).Some?
    ensures Matches(s, q) != []
  {
    MatchesCount(s, i, q);
  }

  /** The moment of an entry on the wrong side of a node, read in the direction that skips that side. */
  lemma HidesOnWrongSide(n: Tree<Envelope>, i: nat, limit: int, descending: bool) returns (q: Query)
    requires n.Node? && i < |InOrder(Near(n, descending))|
    requires var t := InOrder(Near(n, descending))[i].value.timestamp;
      if descending then t < n.value.timestamp else t > n.value.timestamp
    ensures Hides(n, q) && q.limit == limit
  {
    var near := Near(n, descending);
    var s, t := InOrder(near), InOrder(near)[i].value.timestamp;
    q := Query(t, t + 1, None, None, limit, descending);
    TimelineIsInOrder(near, descending);
    var j := if descending then |s| - 1 - i else i;
    assert Timeline(near, descending)[j] == s[i];
    MatchAt(Timeline(near, descending), j, q);
  }

  lemma {:induction false} HiddenMoment(n: Tree<Envelope>, limit: int) returns (q: Query)
    requires !Upright(n)
    ensures Hides(n, q) && q.limit == limit
  {
    if !NoneLater(InOrder(n.left), n.value.timestamp) {
      var i :| 0 <= i < |InOrder(n.left)| && InOrder(n.left)[i].value.timestamp > n.value.timestamp;
      q := HidesOnWrongSide(n, i, limit, false);
    } else if !NoneEarlier(InOrder(n.right), n.value.timestamp) {
      var i :| 0 <= i < |InOrder(n.right)| && InOrder(n.right)[i].value.timestamp < n.value.timestamp;
      q := HidesOnWrongSide(n, i, limit, true);
    } else if !Upright(n.left) {
      q := HiddenMoment(n.left, limit);
    } else {
      q := HiddenMoment(n.right, limit);
    }
  }

  /** A tree that is not order-consistent loses a match of some query, far below the limit. */
  lemma InconsistentLoses(n: Tree<Envelope>) returns (q: Query)
    requires IsBst(n) && !OrderConsistent(Contents(n))
    ensures |Read(n, q)| < |Matches(Timeline(n, q.descending), q)| < q.limit
  {
    if Upright(n) { UprightIsConsistent(n); }
    q := HiddenMoment(n, |InOrder(n)| + 1);
    ReadIsWalk(n, q);
    HiddenIsLost(n, q, []);
    TimelineIsInOrder(n, q.descending);
    MatchesBound(Timeline(n, q.descending), q);
  }

  /** For every tree: its reads miss nothing, whatever the query, exactly if it is order-consistent. */
  lemma CompleteIffOrderConsistent(n: Tree<Envelope>)
    requires IsBst(n)
    ensures OrderConsistent(Contents(n)) <==> forall q :: Complete(n, q)
  {
    if OrderConsistent(Contents(n)) {
      forall q ensures Complete(n, q) { ReadIsComplete(n, q); }
    } else {
      var q := InconsistentLoses(n);
      assert !Complete(n, q);
    }
  }

  // ---------- when an ascending read parts a group ----------

  /** The last envelope returned and the first one left out have the same timestamp. */
  ghost predicate PartsGroup(n: Tree<Envelope>, q: Query) {
    var all, r := Matches(Timeline(n, q.descending), q), |Read(n, q)|;
    0 < r < |all| && all[r - 1].timestamp == all[r].timestamp
  }

  /** A later entry shares the timestamp of one at which the traversal can stop. */
  ghost predicate Parts(s: seq<Step>, c: int, d: int) {
    0 <= c < d < |s| && !s[c].guarded && s[c].entry.value.timestamp == s[d].entry.value.timestamp
  }

  lemma PartedReadHasParts(n: Tree<Envelope>, q: Query) returns (c: nat, d: nat)
    requires IsBst(n) && OrderConsistent(Contents(n)) && KeysAtOrAboveTimestamps(Contents(n))
    requires PartsGroup(n, q)
    ensures !q.descending && Parts(Steps(n, false), c, d)
  {
    var e, f := PartedPair(n, q);
    var s, cut, j := OmittedBehindCut(n, q, f);
    var i := MatchOrigin(Entries(s[..cut]), q, e);
    assert Entries(s[..cut])[i] == s[i].entry;
    BeyondCut(s, Contents(n), q, i, cut, j);
    c, d := i, j;
  }

  lemma PartedPair(n: Tree<Envelope>, q: Query) returns (e: Envelope, f: Envelope)
    requires IsBst(n) && OrderConsistent(Contents(n)) && PartsGroup(n, q)
    ensures e in Read(n, q) && f in Omitted(n, q) && e.timestamp == f.timestamp
  {
    ReadIsComplete(n, q);
    var all, r := Matches(Timeline(n, q.descending), q), Read(n, q);
    e, f := r[|r| - 1], Omitted(n, q)[0];
    assert e == all[|r| - 1] && f == all[|r|];
  }

  lemma ScanStopsHere(s: seq<Step>, c: nat, q: Query)
    requires c < |s| && !s[c].guarded && q == PlainQuery(q.start, q.end, 1) && InRange(s[c].entry.value, q)
    requires forall i :: 0 <= i < c ==> Before(s[i].entry.value, q)
    ensures Scan(s, q, []).res == [s[c].entry.value]
  {
    assert s == s[..c] + s[c..];
    ScanBefore(s[..c], q, []);
    ScanConcat(s[..c], s[c..], q, []);
  }

  lemma TwoMatches(s: seq<Entry<Envelope>>, c: nat, d: nat, q: Query)
    requires c < d < |s| && Match(s[c], q).Some? && Match(s[d], q).Some?
    ensures |Matches(s, q)| >= 2
  {
    MatchesCount(s, c, q);
    MatchesCount(s, d, q);
    MatchesSuffix(s, c + 1, d, q);
    MatchesCount(s[d..], 0, q);
  }

  lemma StopsAtFirst(n: Tree<Envelope>, c: nat, q: Query)
    requires IsBst(n) && OrderConsistent(Contents(n)) && KeysAtOrAboveTimestamps(Contents(n))
    requires c < |Steps(n, false)| && !Steps(n, false)[c].guarded
    requires var t := Steps(n, false)[c].entry.value.timestamp; q == PlainQuery(t, t + 1, 1)
    ensures Read(n, q) == [Steps(n, false)[c].entry.value] && Timeline(n, false) == Entries(Steps(n, false))
  {
    hide Steps, Timeline, Read, Scan, Matches, OrderConsistent, KeysAtOrAboveTimestamps, Follows, StopsAt, GuardsFudged;
    var s, cut := ReadStops(n, q);
    UnguardedIsUnfudged(n, false);
    EarlierAreBefore(s, Contents(n), c, q);
    ScanStopsHere(s, c, q);
  }

  lemma EarlierAreBefore(s: seq<Step>, m: map<int, Envelope>, c: nat, q: Query)
    requires Follows(s, m, false) && KeysAtOrAboveTimestamps(m) && GuardsFudged(s)
    requires c < |s| && !s[c].guarded && !q.descending && q.start == s[c].entry.value.timestamp
    ensures forall i :: 0 <= i < c ==> Before(s[i].entry.value, q)
  {
    forall i | 0 <= i < c ensures Before(s[i].entry.value, q) {
      assert s[i].entry.key < s[c].entry.key && m[s[i].entry.key] == s[i].entry.value;
    }
  }

  lemma PartsAreParted(n: Tree<Envelope>, c: nat, d: nat) returns (q: Query)
    requires IsBst(n) && OrderConsistent(Contents(n)) && KeysAtOrAboveTimestamps(Contents(n))
    requires Parts(Steps(n, false), c, d)
    ensures PartsGroup(n, q)
  {
    hide Steps, Timeline, Read, OrderConsistent, KeysAtOrAboveTimestamps, Matches;
    var s := Steps(n, false);
    var t := s[c].entry.value.timestamp;
    q := PlainQuery(t, t + 1, 1);
    StopsAtFirst(n, c, q);
    TwoMatches(Entries(s), c, d, q);
    MatchesAdmitted(Entries(s), q);
    var all := Matches(Entries(s), q);
    assert all[0] in all && all[1] in all;
  }

  /**
   For every order-consistent tree: some read parts a group of equal timestamps exactly if the ascending
   traversal can stop at an entry that a later one shares its timestamp with.
   */
  lemma PartsGroupIff(n: Tree<Envelope>)
    requires IsBst(n) && OrderConsistent(Contents(n)) && KeysAtOrAboveTimestamps(Contents(n))
    ensures (exists q :: PartsGroup(n, q)) <==> exists c, d :: Parts(Steps(n, false), c, d)
  {
    hide PartsGroup, Steps;
    if q :| PartsGroup(n, q) {
      var c, d := PartedReadHasParts(n, q);
      assert Parts(Steps(n, false), c, d);
    }
    if c, d :| Parts(Steps(n, false), c, d) {
      var q := PartsAreParted(n, c, d);
      assert PartsGroup(n, q);
    }
  }

  /** Some envelope that kept its own timestamp as key has a fudged companion. */
  ghost predicate HasOpenGroup(m: map<int, Envelope>) {
    exists k, l :: k in m && l in m && k != l && m[k].timestamp == k && m[l].timestamp == k
  }

  /** Whatever the shape, only a group with an unfudged and a fudged member can be parted. */
  lemma PartedGroupIsOpen(n: Tree<Envelope>, q: Query)
    requires IsBst(n) && OrderConsistent(Contents(n)) && KeysAtOrAboveTimestamps(Contents(n))
    requires PartsGroup(n, q)
    ensures HasOpenGroup(Contents(n))
  {
    var c, d := PartedReadHasParts(n, q);
    UnguardedIsUnfudged(n, false);
    StepsFollow(n, false);
    var s := Steps(n, false);
    OpenPairFound(Contents(n), s[c].entry.key, s[d].entry.key);
  }

  lemma OpenPairFound(m: map<int, Envelope>, k: int, l: int)
    requires k in m && l in m && k != l && m[k].timestamp == k == m[l].timestamp
    ensures HasOpenGroup(m)
  {
  }

  // ---------- reads in terms of what is held ----------

  /** The envelope is what the name filter leaves of one that is held, in the range and of a wanted type. */
  ghost predicate Selected(m: map<int, Envelope>, q: Query, f: Envelope) {
    q.start <= f.timestamp < q.end && Wanted(f, q.types) && exists k :: k in m && FilterByName(m[k], q.name) == Some(f)
  }

  /** Without a name filter what is selected is held. */
  lemma HeldAreSelected(m: map<int, Envelope>, q: Query)
    requires q.name.None?
    ensures forall k :: k in m && q.start <= m[k].timestamp < q.end && Wanted(m[k], q.types) ==> Selected(m, q, m[k])
  {
    forall k | k in m && q.start <= m[k].timestamp < q.end && Wanted(m[k], q.types) ensures Selected(m, q, m[k]) {
      NoNameFilter(m[k]);
    }
  }

  lemma MatchIsSelected(n: Tree<Envelope>, q: Query, f: Envelope)
    requires IsBst(n) && f in Matches(Timeline(n, q.descending), q)
    ensures Selected(Contents(n), q, f)
  {
    hide IsBst, Timeline, Contents, Match, Matches;
    var s := Timeline(n, q.descending);
    MatchesMember(s, q, f);
    var i :| 0 <= i < |s| && Match(s[i], q) == Some(f);
    TimelineLists(n, q.descending);
    MatchIff(s[i], q, f);
    assert FilterByName(Contents(n)[s[i].key], q.name) == Some(f);
  }

  lemma SelectedIsMatch(n: Tree<Envelope>, q: Query, f: Envelope)
    requires IsBst(n) && Selected(Contents(n), q, f)
    ensures f in Matches(Timeline(n, q.descending), q)
  {
    hide IsBst, Timeline, Contents, Match, Matches;
    var k :| k in Contents(n) && FilterByName(Contents(n)[k], q.name) == Some(f);
    var s, x := Timeline(n, q.descending), Entry(k, Contents(n)[k]);
    MatchesMember(s, q, f);
    TimelineLists(n, q.descending);
    MatchIff(x, q, f);
    var i :| 0 <= i < |s| && s[i] == x;
  }

  lemma TimelineLists(n: Tree<Envelope>, descending: bool)
    requires IsBst(n)
    ensures forall x :: x in Timeline(n, descending) ==> x.key in Contents(n) && Contents(n)[x.key] == x.value
    ensures forall k :: k in Contents(n) ==> Entry(k, Contents(n)[k]) in Timeline(n, descending)
  {
    hide IsBst, Timeline, InOrder, Contents;
    TimelineIsInOrder(n, descending);
    InOrderLists(n);
    ReverseHasSame(InOrder(n));
  }

  lemma ReverseHasSame<T>(s: seq<T>)
    ensures forall x :: x in Reverse(s) <==> x in s
  {
    forall i | 0 <= i < |s| ensures s[i] in Reverse(s) {
      assert Reverse(s)[|s| - 1 - i] == s[i];
    }
  }

  /** Every result is selected, and on an order-consistent tree everything selected is returned unless the limit is reached. */
  lemma ReadIsSelection(n: Tree<Envelope>, q: Query)
    requires IsBst(n)
    ensures forall f :: f in Read(n, q) ==> Selected(Contents(n), q, f)
    ensures OrderConsistent(Contents(n)) && |Read(n, q)| < q.limit ==>
      forall f :: Selected(Contents(n), q, f) ==> f in Read(n, q)
  {
    hide Read, Matches, Timeline, IsBst, Contents, OrderConsistent, Subsequence, Admitted, Selected;
    ReadIsSound(n, q);
    SubsequenceElements(Read(n, q), Matches(Timeline(n, q.descending), q));
    forall f | f in Read(n, q) ensures Selected(Contents(n), q, f) {
      MatchIsSelected(n, q, f);
    }
    if OrderConsistent(Contents(n)) {
      ReadIsComplete(n, q);
      forall f | Selected(Contents(n), q, f) ensures f in Matches(Timeline(n, q.descending), q) {
        SelectedIsMatch(n, q, f);
      }
    }
  }
}

/**
 When a read misses nothing. A source is *order-consistent* when timestamps do not decrease in key
 order. On such a source the pruned recursion refines a linear scan of the sorted entries, for every
 shape of the tree; without it some query loses an envelope.
 */
module Completeness {
  import opened Envelopes
  import opened SearchTrees
  import opened Traversal

  // ---------- the linear scan ----------

  /** One entry of the sorted list, with the verdict of the fudge test on its node. */
  datatype Step = Step(entry: Entry<Envelope>, guarded: bool)

  ghost function Steps(n: Tree<Envelope>, descending: bool): seq<Step> {
    if n.Nil? then [] else
    var far := Far(n, descending);
    Steps(Near(n, descending), descending)
    + [Step(Entry(n.key, n.value), IsFudgeSequenceMember(n, far))]
    + Steps(far, descending)
  }

  ghost function Entries(s: seq<Step>): seq<Entry<Envelope>> {
    seq(|s|, i requires 0 <= i < |s| => s[i].entry)
  }

  /** Collect from the front; stop at the first unguarded entry that is past the range or reaches the limit. */
  ghost function Scan(s: seq<Step>, q: Query, res: seq<Envelope>): Outcome {
    if s == [] then Outcome(false, res) else
    var x := s[0];
    if Before(x.entry.value, q) then Scan(s[1..], q, res) else
    var here := Touch(x.entry.value, q, res);
    if here.stopped && !x.guarded then here else Scan(s[1..], q, here.res)
  }

  /** Timestamps follow the direction of travel. */
  ghost predicate Monotone(s: seq<Step>, descending: bool) {
    forall i, j :: 0 <= i < j < |s| ==>
      if descending then s[j].entry.value.timestamp <= s[i].entry.value.timestamp
      else s[i].entry.value.timestamp <= s[j].entry.value.timestamp
  }

  lemma {:induction false} ScanConcat(a: seq<Step>, b: seq<Step>, q: Query, res: seq<Envelope>)
    ensures Scan(a + b, q, res) == var o := Scan(a, q, res); if o.stopped then o else Scan(b, q, o.res)
  {
    if a == [] {
      assert a + b == b;
    } else {
      assert (a + b)[0] == a[0] && (a + b)[1..] == a[1..] + b;
      var x := a[0];
      if Before(x.entry.value, q) {
        ScanConcat(a[1..], b, q, res);
      } else {
        ScanConcat(a[1..], b, q, Touch(x.entry.value, q, res).res);
      }
    }
  }

  lemma {:induction false} ScanBefore(s: seq<Step>, q: Query, res: seq<Envelope>)
    requires forall i :: 0 <= i < |s| ==> Before(s[i].entry.value, q)
    ensures Scan(s, q, res) == Outcome(false, res)
  {
    if s != [] { ScanBefore(s[1..], q, res); }
  }

  lemma ScanThree(l: seq<Step>, x: Step, r: seq<Step>, q: Query, res: seq<Envelope>)
    ensures Scan(l + [x] + r, q, res) ==
      var a := Scan(l, q, res);
      if a.stopped then a
      else if Before(x.entry.value, q) then Scan(r, q, a.res)
      else
        var here := Touch(x.entry.value, q, a.res);
        if here.stopped && !x.guarded then here else Scan(r, q, here.res)
  {
    ScanConcat(l + [x], r, q, res);
    ScanConcat(l, [x], q, res);
    assert [x][1..] == [];
  }

  lemma MonotoneParts(l: seq<Step>, x: Step, r: seq<Step>, q: Query)
    requires Monotone(l + [x] + r, q.descending)
    ensures Monotone(l, q.descending) && Monotone(r, q.descending)
    ensures Before(x.entry.value, q) ==> forall i :: 0 <= i < |l| ==> Before(l[i].entry.value, q)
  {
    var s := l + [x] + r;
    assert s[..|l|] == l && s[|l|] == x && s[|l| + 1..] == r;
  }

  /** On every order-consistent tree, of any shape, the pruned recursion is the linear scan. */
  lemma {:induction false} WalkIsScan(n: Tree<Envelope>, q: Query, res: seq<Envelope>)
    requires Monotone(Steps(n, q.descending), q.descending)
    ensures Walk(n, q, res) == Scan(Steps(n, q.descending), q, res)
  {
    if n.Node? {
      var near, far := Near(n, q.descending), Far(n, q.descending);
      var l, r := Steps(near, q.descending), Steps(far, q.descending);
      var x := Step(Entry(n.key, n.value), IsFudgeSequenceMember(n, far));
      MonotoneParts(l, x, r, q);
      ScanThree(l, x, r, q, res);
      if Before(n.value, q) {
        ScanBefore(l, q, res);
        WalkIsScan(far, q, res);
      } else {
        WalkIsScan(near, q, res);
        WalkIsScan(far, q, Touch(n.value, q, Walk(near, q, res).res).res);
      }
    }
  }

  // ---------- what the scan returns ----------

  lemma MatchesHead(s: seq<Step>, q: Query)
    requires s != []
    ensures Entries(s[..1]) == [s[0].entry] && Matches(Entries(s[..1]), q) == Matches([s[0].entry], q)
    ensures Matches(Entries(s), q) == Matches([s[0].entry], q) + Matches(Entries(s[1..]), q)
  {
    assert Entries(s) == [s[0].entry] + Entries(s[1..]);
    MatchesConcat([s[0].entry], Entries(s[1..]), q);
  }

  lemma TouchMatches(x: Entry<Envelope>, q: Query, res: seq<Envelope>)
    ensures Before(x.value, q) ==> Matches([x], q) == []
    ensures !Before(x.value, q) ==> Touch(x.value, q, res).res == res + Matches([x], q)
    ensures !Before(x.value, q) && Touch(x.value, q, res).stopped ==>
              After(x.value, q) || |Touch(x.value, q, res).res| >= q.limit
  {
    assert Matches([x], q) == if Match(x, q).Some? then [Match(x, q).value] else [];
  }

  lemma AfterLast(s: seq<Step>, q: Query)
    requires Monotone(s, q.descending) && s != [] && After(s[0].entry.value, q)
    ensures Matches(Entries(s[1..]), q) == []
  {
    var t := Entries(s[1..]);
    assert forall i :: 0 <= i < |t| ==> t[i] == s[i + 1].entry;
    NoMatches(t, q);
  }

  /** Having collected `out`, the scan has looked at exactly the first `cut` entries. */
  ghost predicate StopsAt(s: seq<Step>, q: Query, res: seq<Envelope>, out: seq<Envelope>, cut: nat) {
    && cut <= |s|
    && out == res + Matches(Entries(s[..cut]), q)
    && (Matches(Entries(s[cut..]), q) == [] || (0 < cut && !s[cut - 1].guarded && |out| >= q.limit))
  }

  lemma CutHead(s: seq<Step>, c: nat, q: Query)
    requires c < |s|
    ensures Matches(Entries(s[..c + 1]), q) == Matches([s[0].entry], q) + Matches(Entries(s[1..][..c]), q)
    ensures s[1..][c..] == s[c + 1..]
  {
    assert s[..c + 1][1..] == s[1..][..c] && s[..c + 1][0] == s[0];
    MatchesHead(s[..c + 1], q);
  }

  lemma StopsLater(s: seq<Step>, q: Query, res: seq<Envelope>, next: seq<Envelope>, out: seq<Envelope>, c: nat)
    requires s != [] && next == res + Matches([s[0].entry], q)
    requires StopsAt(s[1..], q, next, out, c)
    ensures StopsAt(s, q, res, out, c + 1)
  {
    CutHead(s, c, q);
    var h, m := Matches([s[0].entry], q), Matches(Entries(s[1..][..c]), q);
    assert (res + h) + m == res + (h + m);
  }

  /** The scan collects every match up to the place it stops, and it stops early only when the limit is reached. */
  lemma {:induction false} ScanStops(s: seq<Step>, q: Query, res: seq<Envelope>) returns (cut: nat)
    requires Monotone(s, q.descending)
    ensures StopsAt(s, q, res, Scan(s, q, res).res, cut)
  {
    if s == [] {
      return 0;
    }
    var x := s[0];
    TouchMatches(x.entry, q, res);
    MatchesHead(s, q);
    var here := Touch(x.entry.value, q, res);
    if Before(x.entry.value, q) {
      var c := ScanStops(s[1..], q, res);
      StopsLater(s, q, res, res, Scan(s, q, res).res, c);
      cut := c + 1;
    } else if here.stopped && !x.guarded {
      cut := 1;
      if After(x.entry.value, q) { AfterLast(s, q); }
    } else {
      var c := ScanStops(s[1..], q, here.res);
      StopsLater(s, q, res, here.res, Scan(s, q, res).res, c);
      cut := c + 1;
    }
  }

  // ---------- from search trees to ordered steps ----------

  /** Timestamps do not decrease in key order. */
  ghost predicate OrderConsistent(m: map<int, Envelope>) {
    forall a, b :: a in m && b in m && a < b ==> m[a].timestamp <= m[b].timestamp
  }

  /** A key is never below the timestamp it was derived from. */
  ghost predicate KeysAtOrAboveTimestamps(m: map<int, Envelope>) {
    forall k :: k in m ==> m[k].timestamp <= k
  }

  /** The steps list bindings of `m` with keys in the direction of travel. */
  ghost predicate Follows(s: seq<Step>, m: map<int, Envelope>, descending: bool) {
    && (forall i :: 0 <= i < |s| ==> s[i].entry.key in m && m[s[i].entry.key] == s[i].entry.value)
    && (forall i, j :: 0 <= i < j < |s| ==>
          if descending then s[j].entry.key < s[i].entry.key else s[i].entry.key < s[j].entry.key)
  }

  lemma MergeFollows(l: seq<Step>, x: Step, r: seq<Step>,
                     a: map<int, Envelope>, b: map<int, Envelope>, descending: bool)
    requires Separates(a, x.entry.key, b)
    requires Follows(l, if descending then b else a, descending)
    requires Follows(r, if descending then a else b, descending)
    ensures Follows(l + [x] + r, Merge(a, x.entry.key, x.entry.value, b), descending)
  {
    var s := l + [x] + r;
    assert forall i :: 0 <= i < |l| ==> s[i] == l[i];
    assert s[|l|] == x;
    assert forall i :: |l| < i < |s| ==> s[i] == r[i - |l| - 1];
  }

  lemma {:induction false} StepsFollow(n: Tree<Envelope>, descending: bool)
    requires IsBst(n)
    ensures Follows(Steps(n, descending), Contents(n), descending)
    ensures Entries(Steps(n, descending)) == Timeline(n, descending)
  {
    if n.Node? {
      StepsFollow(n.left, descending);
      StepsFollow(n.right, descending);
      var near, far := Near(n, descending), Far(n, descending);
      var x := Step(Entry(n.key, n.value), IsFudgeSequenceMember(n, far));
      MergeFollows(Steps(near, descending), x, Steps(far, descending), Contents(n.left), Contents(n.right), descending);
      EntriesConcat(Steps(near, descending) + [x], Steps(far, descending));
      EntriesConcat(Steps(near, descending), [x]);
    }
  }

  lemma EntriesConcat(a: seq<Step>, b: seq<Step>)
    ensures Entries(a + b) == Entries(a) + Entries(b)
  {
  }

  lemma FollowsMonotone(s: seq<Step>, m: map<int, Envelope>, descending: bool)
    requires Follows(s, m, descending) && OrderConsistent(m)
    ensures Monotone(s, descending)
  {
  }

  /** The read examined `steps[..cut]` and returned all their matches; what it left out is accounted for. */
  lemma ReadStops(n: Tree<Envelope>, q: Query) returns (s: seq<Step>, cut: nat)
    requires IsBst(n) && OrderConsistent(Contents(n))
    ensures s == Steps(n, q.descending) && Follows(s, Contents(n), q.descending) && Monotone(s, q.descending)
    ensures Entries(s) == Timeline(n, q.descending) && StopsAt(s, q, [], Read(n, q), cut)
    ensures Read(n, q) == Scan(s, q, []).res == Matches(Entries(s[..cut]), q)
    ensures Matches(Timeline(n, q.descending), q) == Read(n, q) + Matches(Entries(s[cut..]), q)
  {
    s := Steps(n, q.descending);
    StepsFollow(n, q.descending);
    FollowsMonotone(s, Contents(n), q.descending);
    ReadIsWalk(n, q);
    WalkIsScan(n, q, []);
    cut := ScanStops(s, q, []);
    assert s == s[..cut] + s[cut..];
    EntriesConcat(s[..cut], s[cut..]);
    MatchesConcat(Entries(s[..cut]), Entries(s[cut..]), q);
  }

  /**
   Main result on reads. On an order-consistent source, whatever the shape of the tree and in both
   directions, the result is a prefix of the filtered, sorted list, and it is cut only after `limit` matches.
   */
  lemma ReadIsComplete(n: Tree<Envelope>, q: Query)
    requires IsBst(n) && OrderConsistent(Contents(n))
    ensures var all := Matches(Timeline(n, q.descending), q);
      Read(n, q) <= all && (Read(n, q) == all || |Read(n, q)| >= q.limit)
  {
    var s, cut := ReadStops(n, q);
  }

  // ---------- groups of equal timestamps ----------

  ghost predicate GuardsFudged(s: seq<Step>) {
    forall i :: 0 <= i < |s| ==> s[i].guarded || s[i].entry.key == s[i].entry.value.timestamp
  }

  /**
   On any tree, a traversal that stops was stopped at a node whose key is its own timestamp, with the
   results that node left it with.
   */
  lemma {:induction false} StopsOnlyUnfudged(n: Tree<Envelope>, q: Query, res: seq<Envelope>)
    returns (x: Entry<Envelope>, before: seq<Envelope>)
    requires Walk(n, q, res).stopped
    ensures x in Timeline(n, q.descending) && x.key == x.value.timestamp
    ensures !Before(x.value, q) && Touch(x.value, q, before) == Walk(n, q, res)
  {
    var near, far := Near(n, q.descending), Far(n, q.descending);
    if Before(n.value, q) {
      x, before := StopsOnlyUnfudged(far, q, res);
      return;
    }
    var a := Walk(near, q, res);
    if a.stopped {
      x, before := StopsOnlyUnfudged(near, q, res);
      return;
    }
    var here := Touch(n.value, q, a.res);
    if here.stopped && !IsFudgeSequenceMember(n, far) {
      x, before := Entry(n.key, n.value), a.res;
    } else {
      x, before := StopsOnlyUnfudged(far, q, here.res);
    }
  }

  /** An entry at which the scan can stop has its own timestamp as key. */
  lemma {:induction false} UnguardedIsUnfudged(n: Tree<Envelope>, descending: bool)
    ensures GuardsFudged(Steps(n, descending))
  {
    if n.Node? {
      UnguardedIsUnfudged(n.left, descending);
      UnguardedIsUnfudged(n.right, descending);
      var l, r := Steps(Near(n, descending), descending), Steps(Far(n, descending), descending);
      var x := Step(Entry(n.key, n.value), IsFudgeSequenceMember(n, Far(n, descending)));
      assert GuardsFudged(l + [x] + r);
    }
  }

  lemma {:induction false} MatchOrigin(s: seq<Entry<Envelope>>, q: Query, e: Envelope) returns (i: nat)
    requires e in Matches(s, q)
    ensures i < |s| && Match(s[i], q) == Some(e) && s[i].value.timestamp == e.timestamp
  {
    FilterIsIdempotent(s[0].value, q.name);
    if Match(s[0], q) == Some(e) {
      i := 0;
    } else {
      var j := MatchOrigin(s[1..], q, e);
      i := j + 1;
    }
  }

  /** What a read left out. */
  ghost function Omitted(n: Tree<Envelope>, q: Query): seq<Envelope>
    requires IsBst(n) && OrderConsistent(Contents(n))
  {
    ReadIsComplete(n, q);
    Matches(Timeline(n, q.descending), q)[|Read(n, q)|..]
  }

  lemma OriginBehind(s: seq<Step>, cut: nat, q: Query, f: Envelope) returns (j: nat)
    requires cut <= |s| && f in Matches(Entries(s[cut..]), q)
    ensures cut <= j < |s| && Match(s[j].entry, q) == Some(f) && s[j].entry.value.timestamp == f.timestamp
  {
    var i := MatchOrigin(Entries(s[cut..]), q, f);
    j := cut + i;
  }

  lemma OmittedBehindCut(n: Tree<Envelope>, q: Query, f: Envelope) returns (s: seq<Step>, cut: nat, j: nat)
    requires IsBst(n) && OrderConsistent(Contents(n)) && f in Omitted(n, q)
    ensures s == Steps(n, q.descending) && Follows(s, Contents(n), q.descending) && Monotone(s, q.descending)
    ensures 0 < cut <= j < |s| && Read(n, q) == Matches(Entries(s[..cut]), q)
    ensures !s[cut - 1].guarded && s[cut - 1].entry.key == s[cut - 1].entry.value.timestamp
    ensures Match(s[j].entry, q) == Some(f) && s[j].entry.value.timestamp == f.timestamp
  {
    s, cut := ReadStops(n, q);
    UnguardedIsUnfudged(n, q.descending);
    assert Omitted(n, q) == Matches(Entries(s[cut..]), q);
    j := OriginBehind(s, cut, q, f);
  }

  /** A descending read returns all of the matches with a given timestamp or none of them. */
  lemma DescendingKeepsGroups(n: Tree<Envelope>, q: Query)
    requires IsBst(n) && OrderConsistent(Contents(n)) && KeysAtOrAboveTimestamps(Contents(n))
    requires q.descending
    ensures forall e, f :: e in Read(n, q) && f in Omitted(n, q) ==> e.timestamp != f.timestamp
  {
    forall e, f | e in Read(n, q) && f in Omitted(n, q) ensures e.timestamp != f.timestamp {
      DescendingPair(n, q, e, f);
    }
  }

  lemma DescendingPair(n: Tree<Envelope>, q: Query, e: Envelope, f: Envelope)
    requires IsBst(n) && OrderConsistent(Contents(n)) && KeysAtOrAboveTimestamps(Contents(n))
    requires q.descending && e in Read(n, q) && f in Omitted(n, q)
    ensures e.timestamp != f.timestamp
  {
    var s, cut, j := OmittedBehindCut(n, q, f);
    var i := MatchOrigin(Entries(s[..cut]), q, e);
    if e.timestamp == f.timestamp {
      BeyondCut(s, Contents(n), q, i, cut, j);
    }
  }

  /** A timestamp on both sides of a cut at an unfudged entry belongs to that entry, which is then the first of its group. */
  lemma BeyondCut(s: seq<Step>, m: map<int, Envelope>, q: Query, i: nat, cut: nat, j: nat)
    requires Follows(s, m, q.descending) && Monotone(s, q.descending) && KeysAtOrAboveTimestamps(m)
    requires i < cut <= j < |s| && s[cut - 1].entry.key == s[cut - 1].entry.value.timestamp
    requires s[i].entry.value.timestamp == s[j].entry.value.timestamp
    ensures !q.descending && i == cut - 1
  {
    var k := s[cut - 1].entry;
    assert s[i].entry.value.timestamp == k.value.timestamp;
    assert m[s[i].entry.key] == s[i].entry.value && m[s[j].entry.key] == s[j].entry.value;
  }

  /** An ascending read can part only one group, and it has then returned exactly the first envelope of that group. */
  lemma AscendingCutsAfterFirst(n: Tree<Envelope>, q: Query)
    requires IsBst(n) && OrderConsistent(Contents(n)) && KeysAtOrAboveTimestamps(Contents(n))
    requires !q.descending && Read(n, q) != []
    ensures var r := Read(n, q);
      forall e, f :: e in r[..|r| - 1] && f in Omitted(n, q) ==> e.timestamp != f.timestamp
  {
    var r := Read(n, q);
    forall e, f | e in r[..|r| - 1] && f in Omitted(n, q) ensures e.timestamp != f.timestamp {
      AscendingPair(n, q, e, f);
    }
  }

  lemma AscendingPair(n: Tree<Envelope>, q: Query, e: Envelope, f: Envelope)
    requires IsBst(n) && OrderConsistent(Contents(n)) && KeysAtOrAboveTimestamps(Contents(n))
    requires Read(n, q) != [] && e in Read(n, q)[..|Read(n, q)| - 1] && f in Omitted(n, q)
    ensures e.timestamp != f.timestamp
  {
    var s, cut, j := OmittedBehindCut(n, q, f);
    LastOfCut(s, cut, q);
    var i := MatchOrigin(Entries(s[..cut - 1]), q, e);
    if e.timestamp == f.timestamp {
      BeyondCut(s, Contents(n), q, i, cut, j);
    }
  }

  lemma LastOfCut(s: seq<Step>, cut: nat, q: Query)
    requires 0 < cut <= |s|
    ensures var r := Matches(Entries(s[..cut]), q);
      && r == Matches(Entries(s[..cut - 1]), q) + Matches([s[cut - 1].entry], q)
      && (r == [] || r[..|r| - 1] <= Matches(Entries(s[..cut - 1]), q))
  {
    assert Entries(s[..cut]) == Entries(s[..cut - 1]) + [s[cut - 1].entry];
    MatchesConcat(Entries(s[..cut - 1]), [s[cut - 1].entry], q);
    assert Matches([s[cut - 1].entry], q) ==
      if Match(s[cut - 1].entry, q).Some? then [Match(s[cut - 1].entry, q).value] else [];
  }
}

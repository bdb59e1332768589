/**
 Which tags share a series with others. Every tag map a series is built from has a source id, so the
 question is only about such maps.
 */
module SourcedTags {
  import opened SeriesIds

  // ---------- taking an id apart at one name ----------

  const SOURCE := "source_id"

  predicate Less(a: string, b: string) {
    Leq(a, b) && a != b
  }

  ghost function Below(m: Tags, s: string): Tags {
    map k | k in m && Less(k, s) :: m[k]
  }

  ghost function Above(m: Tags, s: string): Tags {
    map k | k in m && Less(s, k) :: m[k]
  }

  lemma BelowStep(m: Tags, k: string, s: string)
    requires IsFirst(k, m) && Less(k, s) && s in m
    ensures Below(m, s) - {k} == Below(m - {k}, s) && Above(m - {k}, s) == Above(m, s)
    ensures IsFirst(k, Below(m, s)) && Below(m, s)[k] == m[k]
  {
    LeqTotal(k, s);
  }

  lemma BelowNone(m: Tags, s: string)
    requires IsFirst(s, m)
    ensures Below(m, s) == map[] && Above(m, s) == m - {s}
  {
    forall k | k in m ensures !Less(k, s) && (k != s ==> Less(s, k)) {
      LeqTotal(k, s);
    }
  }

  /** The id is that of the smaller names, the name with its value, and that of the larger names. */
  lemma {:induction false} IdAround(m: Tags, s: string)
    requires s in m
    ensures SeriesId(m) == SeriesId(Below(m, s)) + (Field(s) + Field(m[s]) + SeriesId(Above(m, s)))
    decreases |m|
  {
    hide SeriesId, Field, Below, Above;
    var k := First(m);
    SeriesIdStep(m, k);
    if k == s {
      BelowNone(m, s);
      EmptyId(Below(m, s));
      assert "" + (Field(s) + Field(m[s]) + SeriesId(m - {s})) == Field(s) + Field(m[s]) + SeriesId(m - {s});
    } else {
      Shrinks(m, k);
      IdAround(m - {k}, s);
      BelowStep(m, k, s);
      SeriesIdStep(Below(m, s), k);
      var x, y := Field(k) + Field(m[k]), SeriesId(Below(m - {k}, s));
      var z := Field(s) + Field(m[s]) + SeriesId(Above(m, s));
      assert x + (y + z) == (x + y) + z;
    }
  }

  lemma NothingAround(m: Tags, s: string)
    requires s in m && Below(m, s) == map[] && Above(m, s) == map[]
    ensures m == map[s := m[s]]
  {
    PartsOf(m, s);
  }

  lemma SameAround(m: Tags, n: Tags, s: string)
    requires s in m && s in n && m[s] == n[s] && Below(m, s) == Below(n, s) && Above(m, s) == Above(n, s)
    ensures m == n
  {
    PartsOf(m, s);
    PartsOf(n, s);
  }

  lemma PartsOf(m: Tags, s: string)
    requires s in m
    ensures m == (Below(m, s) + Above(m, s))[s := m[s]]
  {
    forall k | k in m ensures k == s || Less(k, s) || Less(s, k) { LeqTotal(k, s); }
  }

  // ---------- what an id can start with ----------

  lemma {:induction false} FirstDashSplits(s: string) returns (x: string, y: string)
    requires !DashFree(s)
    ensures s == x + Field(y) && DashFree(x)
  {
    if s[0] == '-' {
      x, y := "", s[1..];
    } else {
      assert s == [s[0]] + s[1..];
      var x' , y' := FirstDashSplits(s[1..]);
      x, y := [s[0]] + x', y';
      assert s == [s[0]] + (x' + Field(y'));
    }
  }

  /** A string that starts with the field `x` starts with `x` and perhaps more fields. */
  lemma StartsWithField(x: string, rest: string, k: string, rest': string) returns (y: string)
    requires x + rest == k + rest' && DashFree(x) && StartsField(rest) && StartsField(rest')
    ensures k == x || k == x + Field(y)
  {
    y := "";
    if DashFree(k) {
      CutField(x, rest, k, rest');
    } else {
      var a, b := FirstDashSplits(k);
      assert k + rest' == a + (Field(b) + rest');
      CutField(x, rest, a, Field(b) + rest');
      y := b;
    }
  }

  lemma {:induction false} PrefixLeq(x: string, y: string)
    ensures Leq(x, x + y)
  {
    if x != "" {
      assert (x + y)[1..] == x[1..] + y;
      PrefixLeq(x[1..], y);
    }
  }

  lemma SourceHasNoDash()
    ensures DashFree(SOURCE)
  {
  }

  /** A name that starts with the field `source_id` is not below it. */
  lemma NotBelowSource(k: string, y: string)
    requires k == SOURCE || k == SOURCE + Field(y)
    ensures !Less(k, SOURCE)
  {
    PrefixLeq(SOURCE, Field(y));
    LeqTotal(k, SOURCE);
  }

  /** An id starts with the first name. */
  lemma IdStartsWithFirst(m: Tags) returns (k: string, rest: string)
    requires m != map[]
    ensures k in m && SeriesId(m) == Field(k) + rest && StartsField(rest)
  {
    k := First(m);
    rest := Field(m[k]) + SeriesId(m - {k});
    assert Field(k) + Field(m[k]) + SeriesId(m - {k}) == Field(k) + rest;
  }

  /** No name below `source_id` starts the id of tags whose id starts with `source_id`. */
  lemma NothingBelowSource(lower: Tags, tail: string, s: string)
    requires forall k :: k in lower ==> Less(k, SOURCE)
    requires SeriesId(lower) + tail == Field(SOURCE) + s && StartsField(s) && StartsField(tail)
    ensures lower == map[]
  {
    hide SeriesId, Leq, Less;
    if lower != map[] {
      var k, rest := IdStartsWithFirst(lower);
      assert Field(k) + rest + tail == Field(k) + (rest + tail);
      DropDash(k, rest + tail);
      DropDash(SOURCE, s);
      SourceHasNoDash();
      var y := StartsWithField(SOURCE, s, k, rest + tail);
      NotBelowSource(k, y);
    }
  }

  // ---------- tags with a source id ----------

  /** The tags of every series have a source id; these tags share their series with no others. */
  ghost predicate OwnSeries(m: Tags) {
    forall n: Tags :: SOURCE in n && SeriesId(n) == SeriesId(m) ==> n == m
  }

  ghost predicate Later(s: string, x: string, y: string, z: string) {
    s == x + Field(y) + Field(z) && Less(SOURCE, y)
  }

  /** The source id can be read as a shorter one followed by another tag with a larger name. */
  ghost predicate ReadsAsLaterTag(s: string) {
    exists x, y, z :: Later(s, x, y, z)
  }

  ghost predicate Inner(s: string, p: string, t: string) {
    Field(s) == p + Field(SOURCE) + Field(t)
  }

  /** The source id can be read as the end of the tag before it and a source id of its own. */
  ghost predicate ReadsAsInnerSource(s: string) {
    exists p, t :: Inner(s, p, t)
  }

  /** What follows the source id's name is its value, or a shorter value and larger names. */
  lemma TailOfSource(n: Tags, s: string)
    requires SOURCE in n && Field(n[SOURCE]) + SeriesId(Above(n, SOURCE)) == Field(s)
    ensures if Above(n, SOURCE) == map[] then n[SOURCE] == s else ReadsAsLaterTag(s)
  {
    var upper, w := Above(n, SOURCE), n[SOURCE];
    DropDash(w, SeriesId(upper));
    assert Field(s)[1..] == s;
    assert s == w + SeriesId(upper);
    if upper != map[] {
      var y := First(upper);
      var z := upper[y] + SeriesId(upper - {y});
      assert Field(upper[y]) + SeriesId(upper - {y}) == Field(z);
      assert w + SeriesId(upper) == w + Field(y) + Field(z);
      assert Later(s, w, y, z);
    } else {
      EmptyId(upper);
      assert w + "" == w;
    }
  }

  /** The part of an id from `source_id` on. */
  ghost function FromSource(n: Tags): string
    requires SOURCE in n
  {
    Field(n[SOURCE]) + SeriesId(Above(n, SOURCE))
  }

  lemma IdAtSource(n: Tags)
    requires SOURCE in n
    ensures SeriesId(n) == SeriesId(Below(n, SOURCE)) + (Field(SOURCE) + FromSource(n))
    ensures FromSource(n) != "" && FromSource(n)[0] == '-' && (Field(SOURCE) + FromSource(n))[0] == '-'
  {
    IdAround(n, SOURCE);
    var w, u := Field(n[SOURCE]), SeriesId(Above(n, SOURCE));
    assert Field(SOURCE) + w + u == Field(SOURCE) + (w + u);
    DropDash(n[SOURCE], u);
    DropDash(SOURCE, w + u);
  }

  lemma OnlySourceIsAlone(n: Tags, s: string)
    requires SOURCE in n && SeriesId(n) == Field(SOURCE) + Field(s) && !ReadsAsLaterTag(s)
    ensures n == map[SOURCE := s]
  {
    hide SeriesId, ReadsAsLaterTag, Above;
    IdAtSource(n);
    NothingBelowSource(Below(n, SOURCE), Field(SOURCE) + FromSource(n), Field(s));
    EmptyId(Below(n, SOURCE));
    assert "" + (Field(SOURCE) + FromSource(n)) == Field(SOURCE) + FromSource(n);
    DropField(SOURCE, FromSource(n), Field(s));
    TailOfSource(n, s);
    NothingAround(n, SOURCE);
  }

  lemma OnlySourceOwnsSeries(s: string)
    requires !ReadsAsLaterTag(s)
    ensures OwnSeries(map[SOURCE := s])
  {
    SingleId(SOURCE, s);
    forall n: Tags | SOURCE in n && SeriesId(n) == SeriesId(map[SOURCE := s]) ensures n == map[SOURCE := s] {
      OnlySourceIsAlone(n, s);
    }
  }

  lemma DropField(x: string, a: string, b: string)
    requires Field(x) + a == Field(x) + b
    ensures a == b
  {
    assert (Field(x) + a)[|Field(x)|..] == a && (Field(x) + b)[|Field(x)|..] == b;
  }

  lemma SingleId(k: string, v: string)
    ensures SeriesId(map[k := v]) == Field(k) + Field(v)
  {
    var m := map[k := v];
    LeqTotal(k, k);
    SeriesIdStep(m, k);
    assert m - {k} == map[];
  }

  // ---------- one tag before the source id ----------

  lemma DashesOfPair(a: string, v: string)
    requires DashFree(a) && DashFree(v)
    ensures Dashes(Field(a) + Field(v)) == 2
  {
    DashesAdd(Field(a), Field(v));
    DashesField(a);
    DashesField(v);
    DashesNone(a);
    DashesNone(v);
  }

  /** Two ways to cut a string before the name `source_id` cut it at the same place, or the name occurs again. */
  lemma NotCutEarlier(l: string, p: string, full: string)
    requires Dashes(l) >= 2 && Dashes(p) == 2 && l <= full && p <= full && |l| < |full| && full[|l|] == '-'
    ensures |p| <= |l|
  {
    if |l| < |p| {
      var rest := p[|l|..];
      assert p == l + rest && rest[0] == '-';
      DashesAdd(l, rest);
    }
  }

  lemma CutLater(extra: string, r: string, s: string)
    requires extra + (Field(SOURCE) + Field(r)) == Field(SOURCE) + Field(s) && extra != ""
    ensures ReadsAsInnerSource(s)
  {
    var full := Field(SOURCE) + Field(s);
    assert full[|extra|] == '-';
    if |extra| < |Field(SOURCE)| {
      assert full[|extra|] == SOURCE[|extra| - 1];
      SourceHasNoDash();
    } else {
      var p := extra[|Field(SOURCE)|..];
      assert extra == Field(SOURCE) + p by { assert extra == full[..|extra|]; }
      assert full == Field(SOURCE) + (p + (Field(SOURCE) + Field(r)));
      DropField(SOURCE, p + (Field(SOURCE) + Field(r)), Field(s));
      assert p + (Field(SOURCE) + Field(r)) == p + Field(SOURCE) + Field(r);
      assert Inner(s, p, r);
    }
  }

  lemma AlignLower(l: string, p: string, r: string, s: string)
    requires l + (Field(SOURCE) + Field(r)) == p + (Field(SOURCE) + Field(s))
    requires Dashes(l) >= 2 && Dashes(p) == 2 && !ReadsAsInnerSource(s)
    ensures l == p && r == s
  {
    var full := l + (Field(SOURCE) + Field(r));
    NotCutEarlier(l, p, full);
    var extra := l[|p|..];
    assert l == p + extra by { assert l == full[..|l|] && p == full[..|p|]; }
    assert extra + (Field(SOURCE) + Field(r)) == full[|p|..] == Field(SOURCE) + Field(s);
    if extra != "" {
      CutLater(extra, r, s);
    } else {
      DropField(SOURCE, Field(r), Field(s));
      assert Field(r)[1..] == r && Field(s)[1..] == s;
    }
  }

  lemma PairParts(a: string, v: string, s: string)
    requires Less(a, SOURCE)
    ensures var m := map[a := v, SOURCE := s];
      Below(m, SOURCE) == map[a := v] && Above(m, SOURCE) == map[]
  {
    LeqTotal(a, SOURCE);
  }

  lemma PairId(a: string, v: string, s: string)
    requires Less(a, SOURCE)
    ensures SeriesId(map[a := v, SOURCE := s]) == Field(a) + Field(v) + (Field(SOURCE) + Field(s))
  {
    var m := map[a := v, SOURCE := s];
    PairParts(a, v, s);
    IdAround(m, SOURCE);
    SingleId(a, v);
    EmptyId(Above(m, SOURCE));
    assert Field(SOURCE) + Field(s) + "" == Field(SOURCE) + Field(s);
  }

  /** Some name below `source_id` starts the id. */
  lemma SomethingBelowSource(n: Tags, a: string, rest: string)
    requires SOURCE in n && SeriesId(n) == Field(a) + rest && DashFree(a) && a != SOURCE && StartsField(rest)
    ensures Below(n, SOURCE) != map[]
  {
    IdAtSource(n);
    if Below(n, SOURCE) == map[] {
      EmptyId(Below(n, SOURCE));
      assert "" + (Field(SOURCE) + FromSource(n)) == Field(SOURCE) + FromSource(n);
      DropDash(a, rest);
      DropDash(SOURCE, FromSource(n));
      SourceHasNoDash();
      CutField(a, rest, SOURCE, FromSource(n));
    }
  }

  ghost predicate PlainPair(a: string, v: string, s: string) {
    Less(a, SOURCE) && DashFree(a) && DashFree(v) && !ReadsAsLaterTag(s) && !ReadsAsInnerSource(s)
  }

  lemma PlainPairIsAlone(n: Tags, a: string, v: string, s: string)
    requires PlainPair(a, v, s) && SOURCE in n && SeriesId(n) == Field(a) + Field(v) + (Field(SOURCE) + Field(s))
    ensures n == map[a := v, SOURCE := s]
  {
    hide SeriesId, Dashes, ReadsAsLaterTag, ReadsAsInnerSource, Below, Above, FromSource;
    var lower, r := Below(n, SOURCE), FromSource(n);
    var rest := Field(v) + (Field(SOURCE) + Field(s));
    assert Field(a) + Field(v) + (Field(SOURCE) + Field(s)) == Field(a) + rest;
    DropDash(v, Field(SOURCE) + Field(s));
    SomethingBelowSource(n, a, rest);
    IdAtSource(n);
    DashesOfId(lower);
    SizeOfSome(lower);
    DashesOfPair(a, v);
    assert r == Field(r[1..]);
    AlignLower(SeriesId(lower), Field(a) + Field(v), r[1..], s);
    SingleId(a, v);
    OneDashFreeTag(a, v);
    assert lower == map[a := v];
    SameTail(n, s);
    PairParts(a, v, s);
    SameAround(n, map[a := v, SOURCE := s], SOURCE);
  }

  lemma SameTail(n: Tags, s: string)
    requires SOURCE in n && FromSource(n) == Field(s) && !ReadsAsLaterTag(s)
    ensures n[SOURCE] == s && Above(n, SOURCE) == map[]
  {
    TailOfSource(n, s);
  }

  lemma SizeOfSome(m: Tags)
    requires m != map[]
    ensures |m| >= 1
  {
    var k :| k in m;
    assert k in m.Keys;
  }

  lemma OneDashFreeTag(a: string, v: string)
    requires DashFree(a) && DashFree(v)
    ensures OwnId(map[a := v])
  {
    DashFreeTagIsAlone(map[a := v]);
  }

  lemma PlainPairOwnsSeries(a: string, v: string, s: string)
    requires PlainPair(a, v, s)
    ensures OwnSeries(map[a := v, SOURCE := s])
  {
    PairId(a, v, s);
    forall n: Tags | SOURCE in n && SeriesId(n) == SeriesId(map[a := v, SOURCE := s]) ensures n == map[a := v, SOURCE := s] {
      PlainPairIsAlone(n, a, v, s);
    }
  }

  // ---------- tags that share their series ----------

  lemma SharesSeries(m: Tags, n: Tags, k: string)
    requires SOURCE in n && SeriesId(n) == SeriesId(m)
    requires (k in m) != (k in n) || (k in m && k in n && m[k] != n[k])
    ensures !OwnSeries(m)
  {
    assert n != m;
  }

  lemma Regroup(k: string, v: string, j: string, w: string, rest: string)
    ensures Field(k) + Field(v) + (Field(j) + Field(w) + rest) == Field(k) + Field(v + Field(j) + Field(w)) + rest
  {
    assert Field(v) + Field(j) + Field(w) == Field(v + Field(j) + Field(w));
    assert Field(k) + Field(v) + (Field(j) + Field(w) + rest) == Field(k) + (Field(v) + Field(j) + Field(w)) + rest;
  }

  /** The second tag can be taken into the value of the first without changing the id. */
  lemma TakeInSecond(m: Tags) returns (n: Tags, j: string)
    requires |m| >= 2
    ensures j in m && j != First(m) && n.Keys == m.Keys - {j} && SeriesId(n) == SeriesId(m)
    ensures m - {First(m)} != map[] && j == First(m - {First(m)})
  {
    var k := First(m);
    Shrinks(m, k);
    var rest := m - {k};
    j := First(rest);
    n := (rest - {j})[k := m[k] + Field(j) + Field(m[j])];
    assert n - {k} == rest - {j};
    assert IsFirst(k, n);
    SeriesIdStep(n, k);
    SeriesIdStep(m, k);
    SeriesIdStep(rest, j);
    Regroup(k, m[k], j, m[j], SeriesId(rest - {j}));
  }

  lemma SourceFirstShares(m: Tags)
    requires SOURCE in m && |m| >= 2 && First(m) == SOURCE
    ensures !OwnSeries(m)
  {
    var n, j := TakeInSecond(m);
    assert SOURCE in n.Keys && j !in n.Keys;
    SharesSeries(m, n, j);
  }

  lemma KeepFirst(m: Tags, r: Tags, k: string)
    requires IsFirst(k, m) && r.Keys <= m.Keys - {k} && SeriesId(r) == SeriesId(m - {k})
    ensures SeriesId(r[k := m[k]]) == SeriesId(m)
  {
    var n := r[k := m[k]];
    assert n - {k} == r;
    assert IsFirst(k, n);
    SeriesIdStep(n, k);
    SeriesIdStep(m, k);
  }

  lemma ManyTagsShare(m: Tags)
    requires SOURCE in m && |m| >= 3
    ensures !OwnSeries(m)
  {
    var k := First(m);
    var n, j := TakeInSecond(m);
    if k == SOURCE {
      SourceFirstShares(m);
    } else if j != SOURCE {
      assert SOURCE in n.Keys && j !in n.Keys;
      SharesSeries(m, n, j);
    } else {
      Shrinks(m, k);
      var r, i := TakeInSecond(m - {k});
      KeepFirst(m, r, k);
      assert SOURCE in r.Keys && i !in r.Keys;
      SharesSeries(m, r[k := m[k]], i);
    }
  }

  /** A name below all others comes first. */
  lemma Prepend(r: Tags, k: string, v: string)
    requires forall x :: x in r ==> Less(k, x)
    ensures SeriesId(r[k := v]) == Field(k) + Field(v) + SeriesId(r)
  {
    var n := r[k := v];
    LeqTotal(k, k);
    assert n - {k} == r && IsFirst(k, n);
    SeriesIdStep(n, k);
  }

  lemma JoinLater(x: string, y: string, z: string)
    ensures Field(SOURCE) + Field(x) + (Field(y) + Field(z)) == Field(SOURCE) + Field(x + Field(y) + Field(z))
  {
    assert Field(x) + (Field(y) + Field(z)) == Field(x + Field(y) + Field(z));
    assert Field(SOURCE) + Field(x) + (Field(y) + Field(z)) == Field(SOURCE) + (Field(x) + (Field(y) + Field(z)));
  }

  lemma LaterTags(s: string) returns (r: Tags, y: string)
    requires ReadsAsLaterTag(s)
    ensures SeriesId(r) == Field(SOURCE) + Field(s) && r.Keys == {SOURCE, y} && Less(SOURCE, y)
  {
    hide SeriesId;
    var x, y', z :| Later(s, x, y', z);
    y := y';
    r := map[y := z][SOURCE := x];
    SingleId(y, z);
    Prepend(map[y := z], SOURCE, x);
    JoinLater(x, y, z);
  }

  lemma LaterTagShares(s: string)
    requires ReadsAsLaterTag(s)
    ensures !OwnSeries(map[SOURCE := s])
  {
    hide SeriesId;
    var r, y := LaterTags(s);
    SingleId(SOURCE, s);
    assert SOURCE in r.Keys && y in r.Keys;
    SharesSeries(map[SOURCE := s], r, y);
  }

  lemma PairLaterShares(a: string, v: string, s: string)
    requires Less(a, SOURCE) && ReadsAsLaterTag(s)
    ensures !OwnSeries(map[a := v, SOURCE := s])
  {
    hide SeriesId;
    var r, y := LaterTags(s);
    assert SOURCE in r.Keys && y in r.Keys;
    LessTransitive(a, SOURCE, y);
    Prepend(r, a, v);
    PairId(a, v, s);
    SharesSeries(map[a := v, SOURCE := s], r[a := v], y);
  }

  lemma LessTransitive(a: string, b: string, c: string)
    requires Less(a, b) && Less(b, c)
    ensures Less(a, c)
  {
    LeqTransitive(a, b, c);
    LeqTotal(b, c);
  }

  lemma JoinInner(a: string, v: string, p: string, t: string, s: string)
    requires Inner(s, p, t)
    ensures Field(a) + Field(v + Field(SOURCE) + p) + (Field(SOURCE) + Field(t)) == Field(a) + Field(v) + (Field(SOURCE) + Field(s))
    ensures t != s
  {
    var q := Field(SOURCE) + p;
    assert Field(v + Field(SOURCE) + p) == Field(v) + q;
    assert q + (Field(SOURCE) + Field(t)) == Field(SOURCE) + (p + Field(SOURCE) + Field(t));
    assert Field(a) + (Field(v) + q) + (Field(SOURCE) + Field(t)) == Field(a) + Field(v) + (q + (Field(SOURCE) + Field(t)));
    assert |Field(s)| == |p| + |Field(SOURCE)| + |Field(t)|;
  }

  lemma InnerSourceShares(a: string, v: string, s: string)
    requires Less(a, SOURCE) && ReadsAsInnerSource(s)
    ensures !OwnSeries(map[a := v, SOURCE := s])
  {
    hide SeriesId, Field, Inner, Less;
    var p, t :| Inner(s, p, t);
    PairId(a, v, s);
    PairId(a, v + Field(SOURCE) + p, t);
    JoinInner(a, v, p, t, s);
    SharesSeries(map[a := v, SOURCE := s], map[a := v + Field(SOURCE) + p, SOURCE := t], SOURCE);
  }

  lemma {:induction false} DashSortsFirst(a: string, b: string, p: string)
    requires Less(a, b) && forall i :: 0 <= i < |b| ==> b[i] > '-'
    ensures Leq(a + Field(p), b)
  {
    if a == "" {
      assert a + Field(p) == Field(p);
    } else {
      assert (a + Field(p))[1..] == a[1..] + Field(p) && (a + Field(p))[0] == a[0];
      if a[0] == b[0] {
        assert a == [a[0]] + a[1..] && b == [b[0]] + b[1..];
        DashSortsFirst(a[1..], b[1..], p);
      }
    }
  }

  lemma ShiftDash(a: string, x: string, y: string)
    ensures Field(a) + Field(x + Field(y)) == Field(a + Field(x)) + Field(y)
  {
  }

  lemma DashedValueShares(a: string, v: string, s: string)
    requires Less(a, SOURCE) && !DashFree(v)
    ensures !OwnSeries(map[a := v, SOURCE := s])
  {
    hide SeriesId;
    var x, y := FirstDashSplits(v);
    var b := a + Field(x);
    DashedIsLess(a, x);
    PairId(a, v, s);
    PairId(b, y, s);
    ShiftDash(a, x, y);
    SharesSeries(map[a := v, SOURCE := s], map[b := y, SOURCE := s], a);
  }

  lemma DashedIsLess(a: string, x: string)
    requires Less(a, SOURCE)
    ensures Less(a + Field(x), SOURCE) && a + Field(x) != a
  {
    DashSortsFirst(a, SOURCE, x);
    assert (a + Field(x))[|a|] == '-';
    SourceHasNoDash();
  }

  lemma DashedNameShares(a: string, v: string, s: string)
    requires Less(a, SOURCE) && !DashFree(a)
    ensures !OwnSeries(map[a := v, SOURCE := s])
  {
    hide SeriesId;
    var x, y := FirstDashSplits(a);
    PrefixIsLess(a, x, y);
    PairId(a, v, s);
    PairId(x, y + Field(v), s);
    ShiftDash(x, y, v);
    SharesSeries(map[a := v, SOURCE := s], map[x := y + Field(v), SOURCE := s], a);
  }

  lemma PrefixIsLess(a: string, x: string, y: string)
    requires a == x + Field(y) && Less(a, SOURCE)
    ensures Less(x, SOURCE) && x != a
  {
    PrefixLeq(x, Field(y));
    LeqTransitive(x, a, SOURCE);
    LeqTotal(a, SOURCE);
  }

  // ---------- exactly which tags have a series of their own ----------

  /** Only a source id, or one tag before it, with nothing in them that can be read in another way. */
  ghost predicate Unambiguous(m: Tags)
    requires SOURCE in m
  {
    || (|m| == 1 && !ReadsAsLaterTag(m[SOURCE]))
    || (|m| == 2 && First(m) != SOURCE && PlainPair(First(m), m[First(m)], m[SOURCE]))
  }

  lemma JustSource(m: Tags)
    requires SOURCE in m && |m| == 1
    ensures m == map[SOURCE := m[SOURCE]]
  {
    Shrinks(m, SOURCE);
    assert m - {SOURCE} == map[];
    assert m == (m - {SOURCE})[SOURCE := m[SOURCE]];
  }

  lemma JustPair(m: Tags, a: string)
    requires SOURCE in m && |m| == 2 && a in m && a != SOURCE
    ensures m == map[a := m[a], SOURCE := m[SOURCE]]
  {
    Shrinks(m, a);
    JustSource(m - {a});
    assert m == (m - {a})[a := m[a]];
  }

  /** For all tags a series can have: they share their series with no others exactly if they are unambiguous. */
  lemma OwnSeriesIff(m: Tags)
    requires SOURCE in m
    ensures OwnSeries(m) <==> Unambiguous(m)
  {
    hide OwnSeries, SeriesId, ReadsAsLaterTag, ReadsAsInnerSource;
    if |m| >= 3 {
      ManyTagsShare(m);
    } else if |m| == 1 {
      JustSource(m);
      if ReadsAsLaterTag(m[SOURCE]) { LaterTagShares(m[SOURCE]); } else { OnlySourceOwnsSeries(m[SOURCE]); }
    } else {
      SomeTag(m);
      if First(m) == SOURCE {
        SourceFirstShares(m);
      } else {
        PairOwnsIff(m, First(m));
      }
    }
  }

  lemma SomeTag(m: Tags)
    requires SOURCE in m && |m| != 1 && |m| < 3
    ensures |m| == 2
  {
    SizeOfSome(m);
  }

  lemma PairOwnsIff(m: Tags, a: string)
    requires SOURCE in m && |m| == 2 && a == First(m) && a != SOURCE
    ensures OwnSeries(m) <==> PlainPair(a, m[a], m[SOURCE])
  {
    hide OwnSeries, SeriesId, ReadsAsLaterTag, ReadsAsInnerSource;
    JustPair(m, a);
    var v, s := m[a], m[SOURCE];
    if !DashFree(a) {
      DashedNameShares(a, v, s);
    } else if !DashFree(v) {
      DashedValueShares(a, v, s);
    } else if ReadsAsLaterTag(s) {
      PairLaterShares(a, v, s);
    } else if ReadsAsInnerSource(s) {
      InnerSourceShares(a, v, s);
    } else {
      PlainPairOwnsSeries(a, v, s);
    }
  }

  lemma DashFreeSourceIsPlain(s: string)
    requires DashFree(s)
    ensures !ReadsAsLaterTag(s) && !ReadsAsInnerSource(s)
  {
    DashesNone(s);
    DashesField(s);
    if x, y, z :| Later(s, x, y, z) {
      DashesAdd(x + Field(y), Field(z));
      DashesField(z);
    }
    if p, t :| Inner(s, p, t) {
      DashesAdd(p + Field(SOURCE), Field(t));
      DashesAdd(p, Field(SOURCE));
      DashesField(SOURCE);
      DashesField(t);
    }
  }

  /** Without dashes the condition is just where the source id comes in the order of the names. */
  lemma DashFreeOwnSeriesIff(m: Tags)
    requires SOURCE in m && AllDashFree(m)
    ensures OwnSeries(m) <==> |m| == 1 || (|m| == 2 && First(m) != SOURCE)
  {
    OwnSeriesIff(m);
    DashFreeSourceIsPlain(m[SOURCE]);
    if |m| == 2 && First(m) != SOURCE {
      assert Less(First(m), SOURCE);
    }
  }
}

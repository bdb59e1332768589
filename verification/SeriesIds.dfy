/** The key under which points of one series are gathered: tag names and values, in the order of the names. */
module SeriesIds {

  type Tags = map<string, string>

  // ---------- the order of strings ----------

  predicate Leq(a: string, b: string) {
    a == "" || (b != "" && (a[0] < b[0] || (a[0] == b[0] && Leq(a[1..], b[1..]))))
  }

  lemma {:induction false} LeqTotal(a: string, b: string)
    ensures Leq(a, b) || Leq(b, a)
    ensures Leq(a, b) && Leq(b, a) ==> a == b
  {
    if a != "" && b != "" {
      LeqTotal(a[1..], b[1..]);
      assert a == [a[0]] + a[1..] && b == [b[0]] + b[1..];
    }
  }

  lemma {:induction false} LeqTransitive(a: string, b: string, c: string)
    requires Leq(a, b) && Leq(b, c)
    ensures Leq(a, c)
  {
    if a != "" && a[0] == b[0] == c[0] { LeqTransitive(a[1..], b[1..], c[1..]); }
  }

  ghost predicate IsFirst(k: string, m: Tags) {
    k in m && forall x :: x in m ==> Leq(k, x)
  }

  lemma Shrinks(m: Tags, k: string)
    requires k in m
    ensures |m - {k}| == |m| - 1
  {
    assert (m - {k}).Keys == m.Keys - {k};
  }

  lemma {:induction false} FirstExists(m: Tags)
    requires m != map[]
    ensures exists k :: IsFirst(k, m)
    decreases |m|
  {
    var x :| x in m;
    var rest := m - {x};
    Shrinks(m, x);
    LeqTotal(x, x);
    if rest == map[] {
      assert m.Keys == {x} by { assert forall y :: y in m ==> y == x || y in rest; }
      assert IsFirst(x, m);
    } else {
      FirstExists(rest);
      var y :| IsFirst(y, rest);
      LeqTotal(x, y);
      var k := if Leq(x, y) then x else y;
      forall z | z in m ensures Leq(k, z) {
        if z != x {
          assert z in rest;
          if Leq(x, y) { LeqTransitive(x, y, z); }
        }
      }
      assert IsFirst(k, m);
    }
  }

  lemma FirstIsUnique(m: Tags, a: string, b: string)
    requires IsFirst(a, m) && IsFirst(b, m)
    ensures a == b
  {
    LeqTotal(a, b);
  }

  ghost function First(m: Tags): (k: string)
    requires m != map[]
    ensures IsFirst(k, m)
  {
    FirstExists(m);
    var k :| IsFirst(k, m);
    k
  }

  // ---------- the series id ----------

  function Field(s: string): string {
    "-" + s
  }

  ghost function SeriesId(m: Tags): string
    decreases |m|
  {
    if m == map[] then "" else
    var k := First(m);
    Shrinks(m, k);
    Field(k) + Field(m[k]) + SeriesId(m - {k})
  }

  lemma SeriesIdStep(m: Tags, k: string)
    requires IsFirst(k, m)
    ensures SeriesId(m) == Field(k) + Field(m[k]) + SeriesId(m - {k})
  {
    FirstIsUnique(m, k, First(m));
  }

  /** The next name in order. */
  method Next(todo: Tags) returns (k: string)
    requires todo != map[]
    ensures IsFirst(k, todo)
  {
    var rest := todo.Keys;
    k :| k in rest;
    rest := rest - {k};
    LeqTotal(k, k);
    while rest != {}
      invariant k in todo && rest <= todo.Keys
      invariant forall x :: x in todo && x !in rest ==> Leq(k, x)
    {
      var x :| x in rest;
      rest := rest - {x};
      LeqTotal(k, x);
      LeqTotal(x, x);
      if !Leq(k, x) {
        forall y | y in todo && y !in rest && y != x ensures Leq(x, y) { LeqTransitive(x, k, y); }
        k := x;
      }
    }
  }

  /** The names in sorted order, each followed by its value. */
  method GetSeriesId(m: Tags) returns (id: string)
    ensures id == SeriesId(m)
  {
    hide SeriesId, IsFirst, Field;
    id := "";
    var todo := m;
    assert id + SeriesId(todo) == SeriesId(todo);
    while todo != map[]
      invariant id + SeriesId(todo) == SeriesId(m)
      decreases |todo|
    {
      var k := Next(todo);
      SeriesIdStep(todo, k);
      Shrinks(todo, k);
      AppendFields(id, k, todo[k], SeriesId(todo - {k}));
      id := id + "-" + k + "-" + todo[k];
      todo := todo - {k};
    }
    EmptyId(todo);
  }

  lemma EmptyId(m: Tags)
    requires m == map[]
    ensures SeriesId(m) == ""
  {
  }

  lemma AppendFields(id: string, k: string, v: string, rest: string)
    ensures id + (Field(k) + Field(v) + rest) == (id + "-" + k + "-" + v) + rest
  {
    assert id + "-" + k + "-" + v == id + (Field(k) + Field(v));
    assert id + (Field(k) + Field(v) + rest) == id + (Field(k) + Field(v)) + rest;
  }

  // ---------- without dashes the id determines the tags ----------

  predicate DashFree(s: string) {
    '-' !in s
  }

  ghost predicate AllDashFree(m: Tags) {
    forall k :: k in m ==> DashFree(k) && DashFree(m[k])
  }

  ghost predicate StartsField(s: string) {
    s == "" || s[0] == '-'
  }

  ghost function FirstDash(s: string): nat {
    if StartsField(s) then 0 else 1 + FirstDash(s[1..])
  }

  lemma {:induction false} FirstDashEndsField(x: string, y: string)
    requires DashFree(x) && StartsField(y)
    ensures FirstDash(x + y) == |x|
  {
    if x == "" {
      assert x + y == y;
    } else {
      assert x[0] in x;
      assert (x + y)[1..] == x[1..] + y;
      FirstDashEndsField(x[1..], y);
    }
  }

  lemma CutField(x: string, y: string, x': string, y': string)
    requires x + y == x' + y' && DashFree(x) && DashFree(x') && StartsField(y) && StartsField(y')
    ensures x == x' && y == y'
  {
    FirstDashEndsField(x, y);
    FirstDashEndsField(x', y');
    assert x == (x + y)[..|x|] && x' == (x' + y')[..|x'|];
    assert y == (x + y)[|x|..] && y' == (x' + y')[|x'|..];
  }

  lemma CutFields(k: string, v: string, rest: string, k': string, v': string, rest': string)
    requires Field(k) + Field(v) + rest == Field(k') + Field(v') + rest'
    requires DashFree(k) && DashFree(v) && DashFree(k') && DashFree(v') && StartsField(rest) && StartsField(rest')
    ensures k == k' && v == v' && rest == rest'
  {
    DropDash(k, Field(v) + rest);
    DropDash(k', Field(v') + rest');
    assert Field(k) + Field(v) + rest == Field(k) + (Field(v) + rest);
    assert Field(k') + Field(v') + rest' == Field(k') + (Field(v') + rest');
    CutField(k, Field(v) + rest, k', Field(v') + rest');
    DropDash(v, rest);
    DropDash(v', rest');
    CutField(v, rest, v', rest');
  }

  lemma DropDash(x: string, rest: string)
    ensures (Field(x) + rest)[1..] == x + rest && (Field(x) + rest)[0] == '-'
  {
  }

  lemma SeriesIdStartsField(m: Tags)
    ensures StartsField(SeriesId(m))
    ensures SeriesId(m) == "" <==> m == map[]
  {
  }

  lemma SameWithout(m: Tags, n: Tags, k: string)
    requires k in m && k in n && m[k] == n[k] && m - {k} == n - {k}
    ensures m == n
  {
    assert m == (m - {k})[k := m[k]] && n == (n - {k})[k := n[k]];
  }

  /** Equal tags share a series trivially; tags without dashes share one only if they are equal. */
  lemma {:induction false} DashFreeIdsAreDistinct(m: Tags, n: Tags)
    requires AllDashFree(m) && AllDashFree(n) && SeriesId(m) == SeriesId(n)
    ensures m == n
    decreases |m|
  {
    SeriesIdStartsField(m);
    SeriesIdStartsField(n);
    if m != map[] {
      var k, j := First(m), First(n);
      SeriesIdStartsField(m - {k});
      SeriesIdStartsField(n - {j});
      CutFields(k, m[k], SeriesId(m - {k}), j, n[j], SeriesId(n - {j}));
      Shrinks(m, k);
      DashFreeIdsAreDistinct(m - {k}, n - {k});
      SameWithout(m, n, k);
    }
  }

  // ---------- one tag without dashes ----------

  /** No other tags have the same id. */
  ghost predicate OwnId(m: Tags) {
    forall n: Tags :: SeriesId(n) == SeriesId(m) ==> n == m
  }

  function Dashes(s: string): nat {
    if s == "" then 0 else (if s[0] == '-' then 1 else 0) + Dashes(s[1..])
  }

  lemma {:induction false} DashesAdd(a: string, b: string)
    ensures Dashes(a + b) == Dashes(a) + Dashes(b)
  {
    if a == "" {
      assert a + b == b;
    } else {
      assert (a + b)[1..] == a[1..] + b;
      DashesAdd(a[1..], b);
    }
  }

  lemma {:induction false} DashesNone(s: string)
    ensures Dashes(s) == 0 <==> DashFree(s)
  {
    if s != "" {
      DashesNone(s[1..]);
      assert s == [s[0]] + s[1..];
    }
  }

  lemma DashesField(s: string)
    ensures Dashes(Field(s)) == 1 + Dashes(s)
  {
    assert Field(s)[1..] == s;
  }

  lemma {:induction false} DashesOfId(m: Tags)
    ensures Dashes(SeriesId(m)) >= 2 * |m|
    ensures Dashes(SeriesId(m)) == 2 * |m| ==> AllDashFree(m)
    decreases |m|
  {
    if m != map[] {
      var k := First(m);
      Shrinks(m, k);
      DashesOfId(m - {k});
      DashesAdd(Field(k) + Field(m[k]), SeriesId(m - {k}));
      DashesAdd(Field(k), Field(m[k]));
      DashesField(k);
      DashesField(m[k]);
      DashesNone(k);
      DashesNone(m[k]);
      assert forall x :: x in m ==> x == k || x in m - {k};
    }
  }

  lemma DashFreeTagIsAlone(m: Tags)
    requires |m| <= 1 && AllDashFree(m)
    ensures OwnId(m)
  {
    forall n: Tags | SeriesId(n) == SeriesId(m) ensures n == m {
      SeriesIdStartsField(m);
      SeriesIdStartsField(n);
      if m != map[] {
        DashesOfId(n);
        var k := First(m);
        Shrinks(m, k);
        assert m - {k} == map[];
        DashesField(k);
        DashesField(m[k]);
        DashesNone(k);
        DashesNone(m[k]);
        DashesAdd(Field(k), Field(m[k]));
        assert SeriesId(m) == Field(k) + Field(m[k]);
        DashFreeIdsAreDistinct(m, n);
      }
    }
  }
}

/** Static routes: equal slices of the 64-bit hash space, found by a floor query on a search tree. */
module StaticLookups {
  import opened Envelopes
  import Trees = SearchTrees
  import opened SearchTrees
  import opened Divisibility

  const MAX_UINT64 := 0xFFFF_FFFF_FFFF_FFFF
  const MAX_INT := 0x7FFF_FFFF_FFFF_FFFF

  function SliceWidth(n: int): int
    requires n > 0
  {
    MAX_UINT64 / n
  }

  /** 64-bit multiplication. */
  function MulUint64(a: int, b: int): int {
    (a * b) % (MAX_UINT64 + 1)
  }

  /** The routes `0, 1, ..., n - 1` keyed by the start of their slices. */
  ghost predicate RoutesUpTo(m: map<int, int>, x: int, n: int) {
    && (forall i :: 0 <= i < n ==> Times(i, x) in m && m[Times(i, x)] == i)
    && (forall k :: k in m ==> exists i :: 0 <= i < n && k == Times(i, x))
  }

  function Times(i: int, x: int): int {
    i * x
  }

  lemma SlicesFit(n: int, i: int)
    requires 0 < n && 0 <= i < n
    ensures 0 <= Times(i, SliceWidth(n)) <= MAX_UINT64
    ensures MulUint64(i, SliceWidth(n)) == Times(i, SliceWidth(n))
  {
    var x := SliceWidth(n);
    DivMod(MAX_UINT64, n);
    NonNegative(i, x);
    MulMonotone(i, n, x);
    Commute(n, x);
  }

  /** The widest slice of which `n` fit into the hash space. */
  lemma WidthIs(n: int)
    requires n > 0
    ensures SliceWidth(n) * n <= 18_446_744_073_709_551_615 < (SliceWidth(n) + 1) * n
  {
    DivMod(MAX_UINT64, n);
    DistributeRight(SliceWidth(n), -1, n);
  }

  lemma WidthPositive(n: int)
    requires 0 < n <= MAX_INT
    ensures SliceWidth(n) > 0
  {
    DivMod(MAX_UINT64, n);
    if SliceWidth(n) <= 0 { MulMonotone(SliceWidth(n), 0, n); }
  }

  lemma TimesInjective(i: int, j: int, x: int)
    requires x > 0 && Times(i, x) == Times(j, x)
    ensures i == j
  {
    if i < j { MulStrict(i, j, x); } else if j < i { MulStrict(j, i, x); }
  }

  lemma RoutesExtend(m: map<int, int>, x: int, n: nat)
    requires x > 0 && RoutesUpTo(m, x, n)
    ensures RoutesUpTo(m[Times(n, x) := n], x, n + 1)
  {
    hide Times;
    var m' := m[Times(n, x) := n];
    forall i | 0 <= i < n + 1 ensures Times(i, x) in m' && m'[Times(i, x)] == i {
      if Times(i, x) == Times(n, x) { TimesInjective(i, n, x); }
    }
    forall k | k in m' ensures exists i :: 0 <= i < n + 1 && k == Times(i, x) {
      if k != Times(n, x) {
        assert k in m;
        var i :| 0 <= i < n && k == Times(i, x);
      }
    }
  }

  /** The constructor panics on a non-positive number of routes; otherwise no slice start overflows. */
  method NewStaticLookup(n: int) returns (r: Result<Tree<int>>)
    requires n <= MAX_INT
    ensures r.Ok? <==> n > 0
    ensures r.Ok? ==> IsBst(r.value) && RoutesUpTo(Contents(r.value), SliceWidth(n), n)
    ensures r.Ok? ==> SliceWidth(n) * n <= 18_446_744_073_709_551_615 < (SliceWidth(n) + 1) * n
  {
    if n <= 0 {
      return Err("Invalid number of routes");
    }
    WidthPositive(n);
    WidthIs(n);
    var x := SliceWidth(n);
    var t: Tree<int> := Nil;
    for i := 0 to n
      invariant IsBst(t) && RoutesUpTo(Contents(t), x, i)
    {
      t := AddRoute(t, n, i);
    }
    r := Ok(t);
  }

  method AddRoute(t: Tree<int>, n: int, i: int) returns (u: Tree<int>)
    requires 0 <= i < n <= MAX_INT && IsBst(t) && RoutesUpTo(Contents(t), SliceWidth(n), i)
    ensures IsBst(u) && RoutesUpTo(Contents(u), SliceWidth(n), i + 1)
  {
    hide RoutesUpTo, Times, MulUint64, IsBst, Contents;
    WidthPositive(n);
    SlicesFit(n, i);
    RoutesExtend(Contents(t), SliceWidth(n), i);
    u := Trees.Put(t, MulUint64(i, SliceWidth(n)), i);
  }

  lemma SliceOf(h: int, x: int, i: int)
    requires x > 0 && Times(i, x) <= h < Times(i + 1, x)
    ensures h / x == i
  {
    DivMod(h, x);
    DistributeRight(i, 1, x);
    var q := h / x;
    if q < i { MulMonotone(q + 1, i, x); DistributeRight(q, 1, x); }
    if i < q { MulMonotone(i + 1, q, x); }
  }

  lemma BeyondSlice(h: int, x: int, i: int)
    requires x > 0 && Times(i, x) <= h
    ensures h / x >= i
  {
    DivMod(h, x);
    var q := h / x;
    if q < i { MulMonotone(q + 1, i, x); DistributeRight(q, 1, x); }
  }

  /** The floor key is the start of slice `i`; the next slice, if any, starts above the hash. */
  lemma FloorIsQuotient(m: map<int, int>, x: int, n: int, h: int, k: int)
    requires x > 0 && n > 0 && h >= 0 && RoutesUpTo(m, x, n)
    requires k in m && k <= h && forall j :: j in m && j <= h ==> j <= k
    ensures m[k] == Min(h / x, n - 1)
  {
    hide Times;
    var i :| 0 <= i < n && k == Times(i, x);
    assert m[k] == i;
    BeyondSlice(h, x, i);
    if i < n - 1 {
      assert Times(i + 1, x) in m;
      TimesGrows(i, x);
      SliceOf(h, x, i);
    }
  }

  lemma TimesGrows(i: int, x: int)
    requires x > 0
    ensures Times(i, x) < Times(i + 1, x)
  {
    MulStrict(i, i + 1, x);
  }

  /** Every 64-bit hash finds a route, and the route is the hash divided by the slice width, capped at the last one. */
  method Lookup(t: Tree<int>, n: int, h: int) returns (route: int)
    requires 0 < n <= MAX_INT && 0 <= h <= MAX_UINT64
    requires IsBst(t) && RoutesUpTo(Contents(t), SliceWidth(n), n)
    ensures route == Min(h / SliceWidth(n), n - 1)
  {
    WidthPositive(n);
    assert Times(0, SliceWidth(n)) in Contents(t);
    var floor := Trees.Floor(t, h);
    FloorIsQuotient(Contents(t), SliceWidth(n), n, h, floor.value.key);
    route := floor.value.value;
  }

  ghost function Route(h: int, n: int): int
    requires 0 < n <= MAX_INT
  {
    WidthPositive(n);
    Min(h / SliceWidth(n), n - 1)
  }

  /** Route `i` owns a slice of the given width; the last one owns what the division leaves over as well. */
  lemma RouteOwnsSlice(h: int, n: int, i: int)
    requires 0 < n <= MAX_INT && 0 <= i < n && 0 <= h <= MAX_UINT64
    ensures var x := SliceWidth(n);
      Route(h, n) == i <==> Times(i, x) <= h < if i < n - 1 then Times(i + 1, x) else MAX_UINT64 + 1
  {
    hide Times;
    WidthPositive(n);
    var x := SliceWidth(n);
    var q := h / x;
    Bracket(h, x);
    if i < n - 1 {
      if q < i { TimesMonotone(q + 1, i, x); }
      if i < q { TimesMonotone(i + 1, q, x); }
    } else {
      if q < i { TimesMonotone(q + 1, i, x); }
      if i <= q { TimesMonotone(i, q, x); }
    }
  }

  lemma Bracket(h: int, x: int)
    requires x > 0
    ensures Times(h / x, x) <= h < Times(h / x + 1, x)
  {
    DivMod(h, x);
    DistributeRight(h / x, 1, x);
  }

  lemma TimesMonotone(i: int, j: int, x: int)
    requires x > 0 && i <= j
    ensures Times(i, x) <= Times(j, x)
  {
    MulMonotone(i, j, x);
  }

  /** The last slice is wider than the others by one plus the remainder of the division. */
  lemma LastSliceWidth(n: int)
    requires 0 < n <= MAX_INT
    ensures var x := SliceWidth(n);
      MAX_UINT64 + 1 - Times(n - 1, x) == x + 1 + MAX_UINT64 % n
  {
    DivMod(MAX_UINT64, n);
    DistributeRight(n, 1, SliceWidth(n));
    Commute(n, SliceWidth(n));
  }
}

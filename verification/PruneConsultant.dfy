/** How many envelopes a truncation is asked to remove, in exact arithmetic instead of floating point. */
module PruneConsultants {

  const TWO_TO_THE_64 := 0x1_0000_0000_0000_0000

  /** The heap in use as a percentage of the memory limit; the product is a 64-bit one and wraps around. */
  function HeapPercentage(heap: nat, total: nat): real
    requires total > 0
  {
    ((heap * 100) % TWO_TO_THE_64) as real / total as real
  }

  function QuantityToPrune(heap: nat, total: nat, percentToFill: real, count: nat): int
    requires total > 0 && percentToFill >= 0.0
  {
    var h := HeapPercentage(heap, total);
    if h > percentToFill then (count as real * ((h - percentToFill) / h)).Floor else 0
  }

  function Ceil(x: real): int {
    -((-x).Floor)
  }

  lemma QuotientsAddUp(h: real, p: real)
    requires h > 0.0
    ensures (h - p) / h == 1.0 - p / h
    ensures (p / h) * h == p
  {
    var d, r := (h - p) / h, p / h;
    assert d * h == h - p && r * h == p;
    assert (1.0 - r) * h == h - p;
    CancelFactor(d, 1.0 - r, h);
  }

  lemma CancelFactor(a: real, b: real, h: real)
    requires h > 0.0 && a * h == b * h
    ensures a == b
  {
    if a < b {
      MulLess(h, a, b);
    } else if b < a {
      MulLess(h, b, a);
    }
  }

  lemma MulLess(h: real, a: real, b: real)
    requires h > 0.0 && a < b
    ensures h * a < h * b
  {
    assert h * (b - a) > 0.0;
  }

  lemma FractionIsSmall(h: real, p: real)
    requires 0.0 <= p < h
    ensures 0.0 <= p / h < 1.0
  {
  }

  lemma ScaleFraction(c: real, r: real)
    requires c >= 0.0 && 0.0 <= r < 1.0
    ensures 0.0 <= c * r <= c
  {
    assert c * (1.0 - r) >= 0.0;
  }

  /** What stays is the fraction `percentToFill / h` of the count, rounded up. */
  lemma KeepsFractionRoundedUp(heap: nat, total: nat, p: real, count: nat)
    requires total > 0 && 0.0 <= p < HeapPercentage(heap, total)
    ensures var q, h := QuantityToPrune(heap, total, p, count), HeapPercentage(heap, total);
      0 <= q <= count && count - q == Ceil(Times(count as real, p / h))
  {
    hide HeapPercentage;
    var h, c := HeapPercentage(heap, total), count as real;
    var r := p / h;
    QuotientsAddUp(h, p);
    FractionIsSmall(h, p);
    ScaleFraction(c, r);
    assert c * ((h - p) / h) == c * (1.0 - r) == c - c * r;
    FloorShift(count, c * r);
  }

  lemma FloorShift(n: int, x: real)
    ensures (n as real - x).Floor == n - Ceil(x)
  {
  }

  /** Multiplication under a name, so that a proof can treat a product as an atom. */
  function Times(a: real, b: real): real {
    a * b
  }

  lemma ScaleUnit(h: real, x: real, k: real)
    requires h > 0.0 && x <= k < x + 1.0
    ensures Times(h, x) <= Times(h, k) < Times(h, x) + h
  {
    var d := k - x;
    Unit(h, d);
    Split(h, x, d);
    assert x + d == k;
  }

  lemma Unit(h: real, d: real)
    requires h > 0.0 && 0.0 <= d < 1.0
    ensures 0.0 <= h * d < h
  {
    MulLess(h, d, 1.0);
  }

  lemma Split(h: real, x: real, d: real)
    ensures Times(h, x + d) == Times(h, x) + h * d
  {
  }

  lemma Rearrange(h: real, c: real, r: real)
    ensures h * (c * r) == c * (r * h)
  {
  }

  lemma ScaledTarget(h: real, p: real, c: real)
    requires h > 0.0
    ensures Times(h, Times(c, p / h)) == Times(c, p)
  {
    QuotientsAddUp(h, p);
    Rearrange(h, c, p / h);
  }

  lemma CeilBounds(x: real)
    ensures x <= Ceil(x) as real < x + 1.0
  {
  }

  lemma DivideBounds(p: real, h: real, k: real, c: real)
    requires c > 0.0 && Times(c, p) <= Times(h, k) < Times(c, p) + h
    ensures p <= h * k / c < p + h / c
  {
    DivideBoth(p, h * k, h, c);
  }

  lemma DivideBoth(p: real, b: real, h: real, c: real)
    requires c > 0.0 && c * p <= b < c * p + h
    ensures p <= b / c < p + h / c
  {
    var x, y := b / c, h / c;
    assert x * c == b && y * c == h;
    assert c * (p + y) == c * p + h;
    if x < p { MulLess(c, x, p); }
    if p + y < x { MulLess(c, p + y, x); }
  }

  /**
   One truncation by the recommended quantity brings the heap share, if it shrinks in proportion to the
   count, down to the target: never below it, and less than one envelope's share above it.
   */
  lemma OneTruncationReachesTarget(heap: nat, total: nat, p: real, count: nat)
    requires total > 0 && count > 0 && 0.0 <= p < HeapPercentage(heap, total)
    ensures var h := HeapPercentage(heap, total);
      var kept := count - QuantityToPrune(heap, total, p, count);
      p <= h * kept as real / count as real < p + h / count as real
  {
    hide HeapPercentage, QuantityToPrune, Times;
    var h := HeapPercentage(heap, total);
    KeepsFractionRoundedUp(heap, total, p, count);
    var kept := count - QuantityToPrune(heap, total, p, count);
    var x := Times(count as real, p / h);
    CeilBounds(x);
    ScaleUnit(h, x, kept as real);
    ScaledTarget(h, p, count as real);
    DivideBounds(p, h, kept as real, count as real);
  }

  /** Something is pruned exactly if the share exceeds the target by at least one envelope's part of it. */
  lemma PrunesIff(heap: nat, total: nat, p: real, count: nat)
    requires total > 0 && p >= 0.0
    ensures var h := HeapPercentage(heap, total);
      QuantityToPrune(heap, total, p, count) != 0 <==> h > p && Times(count as real, h - p) >= h
  {
    hide Times;
    var h := HeapPercentage(heap, total);
    if h > p {
      var r, c := (h - p) / h, count as real;
      assert r * h == h - p && r > 0.0;
      ScaledShare(c, r, h);
    }
  }

  lemma ScaledShare(c: real, r: real, h: real)
    requires c >= 0.0 && r > 0.0 && h > 0.0
    ensures (c * r).Floor != 0 <==> Times(c, r * h) >= h
  {
    var x := c * r;
    assert x >= 0.0;
    assert Times(c, r * h) == x * h;
    if x >= 1.0 {
      assert (x - 1.0) * h >= 0.0;
    } else {
      assert (1.0 - x) * h > 0.0;
    }
  }

  // ---------- in bytes ----------

  /** The reported percentage is 100 times the heap's share of the total, up to the wrap-around of the product. */
  lemma HeapPercentageIs(heap: nat, total: nat)
    requires total > 0
    ensures 100 * heap < TWO_TO_THE_64 ==> HeapPercentage(heap, total) * total as real == 100.0 * heap as real
    ensures HeapPercentage(heap, total) * total as real
      == (100 * heap - 100 * heap / 18_446_744_073_709_551_616 * 18_446_744_073_709_551_616) as real
  {
    var n := heap * 100;
    var x := n % TWO_TO_THE_64;
    MultiplyBack(x as real, total as real);
    assert HeapPercentage(heap, total) * total as real == x as real;
    hide HeapPercentage;
    assert x == n - n / TWO_TO_THE_64 * TWO_TO_THE_64;
    if n < TWO_TO_THE_64 {
      assert x == n;
      assert n as real == 100.0 * heap as real;
    }
  }

  lemma MultiplyBack(x: real, t: real)
    requires t > 0.0
    ensures x / t * t == x
  {
  }

  lemma ScaleAgain(h: real, t: real, b: real, x: real)
    requires h * t == b
    ensures b * x == t * (h * x)
  {
  }

  /**
   Unless the product wraps around: nothing is pruned while the heap is within `p` percent of the total, and above
   that the number of envelopes kept is `count * p * total / (100 * heap)`, rounded up.
   */
  lemma PrunesInBytes(heap: nat, total: nat, p: real, count: nat)
    requires total > 0 && p >= 0.0 && 100 * heap < 18_446_744_073_709_551_616
    ensures var q, b, t := QuantityToPrune(heap, total, p, count), 100.0 * heap as real, total as real;
      && (b <= p * t ==> q == 0)
      && (b > p * t ==> 0 <= q <= count && t * (count as real * p) <= b * (count - q) as real < t * (count as real * p) + b)
  {
    hide QuantityToPrune, HeapPercentage;
    var b, t, h := 100.0 * heap as real, total as real, HeapPercentage(heap, total);
    HeapPercentageIs(heap, total);
    if h > p {
      MulLess(t, p, h);
      KeepsRoundedUp(h, t, b, heap, total, p, count);
    } else {
      if h < p { MulLess(t, h, p); }
      WithinTarget(heap, total, p, count);
    }
  }

  lemma WithinTarget(heap: nat, total: nat, p: real, count: nat)
    requires total > 0 && p >= 0.0 && HeapPercentage(heap, total) <= p
    ensures QuantityToPrune(heap, total, p, count) == 0
  {
  }

  lemma KeepsRoundedUp(h: real, t: real, b: real, heap: nat, total: nat, p: real, count: nat)
    requires total > 0 && 0.0 <= p < h == HeapPercentage(heap, total) && t > 0.0 && h * t == b
    ensures var q := QuantityToPrune(heap, total, p, count);
      0 <= q <= count && t * (count as real * p) <= b * (count - q) as real < t * (count as real * p) + b
  {
    hide QuantityToPrune, HeapPercentage;
    KeepsFractionRoundedUp(heap, total, p, count);
    var c, x := count as real, Times(count as real, p / h);
    CeilBounds(x);
    MulLess(t, 0.0, h);
    ScaleUnit(b, x, (count - QuantityToPrune(heap, total, p, count)) as real);
    ScaledTarget(h, p, c);
    ScaleAgain(h, t, b, x);
  }
}

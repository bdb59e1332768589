/** The little number theory that replica placement needs. */
module Divisibility {

  /** `n` is `k` times `d`. */
  ghost predicate Divides(d: int, n: int) {
    exists k: int :: n == k * d
  }

  function Gcd(a: nat, b: nat): nat
    decreases b
  {
    if b == 0 then a else Gcd(b, a % b)
  }

  lemma DividesIntro(d: int, n: int, k: int)
    requires n == k * d
    ensures Divides(d, n)
  {
  }

  lemma DividesElim(d: int, n: int) returns (k: int)
    requires Divides(d, n)
    ensures n == k * d
  {
    k :| n == k * d;
  }

  lemma Assoc(a: int, b: int, c: int)
    ensures (a * b) * c == a * (b * c)
  {
  }

  lemma Commute(a: int, b: int)
    ensures a * b == b * a
  {
  }

  lemma DistributeRight(a: int, b: int, c: int)
    ensures (a + b) * c == a * c + b * c
    ensures (a - b) * c == a * c - b * c
  {
  }

  /** A linear combination of two multiples is a multiple. */
  lemma Combine(d: int, x: int, a: int, y: int, b: int)
    requires Divides(d, a) && Divides(d, b)
    ensures Divides(d, x * a + y * b)
  {
    var k := DividesElim(d, a);
    var l := DividesElim(d, b);
    Assoc(x, k, d);
    Assoc(y, l, d);
    DistributeRight(x * k, y * l, d);
    DividesIntro(d, x * a + y * b, x * k + y * l);
  }

  lemma DividesMultiple(d: int, x: int)
    ensures Divides(d, x * d)
  {
    DividesIntro(d, x * d, x);
  }

  lemma DivMod(a: int, b: int)
    requires b > 0
    ensures a == (a / b) * b + a % b
  {
  }

  /** The greatest common divisor divides both numbers and is a combination of them. */
  lemma {:induction false} Bezout(a: nat, b: nat) returns (x: int, y: int)
    requires a > 0
    ensures Gcd(a, b) > 0 && Divides(Gcd(a, b), a) && Divides(Gcd(a, b), b)
    ensures Gcd(a, b) == x * a + y * b
    decreases b
  {
    if b == 0 {
      x, y := 1, 0;
      DividesMultiple(a, 1);
      DividesMultiple(a, 0);
    } else {
      var q, r, g := a / b, a % b, Gcd(a, b);
      DivMod(a, b);
      var u, v := Bezout(b, r);
      Combine(g, q, b, 1, r);
      x, y := v, u - v * q;
      BezoutStep(a, b, q, r, u, v);
    }
  }

  lemma BezoutStep(a: int, b: int, q: int, r: int, u: int, v: int)
    requires a == q * b + r
    ensures u * b + v * r == v * a + (u - v * q) * b
  {
    Assoc(v, q, b);
    DistributeRight(u, v * q, b);
    assert v * a == v * (q * b) + v * r by { DistributeLeft(v, q * b, r); }
  }

  lemma DistributeLeft(a: int, b: int, c: int)
    ensures a * (b + c) == a * b + a * c
  {
  }

  /** Equal remainders mean that the difference is a multiple. */
  lemma SameRemainderIff(a: int, b: int, n: int)
    requires n > 0
    ensures a % n == b % n <==> Divides(n, b - a)
  {
    DivMod(a, n);
    DivMod(b, n);
    if a % n == b % n {
      DistributeRight(b / n, a / n, n);
      DividesIntro(n, b - a, b / n - a / n);
    } else if Divides(n, b - a) {
      var k := DividesElim(n, b - a);
      DistributeRight(b / n, a / n, n);
      DistributeRight(k, b / n - a / n, n);
      SmallMultiple(k - (b / n - a / n), n, b % n - a % n);
    }
  }

  lemma SmallMultiple(k: int, n: int, r: int)
    requires n > 0 && r == k * n && -n < r < n
    ensures r == 0
  {
    if k >= 1 {
      MulMonotone(1, k, n);
    } else if k <= -1 {
      MulMonotone(k, -1, n);
    }
  }

  lemma MulMonotone(a: int, b: int, n: int)
    requires a <= b && n >= 0
    ensures a * n <= b * n
  {
    DistributeRight(b, a, n);
    NonNegative(b - a, n);
  }

  lemma NonNegative(a: int, b: int)
    requires a >= 0 && b >= 0
    ensures a * b >= 0
  {
  }

  lemma MulStrict(a: int, b: int, n: int)
    requires a < b && n > 0
    ensures a * n < b * n
  {
    MulMonotone(a + 1, b, n);
    DistributeRight(a, 1, n);
  }

  /** A positive multiple is at least as large as its divisor. */
  lemma PositiveMultiple(d: int, n: int)
    requires d > 0 && n > 0 && Divides(d, n)
    ensures d <= n
  {
    var k := DividesElim(d, n);
    if k <= 0 { MulMonotone(k, 0, d); }
    MulMonotone(1, k, d);
  }
}

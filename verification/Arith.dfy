/** Powers, Euclidean division and congruences: the few facts the other modules share. */
module Arith {

  function Pow(b: nat, e: nat): (p: nat)
  {
    if e == 0 then 1 else b * Pow(b, e - 1)
  }

  function Pow2(e: nat): (p: nat)
    ensures p > 0
  {
    PowPositive(2, e);
    Pow(2, e)
  }

  lemma {:induction false} PowPositive(b: nat, e: nat)
    requires b > 0
    ensures Pow(b, e) > 0
  {
    if e > 0 {
      PowPositive(b, e - 1);
      MulPositive(b, Pow(b, e - 1));
    }
  }

  lemma {:induction false} PowAdd(b: nat, m: nat, n: nat)
    ensures Pow(b, m + n) == Pow(b, m) * Pow(b, n)
  {
    if m > 0 {
      PowAdd(b, m - 1, n);
      MulAssoc(b, Pow(b, m - 1), Pow(b, n));
    }
  }

  lemma {:induction false} PowMul(b: nat, m: nat, n: nat)
    ensures Pow(b, m * n) == Pow(Pow(b, m), n)
  {
    if n > 0 {
      PowMul(b, m, n - 1);
      MulDistrib(m, n - 1, 1);
      PowAdd(b, m, m * (n - 1));
      assert m * n == m + m * (n - 1);
    }
  }

  lemma {:induction false} PowMonotone(b: nat, m: nat, n: nat)
    requires b > 0 && m <= n
    ensures Pow(b, m) <= Pow(b, n)
  {
    PowAdd(b, m, n - m);
    PowPositive(b, n - m);
    MulMonotone(1, Pow(b, n - m), Pow(b, m));
  }

  lemma MulPositive(a: int, b: int)
    requires a > 0 && b > 0
    ensures a * b > 0
  {
  }

  lemma MulAssoc(a: int, b: int, c: int)
    ensures a * b * c == a * (b * c)
  {
  }

  lemma MulDistrib(a: int, b: int, c: int)
    ensures a * (b + c) == a * b + a * c
  {
  }

  lemma MulMonotone(a: int, b: int, c: int)
    requires a <= b && 0 <= c
    ensures a * c <= b * c && c * a <= c * b
  {
  }

  /** A quotient and remainder in range are the quotient and remainder. */
  lemma DivModUnique(x: int, d: int, q: int, r: int)
    requires d > 0 && 0 <= r < d && x == q * d + r
    ensures x / d == q && x % d == r
  {
    var q', r' := x / d, x % d;
    assert x == q' * d + r';
    if q' > q {
      MulMonotone(q + 1, q', d);
    } else if q' < q {
      MulMonotone(q' + 1, q, d);
    }
  }

  lemma DivModFacts(x: int, d: int)
    requires d > 0
    ensures x == (x / d) * d + x % d && 0 <= x % d < d
  {
  }

  lemma ModOfMultiple(x: int, k: int, d: int)
    requires d > 0
    ensures (x + k * d) % d == x % d
  {
    DivModFacts(x, d);
    var q := x / d;
    assert x + k * d == (q + k) * d + x % d;
    DivModUnique(x + k * d, d, q + k, x % d);
  }

  /** x and y leave the same remainder modulo m. */
  ghost predicate Congruent(x: int, y: int, m: int)
  {
    exists k: int :: x == y + Scaled(k, m)
  }

  function Scaled(k: int, m: int): int { k * m }

  lemma CongruentBy(x: int, y: int, m: int, k: int)
    requires x == y + k * m
    ensures Congruent(x, y, m)
  {
    assert x == y + Scaled(k, m);
  }

  lemma CongruentAdd(x: int, y: int, u: int, v: int, m: int)
    requires Congruent(x, y, m) && Congruent(u, v, m)
    ensures Congruent(x + u, y + v, m)
  {
    var k :| x == y + Scaled(k, m);
    var l :| u == v + Scaled(l, m);
    CongruentBy(x + u, y + v, m, k + l);
  }

  lemma CongruentScale(x: int, y: int, u: int, m: int)
    requires Congruent(x, y, m)
    ensures Congruent(x * u, y * u, m) && Congruent(u * x, u * y, m)
  {
    var k :| x == y + Scaled(k, m);
    calc {
      x * u;
      (y + k * m) * u;
      y * u + (k * m) * u;
      { assert (k * m) * u == (k * u) * m; }
      y * u + (k * u) * m;
    }
    CongruentBy(x * u, y * u, m, k * u);
  }

  lemma CongruentMul(x: int, y: int, u: int, v: int, m: int)
    requires Congruent(x, y, m) && Congruent(u, v, m)
    ensures Congruent(x * u, y * v, m)
  {
    CongruentScale(x, y, u, m);
    CongruentScale(u, v, y, m);
    CongruentTrans(x * u, y * u, y * v, m);
  }

  lemma CongruentRefl(x: int, m: int)
    ensures Congruent(x, x, m)
  {
    CongruentBy(x, x, m, 0);
  }

  lemma CongruentSym(x: int, y: int, m: int)
    requires Congruent(x, y, m)
    ensures Congruent(y, x, m)
  {
    var k :| x == y + Scaled(k, m);
    CongruentBy(y, x, m, -k);
  }

  lemma CongruentTrans(x: int, y: int, z: int, m: int)
    requires Congruent(x, y, m) && Congruent(y, z, m)
    ensures Congruent(x, z, m)
  {
    var k :| x == y + Scaled(k, m);
    var l :| y == z + Scaled(l, m);
    CongruentBy(x, z, m, k + l);
  }

  lemma CongruentMod(x: int, m: int)
    requires m > 0
    ensures Congruent(x % m, x, m)
  {
    DivModFacts(x, m);
    CongruentBy(x % m, x, m, -(x / m));
  }

  /** Congruence is equality of remainders. */
  lemma CongruentIffSameMod(x: int, y: int, m: int)
    requires m > 0
    ensures Congruent(x, y, m) <==> x % m == y % m
  {
    if Congruent(x, y, m) {
      var k :| x == y + Scaled(k, m);
      ModOfMultiple(y, k, m);
    }
    if x % m == y % m {
      CongruentMod(x, m);
      CongruentMod(y, m);
      CongruentSym(x % m, x, m);
      CongruentTrans(x, x % m, y, m);
    }
  }
}

/** mbedtls_int_div_int without a double-width type: two quotient digits of half a limb each. */
module HalfLimbs {
  import opened Arith
  import opened Limbs
  import opened MpiShift
  import opened MpiDivide

  // ---------------------------------------------------------------- one digit

  /** The dividend n = u1 * radix + u0 and a normalized divisor d of two half limbs. */
  predicate HalfDivision(u1: nat, u0: nat, d: nat, d1: nat, d0: nat, radix: nat)
  {
    && radix > 1 && d == d1 * radix + d0 && d0 < radix && radix <= 2 * d1 && d1 < radix
    && u1 < d && u0 < radix
  }

  /** A guess that is not too small, with what it leaves of u1. */
  predicate Guess(u1: nat, u0: nat, d: nat, d1: nat, d0: nat, radix: nat, q: nat, r: int)
  {
    && HalfDivision(u1, u0, d, d1, d0, radix) && 0 <= r == u1 - d1 * q && q <= radix + 1
    && u1 * radix + u0 < (q + 1) * d
  }

  /** The loop's test, in limbs that wrap. */
  function TooLarge(q: nat, r: int, d0: nat, u0: nat, radix: nat): bool
    requires radix > 0
  {
    q >= radix || Wrapped(q * d0, radix) > Wrapped(radix * r + u0, radix)
  }

  function Wrapped(x: int, radix: nat): nat
    requires radix > 0
  {
    MulPositive(radix, radix);
    DivModFacts(x, radix * radix);
    x % (radix * radix)
  }

  lemma NoWrap(x: int, radix: nat)
    requires 0 <= x < radix * radix
    ensures radix > 0 && Wrapped(x, radix) == x
  {
    if radix == 0 {
      assert false;
    }
    DivModUnique(x, radix * radix, 0, x);
  }

  /** Neither side of the test wraps. */
  lemma TestFits(q: nat, r: nat, d0: nat, u0: nat, radix: nat)
    requires q < radix && r < radix && d0 < radix && u0 < radix
    ensures Wrapped(q * d0, radix) == q * d0 && Wrapped(radix * r + u0, radix) == radix * r + u0
  {
    MulMonotone(0, q, d0);
    MulMonotone(q, radix, d0);
    MulMonotone(d0 + 1, radix, radix);
    MulMonotone(r + 1, radix, radix);
    MulMonotone(0, r, radix);
    MulDistrib(radix, r, 1);
    MulDistrib(radix, d0, 1);
    NoWrap(q * d0, radix);
    NoWrap(radix * r + u0, radix);
  }

  lemma TestIsExact(u1: nat, u0: nat, d: nat, d1: nat, d0: nat, radix: nat, q: nat, r: int)
    requires HalfDivision(u1, u0, d, d1, d0, radix) && 0 <= r == u1 - d1 * q < radix
    ensures TooLarge(q, r, d0, u0, radix) <==> q * d > u1 * radix + u0
  {
    if q >= radix {
      PairBelow(u1, u0, d, q, radix);
    } else {
      LeftOver(u1, d, d1, d0, radix, q, r);
      TestFits(q, r, d0, u0, radix);
    }
  }

  lemma LeftOver(u1: nat, d: nat, d1: nat, d0: nat, radix: nat, q: nat, r: int)
    requires d == d1 * radix + d0 && r == u1 - d1 * q
    ensures q * d0 - radix * r == q * d - u1 * radix
  {
    assert q * (d1 * radix + d0) == (d1 * q) * radix + q * d0;
    assert radix * (u1 - d1 * q) == u1 * radix - (d1 * q) * radix;
  }

  /** The first guess is at most two too large for a half limb, and never too small. */
  lemma FirstGuess(u1: nat, u0: nat, d: nat, d1: nat, d0: nat, radix: nat)
    requires HalfDivision(u1, u0, d, d1, d0, radix)
    ensures u1 / d1 >= 0 && u1 - d1 * (u1 / d1) < radix
    ensures Guess(u1, u0, d, d1, d0, radix, u1 / d1, u1 - d1 * (u1 / d1))
  {
    var q := u1 / d1;
    DivModFacts(u1, d1);
    MulDistrib(d1, radix, 2);
    QuotientBelow(u1, q, u1 % d1, d1, radix + 2);
    NotTooSmall(u1, u0, d, d1, d0, radix, q, u1 % d1);
  }

  lemma NotTooSmall(u1: nat, u0: nat, d: nat, d1: nat, d0: nat, radix: nat, q: nat, r: nat)
    requires HalfDivision(u1, u0, d, d1, d0, radix) && u1 == q * d1 + r && r < d1
    ensures u1 * radix + u0 < (q + 1) * d
  {
    MulDistrib(d1, q, 1);
    AboveLeading(u1, u0, q + 1, d1, radix);
    MulMonotone(d1 * radix, d, q + 1);
  }

  lemma AboveLeading(u1: nat, u0: nat, q: nat, d1: nat, radix: nat)
    requires u0 < radix && u1 + 1 <= q * d1
    ensures u1 * radix + u0 < q * (d1 * radix)
  {
    MulMonotone(u1 + 1, q * d1, radix);
    MulDistrib(radix, u1, 1);
    MulAssoc(q, d1, radix);
  }

  /** A smaller guess; once its remainder is a half limb or more, it needs no test. */
  lemma NextGuess(u1: nat, u0: nat, d: nat, d1: nat, d0: nat, radix: nat, q: nat, r: int)
    requires Guess(u1, u0, d, d1, d0, radix, q, r) && q * d > u1 * radix + u0
    ensures q > 0 && Guess(u1, u0, d, d1, d0, radix, q - 1, r + d1)
    ensures (r + d1 < radix && TooLarge(q - 1, r + d1, d0, u0, radix)) <==> (q - 1) * d > u1 * radix + u0
  {
    MulDistrib(d1, q - 1, 1);
    if r + d1 < radix {
      TestIsExact(u1, u0, d, d1, d0, radix, q - 1, r + d1);
    } else {
      MulMonotone(q - 1, radix, d0);
      MulMonotone(d0, r + d1, radix);
      LeftOver(u1, d, d1, d0, radix, q - 1, r + d1);
    }
  }

  lemma ExactGuess(u1: nat, u0: nat, d: nat, d1: nat, d0: nat, radix: nat, q: nat, r: int)
    requires Guess(u1, u0, d, d1, d0, radix, q, r) && q * d <= u1 * radix + u0
    ensures q == (u1 * radix + u0) / d && q < radix
  {
    if q >= radix {
      PairBelow(u1, u0, d, q, radix);
    }
    QuotientFound(u1 * radix + u0, d, q);
  }

  lemma QuotientFound(n: nat, d: nat, q: nat)
    requires q * d <= n < (q + 1) * d
    ensures d > 0 && q == n / d
  {
    MulDistrib(d, q, 1);
    DivModUnique(n, d, q, n - q * d);
  }

  lemma PairBelow(u1: nat, u0: nat, d: nat, q: nat, radix: nat)
    requires u1 < d && u0 < radix <= q
    ensures u1 * radix + u0 < q * d
  {
    MulMonotone(u1 + 1, d, radix);
    MulMonotone(radix, q, d);
    MulDistrib(radix, u1, 1);
  }

  /** One digit: the guess from the leading half limb, lowered while it is too large. */
  method HalfDigit(u1: nat, u0: nat, d: nat, d1: nat, d0: nat, radix: nat) returns (q: nat)
    requires HalfDivision(u1, u0, d, d1, d0, radix)
    ensures q == (u1 * radix + u0) / d && q < radix
  {
    FirstGuess(u1, u0, d, d1, d0, radix);
    q := u1 / d1;
    var r := u1 - d1 * q;
    TestIsExact(u1, u0, d, d1, d0, radix, q, r);
    var again := TooLarge(q, r, d0, u0, radix);
    while again
      invariant Guess(u1, u0, d, d1, d0, radix, q, r)
      invariant again <==> q * d > u1 * radix + u0
      decreases q
    {
      NextGuess(u1, u0, d, d1, d0, radix, q, r);
      q := q - 1;
      r := r + d1;
      again := r < radix && TooLarge(q, r, d0, u0, radix);
    }
    ExactGuess(u1, u0, d, d1, d0, radix, q, r);
  }

  // ---------------------------------------------------------------- both digits

  /** Each digit leaves a remainder, and the second digit divides the first remainder. */
  lemma TwoDigits(v1: nat, m1: nat, m0: nat, d: nat, radix: nat, q1: nat, r1: int, q0: nat, r0: int)
    requires v1 * radix + m1 == q1 * d + r1 && r1 * radix + m0 == q0 * d + r0
    ensures v1 * (radix * radix) + (m1 * radix + m0) == (q1 * radix + q0) * d + r0
  {
    MulAssoc(v1, radix, radix);
    MulDistrib(radix, v1 * radix, m1);
    MulDistrib(radix, q1 * d, r1);
    assert (q1 * d) * radix == (q1 * radix) * d;
    MulDistrib(d, q1 * radix, q0);
  }

  /** A remainder computed in wrapping limbs. */
  lemma WrappedRemainder(n: nat, d: nat, q: nat, radix: nat)
    requires 0 < d <= radix * radix && q == n / d && radix > 0
    ensures Wrapped(n - q * d, radix) == n - q * d == n % d
  {
    DivModFacts(n, d);
    NoWrap(n - q * d, radix);
  }

  /** Quotient and remainder of a normalized division. */
  method DivideHalves(v1: nat, v0: nat, d: nat, radix: nat) returns (q: nat, r: nat)
    requires radix > 1 && radix % 2 == 0 && v1 < d < radix * radix && radix * radix <= 2 * d && v0 < radix * radix
    ensures q == (v1 * (radix * radix) + v0) / d && r == (v1 * (radix * radix) + v0) % d
  {
    var d1, d0 := CutLimb(d, radix);
    var m1, m0 := CutLimb(v0, radix);
    TopHalf(d, d1, d0, radix);
    var q1 := HalfDigit(v1, m1, d, d1, d0, radix);
    WrappedRemainder(v1 * radix + m1, d, q1, radix);
    var rax := Wrapped(v1 * radix + m1 - q1 * d, radix);
    var q0 := HalfDigit(rax, m0, d, d1, d0, radix);
    WrappedRemainder(rax * radix + m0, d, q0, radix);
    r := Wrapped(rax * radix + m0 - q0 * d, radix);
    q := q1 * radix + q0;
    TwoDigits(v1, m1, m0, d, radix, q1, rax, q0, r);
    DivModUnique(v1 * (radix * radix) + v0, d, q, r);
  }

  method CutLimb(x: nat, radix: nat) returns (x1: nat, x0: nat)
    requires radix > 0 && x < radix * radix
    ensures x == x1 * radix + x0 && x1 < radix && x0 < radix
  {
    DivModFacts(x, radix);
    QuotientBelow(x, x / radix, x % radix, radix, radix);
    x1, x0 := x / radix, x % radix;
  }

  lemma TopHalf(d: nat, d1: nat, d0: nat, radix: nat)
    requires d == d1 * radix + d0 && d0 < radix && radix * radix <= 2 * d && radix > 0 && radix % 2 == 0
    ensures radix <= 2 * d1
  {
    if radix > 2 * d1 + 1 {
      MulMonotone(2 * d1 + 2, radix, radix);
    }
  }

  // ---------------------------------------------------------------- mbedtls_int_div_int

  /** The dividend shifted by s bits; a limb shifted out whole is masked away. */
  method ShiftPair(u1: nat, u0: nat, d: nat, s: nat, bits: nat, base: nat) returns (v1: nat, v0: nat)
    requires s < bits && base == Pow2(bits) && u1 < d && u0 < base
    ensures v1 < d * Pow2(s) && v0 < base && v1 * base + v0 == (u1 * base + u0) * Pow2(s)
  {
    var high, low := 0, u0;
    if s > 0 {
      PowPositive(2, s);
      low, high := ShiftLimb(u0, 0, s, bits, base);
    } else {
      assert Pow2(0) == 1;
    }
    v1, v0 := u1 * Pow2(s) + high, low;
    JoinedPair(u1, u0, d, high, low, Pow2(s), base);
  }

  lemma JoinedPair(u1: nat, u0: nat, d: nat, high: nat, low: nat, p: nat, base: nat)
    requires u1 < d && high < p && low + base * high == u0 * p
    ensures u1 * p + high < d * p && (u1 * p + high) * base + low == (u1 * base + u0) * p
  {
    MulMonotone(u1 + 1, d, p);
    MulDistrib(p, u1, 1);
    MulDistrib(base, u1 * p, high);
    MulDistrib(p, u1 * base, u0);
    assert (u1 * p) * base == (u1 * base) * p;
  }

  lemma Radix(h: nat)
    requires h > 0
    ensures Pow2(h) > 1 && Pow2(h) % 2 == 0
    ensures Pow2(2 * h) == Pow2(h) * Pow2(h)
  {
    PowAdd(2, h, h);
    Doubled(Pow2(h), h);
  }

  lemma Doubled(x: nat, h: nat)
    requires h > 0 && x == Pow2(h)
    ensures x > 1 && x % 2 == 0
  {
    PowPositive(2, h - 1);
    DivModUnique(x, 2, Pow2(h - 1), 0);
  }

  /** The divisor with its top bit set. */
  lemma TopBitSet(d: nat, s: nat, bits: nat)
    requires s < bits && Pow2(bits - s - 1) <= d < Pow2(bits - s)
    ensures d * Pow2(s) < Pow2(bits) <= 2 * (d * Pow2(s)) && Pow2(s) > 0 && d > 0
  {
    ShiftedBounds(d, s, bits - s);
    PowPositive(2, s);
    PowPositive(2, bits - s - 1);
    assert Pow2(bits) == 2 * Pow2(bits - 1);
  }

  /** mbedtls_int_div_int in halves, with its remainder: what the double-width form computes. */
  method IntDivHalves(u1: nat, u0: nat, d: nat, h: nat) returns (q: nat, r: nat)
    requires h > 0 && u1 < Pow2(2 * h) && u0 < Pow2(2 * h) && d < Pow2(2 * h)
    ensures d == 0 || u1 >= d ==> q == r == Pow2(2 * h) - 1
    ensures 0 < d && u1 < d ==> q == (u1 * Pow2(2 * h) + u0) / d && r == (u1 * Pow2(2 * h) + u0) % d
  {
    var base := Pow2(2 * h);
    if d == 0 || u1 >= d {
      return base - 1, base - 1;
    }
    Radix(h);
    var s := LeadingZeros(d, 2 * h);
    TopBitSet(d, s, 2 * h);
    var v1, v0 := ShiftPair(u1, u0, d, s, 2 * h, base);
    q, r := DivideHalves(v1, v0, d * Pow2(s), Pow2(h));
    DivModFacts(v1 * base + v0, d * Pow2(s));
    Unscaled(u1 * base + u0, d, Pow2(s), q, r);
    r := r / Pow2(s);
  }
}

/** The arithmetic of schoolbook long division: how far the leading limbs of dividend and divisor
    determine a quotient digit. */
module LongDivision {
  import opened Arith
  import opened Limbs
  import opened MpiRows

  // ---------------------------------------------------------------- leading limbs

  lemma PrefixAndTop(s: seq<nat>, k: nat, base: nat)
    requires k < |s| && IsLimbs(s, base) && base > 0 && Val(s, base) < Pow(base, k + 1)
    ensures Val(s, base) == Val(s[..k], base) + Pow(base, k) * s[k] && Val(s[..k], base) < Pow(base, k)
  {
    SmallHasZeros(s, k + 1, base);
    ValTrim(s, k + 1, base);
    ValPrefixNext(s, k, base);
    ValBound(s[..k], base);
  }

  /** The limb at place k and the one below it, which is zero below the vector. */
  function TwoLimbs(s: seq<nat>, k: nat, base: nat): nat
    requires k < |s|
  {
    (if k < 1 then 0 else s[k - 1]) + base * s[k]
  }

  /** The limb at place k > 0 and the two below it. */
  function ThreeLimbs(s: seq<nat>, k: nat, base: nat): nat
    requires 0 < k < |s|
  {
    (if k < 2 then 0 else s[k - 2]) + base * s[k - 1] + base * base * s[k]
  }

  /** The two leading limbs, as bounds of the number times the base. */
  lemma TwoLimbsBound(s: seq<nat>, k: nat, base: nat)
    requires k < |s| && IsLimbs(s, base) && base > 0 && Val(s, base) < Pow(base, k + 1)
    ensures var f := Pow(base, k);
            TwoLimbs(s, k, base) * f <= Val(s, base) * base < (TwoLimbs(s, k, base) + 1) * f
  {
    PrefixAndTop(s, k, base);
    if k > 0 {
      ValPrefixNext(s, k - 1, base);
      ValBound(s[..k - 1], base);
      assert s[..k][..k - 1] == s[..k - 1];
      SpreadTwo(Val(s[..k - 1], base), s[k - 1], s[k], Pow(base, k - 1), base);
    } else {
      assert Pow(base, 0) == 1 && s[..0] == [];
    }
  }

  lemma SpreadTwo(low: nat, x: nat, y: nat, p: nat, base: nat)
    requires low < p && base > 0
    ensures var v := low + p * x + (base * p) * y;
            (x + base * y) * (base * p) <= v * base < (x + base * y + 1) * (base * p)
  {
    ThreePlaces(x, y, 0, p, base);
    LowPart(low, x + base * y, p, base);
  }

  /** The two leading limbs of a dividend, as bounds of the number itself. */
  lemma LeadingPair(s: seq<nat>, k: nat, base: nat)
    requires 0 < k < |s| && IsLimbs(s, base) && base > 0 && Val(s, base) < Pow(base, k + 1)
    ensures Val(s, base) < (s[k] * base + s[k - 1] + 1) * Pow(base, k - 1)
  {
    PrefixAndTop(s, k, base);
    ValPrefixNext(s, k - 1, base);
    ValBound(s[..k - 1], base);
    PairPlaces(s[k], s[k - 1], Pow(base, k - 1), base);
  }

  lemma PairPlaces(y: int, x: int, p: int, base: int)
    ensures (y * base + x + 1) * p == (base * p) * y + p * x + p
  {
    assert (y * base) * p == (base * p) * y;
    assert (y * base + x + 1) * p == (y * base) * p + x * p + p;
  }

  /** The three leading limbs of a dividend, as bounds of the number times the base. */
  lemma ThreeLimbsBound(s: seq<nat>, k: nat, base: nat)
    requires 0 < k < |s| && IsLimbs(s, base) && base > 0 && Val(s, base) < Pow(base, k + 1)
    ensures var g := Pow(base, k - 1);
            ThreeLimbs(s, k, base) * g <= Val(s, base) * base < (ThreeLimbs(s, k, base) + 1) * g
  {
    PrefixAndTop(s, k, base);
    ValPrefixNext(s, k - 1, base);
    if k > 1 {
      ValPrefixNext(s, k - 2, base);
      ValBound(s[..k - 2], base);
      SpreadThree(Val(s[..k - 2], base), s[k - 2], s[k - 1], s[k], Pow(base, k - 2), base);
    } else {
      assert Pow(base, 0) == 1 && s[..0] == [];
      assert Val(s, base) == s[0] + base * s[1];
    }
  }

  lemma SpreadThree(low: nat, x: nat, y: nat, z: nat, p: nat, base: nat)
    requires low < p && base > 0
    ensures var v, w := low + p * x + (base * p) * y + (base * (base * p)) * z, x + base * y + base * base * z;
            w * (base * p) <= v * base < (w + 1) * (base * p)
  {
    var w := x + base * y + base * base * z;
    ThreePlaces(x, y, z, p, base);
    LowPart(low, w, p, base);
  }

  lemma ThreePlaces(x: int, y: int, z: int, p: int, base: int)
    ensures p * (x + base * y + base * base * z) == p * x + (base * p) * y + (base * (base * p)) * z
  {
    assert p * (base * y) == (base * p) * y;
    assert p * (base * base * z) == (base * (base * p)) * z;
    MulDistrib(p, x + base * y, base * base * z);
    MulDistrib(p, x, base * y);
  }

  lemma LowPart(low: nat, w: nat, p: nat, base: nat)
    requires low < p && base > 0
    ensures w * (base * p) <= (low + p * w) * base < (w + 1) * (base * p)
  {
    assert (low + p * w) * base == low * base + w * (base * p);
    MulMonotone(low + 1, p, base);
    assert (w + 1) * (base * p) == w * (base * p) + base * p;
  }

  // ---------------------------------------------------------------- one quotient digit

  /** Dividing the two leading limbs by the divisor's leading limb never gives too little. */
  lemma EstimateNotBelow(x: nat, y: nat, f: nat, e: nat, pair: nat, top: nat, q: nat)
    requires f > 0 && e > 0 && x < (pair + 1) * (f * e) && top * f <= y && q * (y * e) <= x
    ensures q * top <= pair
  {
    assert (q * top) * (f * e) == (q * e) * (top * f);
    assert (q * e) * y == q * (y * e);
    MulMonotone(top * f, y, q * e);
    BelowFactor(q * top, pair, f * e);
  }

  /** The true digit passes the test with three and two limbs. */
  lemma DigitPassesTest(x: nat, y: nat, f: nat, e: nat, three: nat, two: nat, q: nat, base: nat)
    requires f > 0 && e > 0 && two * f <= y * base && x * base < (three + 1) * (f * e) && q * (y * e) <= x
    ensures q * two <= three
  {
    assert (q * two) * (f * e) == (q * e) * (two * f);
    assert (q * e) * (y * base) == (q * (y * e)) * base;
    MulMonotone(two * f, y * base, q * e);
    MulMonotone(q * (y * e), x, base);
    BelowFactor(q * two, three, f * e);
  }

  lemma BelowFactor(a: int, b: int, c: int)
    requires c >= 0 && a * c < (b + 1) * c
    ensures a <= b
  {
    if a > b { MulMonotone(b + 1, a, c); }
  }

  /** A digit that passes the test is at most one too large. */
  lemma TestIsClose(x: nat, y: nat, f: nat, e: nat, three: nat, two: nat, z: nat, base: nat)
    requires e > 0 && f <= y && z < base && z * two <= three
    requires y * base < (two + 1) * f && three * (f * e) <= x * base
    ensures z * (y * e) <= x + y * e
  {
    var g := f * e;
    MulMonotone(y * base, (two + 1) * f, z * e);
    assert (z * e) * (y * base) == (z * (y * e)) * base;
    assert (z * e) * ((two + 1) * f) == (z * two) * g + z * g;
    MulMonotone(z * two, three, g);
    MulMonotone(z, base, g);
    MulMonotone(f, y, e);
    assert (z * (y * e)) * base <= (x + g) * base by { assert (x + g) * base == x * base + g * base; }
    CancelFactor(z * (y * e), x + g, base);
  }

  lemma CancelFactor(a: int, b: int, c: int)
    requires c > 0 && a * c <= b * c
    ensures a <= b
  {
    if a > b { MulMonotone(b + 1, a, c); }
  }

  /** The digit exists: the quotient of a dividend below base times the shifted divisor. */
  lemma TrueDigit(x: nat, w: nat, base: nat) returns (q: nat)
    requires 0 < w && x < base * w
    ensures q < base && q * w <= x < (q + 1) * w
  {
    DivModFacts(x, w);
    if x / w < 0 { MulMonotone(x / w, -1, w); }
    if x / w >= base { MulMonotone(base, x / w, w); }
    q := x / w;
  }
}

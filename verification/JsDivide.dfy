/** The 64-bit multiply, shift and divide routines of jslong.c on pairs of 32-bit words. */
module JsDivide {
  import opened Arith
  import opened Platform
  import opened Bits
  import opened JsLong

  const H: int := T16

  // ---------------------------------------------------------------- multiply

  lemma HalfWordProduct(a: int, b: int)
    requires 0 <= a < H && 0 <= b < H
    ensures 0 <= a * b <= (H - 1) * (H - 1)
  {
    MulMonotone(0, a, b);
    MulMonotone(a, H - 1, b);
  }

  lemma HalfWords(a: int, b: int, a1: int, a0: int, b1: int, b0: int)
    requires a == a1 * H + a0 && b == b1 * H + b0
    ensures a * b == (a1 * b1) * W + (a0 * b1 + a1 * b0) * H + a0 * b0
  {
    assert (a1 * H) * (b1 * H) == (a1 * b1) * W;
    assert (a1 * H) * b0 == (a1 * b0) * H;
    assert a0 * (b1 * H) == (a0 * b1) * H;
    MulDistrib(a1 * H + a0, b1 * H, b0);
  }

  /** The cross sums of jsll_mul32: y1 + (y0 >> 16) cannot carry, adding y2 might, and the
      comparison recovers that carry into y3. */
  method CombineProducts(y0: Word, y1: Word, y2: Word, y3: Word) returns (r: U64)
    requires y0 <= (H - 1) * (H - 1) && y1 <= (H - 1) * (H - 1) && y2 <= (H - 1) * (H - 1)
    requires y3 <= (H - 1) * (H - 1)
    requires y3 * W + (y1 + y2) * H + y0 < W64
    ensures r.Value() == y3 * W + (y1 + y2) * H + y0
  {
    var z1: Word := y1 + y0 / H;
    ghost var c := if z1 + y2 >= W then 1 else 0;
    WrapIs(z1 + y2, c);
    z1 := Wrap(z1 + y2);
    var z3: Word := y3;
    if z1 < y2 {
      z3 := z3 + H;
    }
    var lo: Word := (z1 % H) * H + y0 % H;
    WrapIs(z3 + z1 / H, 0);
    r := U64(Wrap(z3 + z1 / H), lo);
  }

  /** jsll_mul32. */
  method Mul32(a: Word, b: Word) returns (r: U64)
    ensures r.Value() == a * b
  {
    var a1, a0 := a / H, a % H;
    var b1, b0 := b / H, b % H;
    HalfWordProduct(a0, b0);
    HalfWordProduct(a0, b1);
    HalfWordProduct(a1, b0);
    HalfWordProduct(a1, b1);
    HalfWords(a, b, a1, a0, b1, b0);
    ProductRange(a, b);
    r := CombineProducts(a0 * b0, a0 * b1, a1 * b0, a1 * b1);
  }

  lemma ProductRange(a: Word, b: Word)
    ensures 0 <= a * b < W64
  {
    MulMonotone(0, a, b);
    MulMonotone(a, W - 1, b);
  }

  lemma LowProduct(a: U64, b: U64)
    ensures a.Value() * b.Value()
         == (a.hi * b.hi) * W64 + (a.hi * b.lo + a.lo * b.hi) * W + a.lo * b.lo
  {
    assert (a.hi * W) * (b.hi * W) == (a.hi * b.hi) * W64;
    assert (a.hi * W) * b.lo == (a.hi * b.lo) * W;
    assert a.lo * (b.hi * W) == (a.lo * b.hi) * W;
    MulDistrib(a.hi * W + a.lo, b.hi * W, b.lo);
  }

  /** jsll_mul: the low 64 bits of the product. */
  method Mul(a: U64, b: U64) returns (r: U64)
    ensures r.Value() == (a.Value() * b.Value()) % W64
  {
    r := Mul32(a.lo, b.lo);
    var cross := a.hi * b.lo + a.lo * b.hi;
    ghost var p := r.Value();
    LowProduct(a, b);
    HighSum(a.hi * b.hi, cross, p, r.hi, r.lo);
    r := U64(Wrap(r.hi + cross), r.lo);
  }

  lemma HighSum(top: int, cross: int, p: int, hi: Word, lo: Word)
    requires p == hi * W + lo
    ensures U64(Wrap(hi + cross), lo).Value() == (top * W64 + cross * W + p) % W64
  {
    DivModFacts(hi + cross, W);
    var k := (hi + cross) / W;
    ModW64(top * W64 + cross * W + p, U64(Wrap(hi + cross), lo).Value(), top + k);
  }

  // ---------------------------------------------------------------- one normalized step

  /** Dividing by the top half overestimates the quotient digit by at most two. */
  lemma DigitBounds(u: int, b: int, d1: int, d0: int, q1: int)
    requires HALF <= b < W && d1 == b / H && d0 == b % H && 0 <= u < b
    requires q1 == u / d1
    ensures 0 <= q1 <= H + 1
    ensures 0 <= q1 * d0 < W && q1 * d0 < 2 * b
  {
    DivModFacts(u, d1);
    if q1 >= H + 2 {
      MulMonotone(H + 2, q1, d1);
    }
    if q1 < 0 {
      MulMonotone(q1, -1, d1);
    }
    MulMonotone(q1, H + 1, d0);
    MulMonotone(0, q1, d0);
  }

  /** What the two corrections leave: the digit and remainder of (u * 2^16 + x) / b. */
  lemma DigitExact(u: int, x: int, b: int, q: int, r: int)
    requires 0 <= u < b && 0 <= x < H && 0 <= r < b
    requires u * H + x == q * b + r
    ensures 0 <= q < H
  {
    if q >= H {
      MulMonotone(H, q, b);
    }
    if q < 0 {
      MulMonotone(q, -1, b);
    }
  }

  lemma StepEquation(u: int, x: int, b: int, d1: int, d0: int, q1: int, r: int)
    requires b == d1 * H + d0 && u == q1 * d1 + r
    ensures u * H + x == q1 * b + (r * H + x - q1 * d0)
  {
    assert q1 * (d1 * H) == (q1 * d1) * H;
    MulDistrib(q1, d1 * H, d0);
  }

  /** The first estimate of a digit, with everything the corrections rely on. */
  method Estimate(u: Word, x: Word, b: Word) returns (q: Word, r: Word, m: Word)
    requires HALF <= b && u < b && x < H
    ensures r < b && m < 2 * b && (m > r ==> q >= 1)
    ensures u * H + x == q * b + r - m
  {
    var d1, d0 := b / H, b % H;
    DigitBounds(u, b, d1, d0, u / d1);
    DivModFacts(u, d1);
    StepEquation(u, x, b, d1, d0, u / d1, u % d1);
    EstimateRange(u % d1, x, d1, d0, b);
    q, r, m := u / d1, (u % d1) * H + x, (u / d1) * d0;
  }

  lemma EstimateRange(r: int, x: int, d1: int, d0: int, b: int)
    requires 0 <= r < d1 && 0 <= x < H && b == d1 * H + d0 && 0 <= d0
    ensures 0 <= r * H + x < b
  {
  }

  /** One half of norm_udivmod32: divide u, followed by the 16 bits x, by the normalized b. */
  method HalfStep(u: Word, x: Word, b: Word) returns (q: Word, r: Word)
    requires HALF <= b && u < b && x < H
    ensures u * H + x == q * b + r && r < b && q < H
  {
    var m: Word;
    q, r, m := Estimate(u, x, b);
    q, r := Correct(u * H + x, q, r, m, b);
    DigitExact(u, x, b, q, r);
  }

  /** At most two corrections; a wrapped addition means that no further one is due. */
  method Correct(ghost total: int, q0: Word, t: Word, m: Word, b: Word) returns (q: Word, r: Word)
    requires HALF <= b && m < 2 * b && t < b
    requires total == q0 * b + t - m
    requires m > t ==> q0 >= 1
    requires total >= 0
    ensures total == q * b + r && r < b
  {
    q, r := q0, t;
    ghost var added := 0;
    SubOnce(q0, b);
    if r < m {
      WrapIs(r + b, if r + b >= W then 1 else 0);
      q, r, added := q - 1, Wrap(r + b), b;
      if r >= b && r < m {
        NotBelowZero(total, q0, t, m, b);
        WrapIs(r + b, if r + b >= W then 1 else 0);
        q, r, added := q - 1, Wrap(r + b), 2 * b;
      }
    }
    assert total == q * b + (t + added - m);
    FinalWrap(t, m, b, added, r);
    r := Wrap(r - m);
  }

  lemma SubOnce(q: int, b: int)
    ensures (q - 1) * b == q * b - b && (q - 2) * b == q * b - 2 * b
  {
  }

  /** A second correction is due only when the quotient is at least two. */
  lemma NotBelowZero(total: int, q: int, t: int, m: int, b: int)
    requires total == q * b + t - m && total >= 0 && b > 0 && q >= 1
    requires t + b < m
    ensures q >= 2
  {
    assert q == 1 ==> q * b == b;
  }

  /** r holds t + added modulo 2^32, and t + added - m is the remainder. */
  lemma FinalWrap(t: int, m: int, b: int, added: int, r: int)
    requires 0 <= t < W && 0 <= m < W && 0 < b < W && 0 <= added <= 2 * b
    requires r == (t + added) % W
    requires 0 <= t + added - m < b
    ensures Wrap(r - m) == t + added - m
  {
    WrapIs(r - m, -((t + added) / W));
  }

  /** norm_udivmod32. */
  method NormUDivMod32(a: U64, b: Word) returns (q: Word, r: Word)
    requires HALF <= b && a.hi < b
    ensures a.Value() == q * b + r && r < b
  {
    var q1, r1 := HalfStep(a.hi, a.lo / H, b);
    var q0, r0 := HalfStep(r1, a.lo % H, b);
    q := JoinHalves(q1, q0);
    r := r0;
    TwoDigits(a.hi, a.lo / H, a.lo % H, q1, r1, q0, r0, b);
  }

  /** Two half-word digits joined in a word. */
  method JoinHalves(q1: Word, q0: Word) returns (q: Word)
    requires q1 < H && q0 < H
    ensures q == q1 * H + q0
  {
    SixteenBits();
    OrDisjoint(q1, 16, q0);
    q := Or(q1 * H, q0);
  }

  lemma SixteenBits()
    ensures Pow2(16) == H
  {
    assert Pow2(8) == 256;
    PowAdd(2, 8, 8);
  }

  lemma TwoDigits(u: int, x1: int, x0: int, q1: int, r1: int, q0: int, r0: int, b: int)
    requires u * H + x1 == q1 * b + r1
    requires r1 * H + x0 == q0 * b + r0
    ensures u * W + x1 * H + x0 == (q1 * H + q0) * b + r0
  {
    assert (q1 * b) * H == (q1 * H) * b;
    MulDistrib(b, q1 * H, q0);
  }

  // ---------------------------------------------------------------- shifts across words

  function Shl(x: Word, k: nat): Word { Wrap(x * Pow2(k)) }

  function Shr(x: Word, k: nat): (r: Word)
    ensures r <= x
  {
    DivModFacts(x, Pow2(k));
    MulMonotone(1, Pow2(k), x / Pow2(k));
    x / Pow2(k)
  }

  lemma PowersMeet(k: nat)
    requires 0 < k < 32
    ensures Pow2(k) * Pow2(32 - k) == W
  {
    WordPowers();
    PowAdd(2, k, 32 - k);
  }

  /** A left shift sends the top k bits to the next word and keeps the rest above k zeros. */
  lemma ShlSplits(x: Word, p: nat, s: nat)
    requires p > 0 && s > 0 && p * s == W
    ensures x * p == (x / s) * W + (x % s) * p
    ensures 0 <= (x % s) * p <= W - p && Wrap(x * p) == (x % s) * p
    ensures 0 <= x / s < p
  {
    DivModFacts(x, s);
    var q, m := x / s, x % s;
    LowWord(x, p, s, q, m);
    MulMonotone(m + 1, s, p);
    MulDistrib(p, m, 1);
    if q >= p { MulMonotone(p, q, s); }
    if q < 0 { MulMonotone(q, -1, s); }
  }

  /** The word that k bits moved up leave: the rest of hi, then the top of lo. */
  function Join(hi: Word, lo: Word, k: nat): nat
    requires k <= 32
  {
    Or(Shl(hi, k), Shr(lo, 32 - k))
  }

  lemma JoinIs(hi: Word, lo: Word, k: nat)
    requires 0 < k < 32
    ensures Join(hi, lo, k) == Shl(hi, k) + Shr(lo, 32 - k) < W
  {
    var p, s := Pow2(k), Pow2(32 - k);
    PowersMeet(k);
    ShlSplits(hi, p, s);
    ShlSplits(lo, p, s);
    OrDisjoint(hi % s, k, lo / s);
  }

  /** Normalizing two words by k bits gives three words whose number is 2^k times as large. */
  lemma NormalizeValue(n1: Word, n0: Word, k: nat)
    requires 0 < k < 32
    ensures Join(n1, n0, k) < W
    ensures Shr(n1, 32 - k) < Pow2(k)
    ensures (n1 * W + n0) * Pow2(k) == Shr(n1, 32 - k) * W64 + Join(n1, n0, k) * W + Shl(n0, k)
  {
    var p, s := Pow2(k), Pow2(32 - k);
    PowersMeet(k);
    JoinIs(n1, n0, k);
    ShlSplits(n1, p, s);
    ShlSplits(n0, p, s);
    NormalizeAlgebra(n1, n0, p, n1 / s, (n1 % s) * p, n0 / s, (n0 % s) * p);
  }

  lemma NormalizeAlgebra(n1: int, n0: int, p: int, h1: int, l1: int, h0: int, l0: int)
    requires n1 * p == h1 * W + l1 && n0 * p == h0 * W + l0
    ensures (n1 * W + n0) * p == h1 * W64 + (l1 + h0) * W + l0
  {
    assert (n1 * W) * p == (n1 * p) * W;
    MulDistrib(p, n1 * W, n0);
  }

  /** Shifting the pair back down divides by 2^k. */
  lemma ShiftBack(hi: Word, lo: Word, k: nat)
    requires 0 < k < 32
    ensures Join(hi, lo, 32 - k) < W
    ensures Shr(hi, k) * W + Join(hi, lo, 32 - k) == (hi * W + lo) / Pow2(k)
  {
    var p, s := Pow2(k), Pow2(32 - k);
    PowersMeet(k);
    JoinIs(hi, lo, 32 - k);
    ShlSplits(hi, s, p);
    DivModFacts(hi, p);
    DivModFacts(lo, p);
    var h1, h0, l1, l0 := hi / p, hi % p, lo / p, lo % p;
    assert hi * W + lo == (h1 * W + h0 * s + l1) * p + l0 by {
      BackAlgebra(h1, h0, l1, l0, p, s);
    }
    DivModUnique(hi * W + lo, p, h1 * W + h0 * s + l1, l0);
  }

  lemma BackAlgebra(h1: int, h0: int, l1: int, l0: int, p: int, s: int)
    requires p * s == W
    ensures (h1 * p + h0) * W + (l1 * p + l0) == (h1 * W + h0 * s + l1) * p + l0
  {
    assert (h1 * p) * W == (h1 * W) * p;
    assert h0 * W == (h0 * s) * p by { MulAssoc(h0, s, p); }
    MulDistrib(p, h1 * W + h0 * s, l1);
    MulDistrib(p, h1 * W, h0 * s);
  }

  // ---------------------------------------------------------------- leading zeros

  lemma DivDiv(x: nat, p: nat, q: nat)
    requires p > 0 && q > 0
    ensures p * q > 0 && (x / p) / q == x / (p * q)
  {
    MulPositive(p, q);
    DivModFacts(x, p);
    DivModFacts(x / p, q);
    var y, m := x / p, x % p;
    var z, n := y / q, y % q;
    assert x == z * (p * q) + (n * p + m) by {
      MulAssoc(z, q, p);
      MulDistrib(p, z * q, n);
    }
    MulMonotone(n, q - 1, p);
    DivModUnique(x, p * q, z, n * p + m);
  }

  /** One probe of CountLeadingZeros: if the word has more than k bits, count them off. */
  method Probe(ghost x: Word, a: Word, r: nat, k: nat, ghost j: nat) returns (a': Word, r': nat)
    requires j <= 32 && k <= r == 32 - j && x / Pow2(j) == a < Pow2(2 * k) && (x > 0 ==> a > 0)
    ensures r' <= r && r - r' <= k && 32 - k <= 32 - (r - r')
    ensures r' == r || r' == r - k
    ensures a == 0 ==> r' == r && a' == 0
    ensures x / Pow2(32 - r') == a' < Pow2(k) && (x > 0 ==> a' > 0)
  {
    a', r' := a, r;
    var t := Shr(a, k);
    PowAdd(2, k, k);
    DivModFacts(a, Pow2(k));
    if t != 0 {
      r', a' := r - k, t;
      DivDiv(x, Pow2(j), Pow2(k));
      PowAdd(2, j, k);
      if t >= Pow2(k) {
        MulMonotone(Pow2(k), t, Pow2(k));
      }
    }
  }

  lemma WholeWord(x: Word)
    ensures x / Pow2(0) == x < Pow2(2 * 16)
  {
    WordPowers();
    assert Pow2(0) == 1;
    DivModUnique(x, 1, x, 0);
  }

  method Probes(x: Word) returns (a: Word, r: nat)
    ensures 1 <= r <= 32 && (x == 0 ==> r == 32) && a < 2
    ensures x / Pow2(32 - r) == a && (x > 0 ==> a > 0)
  {
    WholeWord(x);
    a, r := x, 32;
    a, r := Probe(x, a, r, 16, 0);
    a, r := Probe(x, a, r, 8, 32 - r);
    a, r := Probe(x, a, r, 4, 32 - r);
    a, r := Probe(x, a, r, 2, 32 - r);
    a, r := Probe(x, a, r, 1, 32 - r);
    assert Pow2(1) == 2;
  }

  /** CountLeadingZeros. */
  method CountLeadingZeros(x: Word) returns (r: nat)
    ensures r <= 32 && (x == 0 <==> r == 32)
    ensures x > 0 ==> Pow2(31 - r) <= x < Pow2(32 - r)
  {
    var a: Word;
    a, r := Probes(x);
    if a % 2 == 1 {
      r := r - 1;
      UnitQuotient(x, Pow2(31 - r));
      assert Pow2(32 - r) == 2 * Pow2(31 - r);
    }
  }

  lemma UnitQuotient(x: int, p: int)
    requires p > 0 && x / p == 1
    ensures p <= x < 2 * p
  {
    DivModFacts(x, p);
  }

  // ---------------------------------------------------------------- jsll_udivmod

  /** Dividing numbers scaled by p: same quotient, scaled remainder. */
  lemma ScaledDivision(a: int, b: int, p: int, q: int, rem: int)
    requires p > 0 && b > 0 && a * p == q * (b * p) + rem && 0 <= rem < b * p
    ensures a / b == q && a % b == rem / p && rem == (a % b) * p
  {
    var d := a - q * b;
    MulAssoc(q, b, p);
    assert d * p == rem by { MulDistrib(p, a, -(q * b)); assert (q * b) * p == p * (q * b); }
    if d < 0 { MulMonotone(d, -1, p); }
    if d >= b { MulMonotone(b, d, p); }
    DivModUnique(a, b, q, d);
    DivModUnique(rem, p, d, 0);
  }

  /** A divisor word with lsh leading zeros becomes normalized without losing a bit. */
  lemma NormalizedWord(b: Word, lsh: nat)
    requires lsh <= 31 && Pow2(31 - lsh) <= b < Pow2(32 - lsh)
    ensures Shl(b, lsh) == b * Pow2(lsh) >= HALF
  {
    WordPowers();
    PowAdd(2, 31 - lsh, lsh);
    PowAdd(2, 32 - lsh, lsh);
    ScaledRange(b, Pow2(31 - lsh), Pow2(32 - lsh), Pow2(lsh));
    WrapIs(b * Pow2(lsh), 0);
  }

  lemma ScaledRange(b: int, lo: int, hi: int, p: int)
    requires lo <= b < hi && p > 0
    ensures lo * p <= b * p < hi * p
  {
    MulMonotone(lo, b, p);
    MulMonotone(b + 1, hi, p);
    MulDistrib(p, b, 1);
  }

  lemma ShiftZero(x: Word)
    ensures Shl(x, 0) == x && Shr(x, 0) == x && Pow2(0) == 1
  {
    assert Pow2(0) == 1;
    DivModUnique(x, 1, x, 0);
    WrapIs(x, 0);
  }

  /** The top word after normalization stays below the divisor when it was below it before. */
  lemma TopBelowDivisor(n1: Word, n0: Word, b: Word, k: nat, top: int, low: int)
    requires n1 < b && low >= 0 && low < W
    requires (n1 * W + n0) * Pow2(k) == top * W + low
    ensures top < b * Pow2(k)
  {
    var p := Pow2(k);
    MulMonotone(n1 * W + n0, b * W - 1, p);
    assert (b * W - 1) * p == (b * p) * W - p by {
      MulDistrib(p, b * W, -1);
      MulAssoc(b, W, p);
      assert b * (W * p) == (b * p) * W;
    }
    if top >= b * p {
      MulMonotone(b * p, top, W);
    }
  }

  /** A one-word divisor above the high word: the quotient has one digit. */
  method DivideOneDigit(n1: Word, n0: Word, b: Word, lsh: nat) returns (q0: Word, n0': Word)
    requires n1 < b && lsh <= 31 && Pow2(31 - lsh) <= b < Pow2(32 - lsh)
    ensures n1 * W + n0 == q0 * b + n0' / Pow2(lsh) && n0' / Pow2(lsh) < b
  {
    NormalizedWord(b, lsh);
    ghost var a: int := n1 * W + n0;
    var m1, m0, d := n1, n0, b;
    if lsh != 0 {
      NormalizeValue(n1, n0, lsh);
      TopWordVanishes(n1, n0, b, lsh);
      d := Shl(b, lsh);
      m1 := Join(n1, n0, lsh);
      m0 := Shl(n0, lsh);
      TopBelowDivisor(n1, n0, b, lsh, m1, m0);
    } else {
      ShiftZero(b);
    }
    q0, n0' := NormUDivMod32(U64(m1, m0), d);
    ScaledDivision(a, b, Pow2(lsh), q0, n0');
    DivModFacts(a, b);
  }

  lemma TopWordVanishes(n1: Word, n0: Word, b: Word, k: nat)
    requires 0 < k <= 31 && n1 < b < Pow2(32 - k)
    ensures Shr(n1, 32 - k) == 0
  {
    DivModUnique(n1, Pow2(32 - k), 0, n1);
  }

  /** A one-word divisor not above the high word: the quotient has two digits. */
  method DivideTwoDigits(n1: Word, n0: Word, b: Word, lsh: nat) returns (q1: Word, q0: Word, n0': Word)
    requires n1 >= b && lsh <= 31 && Pow2(31 - lsh) <= b < Pow2(32 - lsh)
    ensures n1 * W + n0 == (q1 * W + q0) * b + n0' / Pow2(lsh) && n0' / Pow2(lsh) < b
  {
    NormalizedWord(b, lsh);
    ghost var a: int := n1 * W + n0;
    if lsh == 0 {
      ShiftZero(b);
      q1 := 1;
      q0, n0' := NormUDivMod32(U64(n1 - b, n0), b);
      ShiftZero(n0');
      FirstDigitOne(n1, n0, b, q0, n0');
    } else {
      var d: Word := Shl(b, lsh);
      NormalizeValue(n1, n0, lsh);
      var n2: Word := Shr(n1, 32 - lsh);
      PowMonotone(2, lsh, 31);
      WordPowers();
      var r: Word;
      q1, r := NormUDivMod32(U64(n2, Join(n1, n0, lsh)), d);
      q0, n0' := NormUDivMod32(U64(r, Shl(n0, lsh)), d);
      LongDigits(n2, Join(n1, n0, lsh), Shl(n0, lsh), q1, r, q0, n0', d);
      ScaledDivision(a, b, Pow2(lsh), q1 * W + q0, n0');
      DivModFacts(a, b);
    }
  }

  lemma FirstDigitOne(n1: int, n0: int, b: int, q0: int, r: int)
    requires (n1 - b) * W + n0 == q0 * b + r
    ensures n1 * W + n0 == (1 * W + q0) * b + r
  {
    MulDistrib(b, W, q0);
  }

  lemma LongDigits(n2: int, n1: int, n0: int, q1: int, r: int, q0: int, rem: int, d: int)
    requires n2 * W + n1 == q1 * d + r && r * W + n0 == q0 * d + rem
    ensures n2 * W64 + n1 * W + n0 == (q1 * W + q0) * d + rem
  {
    assert (q1 * d) * W == (q1 * W) * d;
    MulDistrib(d, q1 * W, q0);
  }

  // -------- a divisor of two words

  /** The estimate n / b.hi exceeds the quotient by at most one: its overshoot q0 * b.lo is at
      most one divisor. */
  lemma EstimateOffByOne(n2: int, n1: int, hi: int, lo: int, q: int, r: int, k: nat)
    requires 0 < k <= 31 && 0 <= n2 < Pow2(k) && 0 <= n1 < W
    requires HALF <= hi < W && 0 <= lo < W && (k == 31 ==> lo <= HALF)
    requires n2 * W + n1 == q * hi + r && 0 <= r < hi && 0 <= q < W
    ensures q * lo <= hi * W
  {
    WordPowers();
    if k <= 30 {
      PowMonotone(2, k, 30);
      assert Pow2(31) == 2 * Pow2(30);
      if q > HALF {
        MulMonotone(HALF + 1, q, hi);
      }
      MulMonotone(q, HALF, lo);
    } else {
      MulMonotone(lo, HALF, q);
    }
  }

  /** The quotient digit and remainder after the at most one correction. */
  lemma CorrectedDigit(n2: int, n1: int, n0: int, hi: int, lo: int, q: int, r: int)
    requires n2 * W + n1 == q * hi + r && 0 <= r < hi
    requires 0 <= n0 < W && 0 <= lo < W && 0 <= q * lo <= hi * W
    ensures var total, d := n2 * W64 + n1 * W + n0, hi * W + lo;
            && total == q * d + (r * W + n0 - q * lo)
            && r * W + n0 < d
            && total == (q - 1) * d + (r * W + n0 - (q * lo - d))
            && (q * lo > r * W + n0 ==> 0 <= r * W + n0 - (q * lo - d) < d)
  {
    var d := hi * W + lo;
    assert (q * hi) * W == q * (hi * W);
    MulDistrib(q, hi * W, lo);
    assert (q - 1) * d == q * d - d;
  }

  /** Normalizing a divisor of two words keeps all its bits, and k = 31 leaves one of them in the
      low word. */
  lemma NormalizedPair(b: U64, k: nat)
    requires 0 < k <= 31 && Pow2(31 - k) <= b.hi < Pow2(32 - k)
    ensures Join(b.hi, b.lo, k) < W && HALF <= Join(b.hi, b.lo, k)
    ensures Join(b.hi, b.lo, k) * W + Shl(b.lo, k) == b.Value() * Pow2(k)
    ensures k == 31 ==> Shl(b.lo, k) <= HALF
  {
    NormalizedWord(b.hi, k);
    JoinIs(b.hi, b.lo, k);
    NormalizeValue(b.hi, b.lo, k);
    DivModUnique(b.hi, Pow2(32 - k), 0, b.hi);
    if k == 31 {
      LastBitOnly(b.lo);
    }
  }

  lemma LastBitOnly(x: Word)
    ensures Shl(x, 31) <= HALF
  {
    WordPowers();
    assert Pow2(1) == 2;
    ShlSplits(x, Pow2(31), Pow2(1));
    MulMonotone(x % 2, 1, HALF);
  }

  /** A normalized divisor of two words: one quotient digit, and the remainder. */
  method DivideLong(n2: Word, n1: Word, n0: Word, d: U64, ghost k: nat) returns (q0: Word, rem: U64)
    requires 0 < k <= 31 && n2 < Pow2(k) && HALF <= d.hi && (k == 31 ==> d.lo <= HALF)
    ensures n2 * W64 + n1 * W + n0 == q0 * d.Value() + rem.Value() && rem.Value() < d.Value()
  {
    WordPowers();
    PowMonotone(2, k, 31);
    var r: Word;
    q0, r := NormUDivMod32(U64(n2, n1), d.hi);
    EstimateOffByOne(n2, n1, d.hi, d.lo, q0, r, k);
    MulMonotone(0, q0, d.lo);
    CorrectedDigit(n2, n1, n0, d.hi, d.lo, q0, r);
    var m := Mul32(q0, d.lo);
    q0, rem := FixDigit(n2 * W64 + n1 * W + n0, q0, U64(r, n0), m, d);
  }

  /** A product above the dividend costs one off the digit and one divisor off the product. */
  method FixDigit(ghost total: int, q0: Word, n: U64, m: U64, d: U64) returns (q: Word, rem: U64)
    requires total == q0 * d.Value() + (n.Value() - m.Value()) && n.Value() < d.Value()
    requires total == (q0 - 1) * d.Value() + (n.Value() - (m.Value() - d.Value()))
    requires m.Value() > n.Value() ==> 0 <= n.Value() - (m.Value() - d.Value()) < d.Value()
    requires q0 == 0 ==> m.Value() == 0
    ensures total == q * d.Value() + rem.Value() && rem.Value() < d.Value()
  {
    q := q0;
    var m' := m;
    if m.hi > n.hi || (m.hi == n.hi && m.lo > n.lo) {
      q := q - 1;
      m' := SubPair(m, d);
      WrappedDifference(n.Value(), m.Value() - d.Value());
    } else {
      ModW64(n.Value() - m.Value(), n.Value() - m.Value(), 0);
    }
    rem := SubPair(n, m');
  }

  /** A subtrahend that wrapped below zero still gives the right difference. */
  lemma WrappedDifference(n: int, m: int)
    requires 0 <= n - m < W64
    ensures (n - m % W64) % W64 == n - m
  {
    DivModFacts(m, W64);
    ModW64(n - m % W64, n - m, m / W64);
  }

  /** JSLL_SUB on values, as module JsLong proves it. */
  method SubPair(a: U64, b: U64) returns (r: U64)
    ensures r.Value() == (a.Value() - b.Value()) % W64
  {
    var p := new Pair(a.hi, a.lo);
    var q := new Pair(b.hi, b.lo);
    Sub(p, p, q);
    r := p.Get();
  }

  /** jsll_udivmod, divisor of one word. */
  method DivideByWord(a: U64, b: Word) returns (q: U64, r: U64)
    requires b > 0
    ensures q.Value() == a.Value() / b && r.Value() == a.Value() % b
  {
    var lsh := CountLeadingZeros(b);
    var q1: Word, q0: Word, n0: Word := 0, 0, 0;
    if b > a.hi {
      q0, n0 := DivideOneDigit(a.hi, a.lo, b, lsh);
    } else {
      q1, q0, n0 := DivideTwoDigits(a.hi, a.lo, b, lsh);
    }
    q, r := U64(q1, q0), U64(0, Shr(n0, lsh));
    DivModUnique(a.Value(), b, q.Value(), r.Value());
  }

  /** jsll_udivmod, divisor of two words with a leading zero bit and a dividend not below it. */
  method DivideByPair(a: U64, b: U64) returns (q: U64, r: U64)
    requires 0 < b.hi < HALF
    ensures q.Value() == a.Value() / b.Value() && r.Value() == a.Value() % b.Value()
  {
    var lsh := CountLeadingZeros(b.hi);
    ShiftNeeded(b.hi, lsh);
    NormalizedPair(b, lsh);
    NormalizeValue(a.hi, a.lo, lsh);
    var d := U64(Join(b.hi, b.lo, lsh), Shl(b.lo, lsh));
    var q0, rem := DivideLong(Shr(a.hi, 32 - lsh), Join(a.hi, a.lo, lsh), Shl(a.lo, lsh), d, lsh);
    ScaledDivision(a.Value(), b.Value(), Pow2(lsh), q0, rem.Value());
    ShiftBack(rem.hi, rem.lo, lsh);
    q, r := U64(0, q0), U64(Shr(rem.hi, lsh), Join(rem.hi, rem.lo, 32 - lsh));
  }

  lemma ShiftNeeded(b: Word, lsh: nat)
    requires b > 0 && lsh <= 32 && Pow2(if lsh <= 31 then 31 - lsh else 0) <= b < HALF && lsh < 32
    ensures lsh > 0
  {
    WordPowers();
  }

  /** The divisor's top bit is set and the dividend is not below it: the quotient is one. */
  predicate QuotientIsOne(a: U64, b: U64) { b.hi >= HALF && a.Value() >= b.Value() }

  /** jsll_udivmod. The quotient is always right. In the branch for a divisor with its top bit
      set the difference is computed but the undiminished dividend is stored as the remainder. */
  method UDivMod(a: U64, b: U64) returns (q: U64, r: U64)
    requires b.Value() != 0
    ensures q.Value() == a.Value() / b.Value()
    ensures r.Value() == (if QuotientIsOne(a, b) then a.Value() else a.Value() % b.Value())
    ensures r.Value() == a.Value() % b.Value() <==> !QuotientIsOne(a, b)
  {
    if b.hi == 0 {
      q, r := DivideByWord(a, b.lo);
    } else if b.hi > a.hi {
      q, r := U64(0, 0), a;
      DivModUnique(a.Value(), b.Value(), 0, a.Value());
    } else {
      var lsh := CountLeadingZeros(b.hi);
      if lsh == 0 {
        TopBitSet(b.hi);
        var q0: Word := if a.hi > b.hi || a.lo >= b.lo then 1 else 0;
        q, r := U64(0, q0), a;
        DivModUnique(a.Value(), b.Value(), q0, a.Value() - q0 * b.Value());
      } else {
        TopBitClear(b.hi, lsh);
        q, r := DivideByPair(a, b);
      }
    }
  }

  lemma TopBitSet(x: Word)
    requires Pow2(31) <= x
    ensures x >= HALF
  {
    WordPowers();
  }

  lemma TopBitClear(x: Word, lsh: nat)
    requires 0 < lsh <= 31 && x < Pow2(32 - lsh)
    ensures x < HALF
  {
    WordPowers();
    PowMonotone(2, 32 - lsh, 31);
  }

  // ---------------------------------------------------------------- jsll_div and jsll_mod

  /** C's truncating division. */
  function TruncDiv(x: int, y: int): int
    requires y != 0
  {
    var q := Abs(x) / Abs(y);
    if (x < 0) == (y < 0) then q else -q
  }

  function TruncMod(x: int, y: int): int
    requires y != 0
  {
    if x < 0 then -(Abs(x) % Abs(y)) else Abs(x) % Abs(y)
  }

  function Abs(x: int): nat { if x < 0 then -x else x }

  lemma TruncDivMod(x: int, y: int)
    requires y != 0
    ensures x == TruncDiv(x, y) * y + TruncMod(x, y)
    ensures Abs(TruncMod(x, y)) < Abs(y) && (TruncMod(x, y) != 0 ==> (TruncMod(x, y) < 0) == (x < 0))
  {
    DivModFacts(Abs(x), Abs(y));
    SignedEquation(Abs(x), Abs(y), Abs(x) / Abs(y), Abs(x) % Abs(y), x < 0, y < 0);
  }

  lemma SignedEquation(x: int, y: int, q: int, m: int, xNeg: bool, yNeg: bool)
    requires x == q * y + m
    ensures var sx, sy := if xNeg then -x else x, if yNeg then -y else y;
            sx == (if xNeg == yNeg then q else -q) * sy + (if xNeg then -m else m)
  {
    assert q * (-y) == -(q * y) && (-q) * y == -(q * y) && (-q) * (-y) == q * y;
  }

  method NegPair(a: U64) returns (r: U64)
    ensures r.Value() == (-a.Value()) % W64
  {
    var p := new Pair(a.hi, a.lo);
    Neg(p, p);
    r := p.Get();
  }

  /** The absolute value, which for the smallest number is its own bits. */
  method AbsPair(a: U64) returns (r: U64)
    ensures r.Value() == Abs(a.SignedValue())
  {
    if Signed(a.hi) < 0 {
      r := NegPair(a);
      ModW64(-a.Value(), W64 - a.Value(), -1);
    } else {
      r := a;
    }
  }

  /** jsll_div: the truncated quotient modulo 2^64, the smallest number by minus one included. */
  method Div(a: U64, b: U64) returns (r: U64)
    requires b.Value() != 0
    ensures r.Value() == TruncDiv(a.SignedValue(), b.SignedValue()) % W64
  {
    var negative := Signed(a.hi) < 0;
    var x := AbsPair(a);
    var y := AbsPair(b);
    if Signed(b.hi) < 0 {
      negative := !negative;
    }
    var rem: U64;
    r, rem := UDivMod(x, y);
    DivModUnique(r.Value(), W64, 0, r.Value());
    if negative {
      r := NegPair(r);
    }
  }

  predicate BothSmallest(a: U64, b: U64) { a == U64(HALF, 0) && b == U64(HALF, 0) }

  lemma OnlySmallestHasTopBit(a: U64, x: U64)
    requires x.Value() == Abs(a.SignedValue())
    ensures x.Value() <= HALF * W
    ensures x.hi >= HALF <==> a == U64(HALF, 0)
    ensures a == U64(HALF, 0) ==> x == U64(HALF, 0)
  {
  }

  /** jsll_mod: the truncated remainder, except for the smallest number by itself. */
  method Mod(a: U64, b: U64) returns (r: U64)
    requires b.Value() != 0
    ensures r.Value() == TruncMod(a.SignedValue(), b.SignedValue()) % W64 <==> !BothSmallest(a, b)
    ensures BothSmallest(a, b) ==> r == a
  {
    var negative := Signed(a.hi) < 0;
    var x := AbsPair(a);
    var y := AbsPair(b);
    OnlySmallestHasTopBit(a, x);
    OnlySmallestHasTopBit(b, y);
    var quot: U64;
    quot, r := UDivMod(x, y);
    DivModUnique(r.Value(), W64, 0, r.Value());
    if BothSmallest(a, b) {
      DivModUnique(x.Value(), y.Value(), 1, 0);
    }
    if negative {
      r := NegPair(r);
    }
    SmallestNegated();
  }

  lemma SmallestNegated()
    ensures (-(HALF * W)) % W64 == HALF * W && (-0) % W64 == 0
  {
  }

  // ---------------------------------------------------------------- jsll_shl, jsll_shr, jsll_ushr

  /** jsll_shl. */
  function ShiftLeft(a: U64, b: nat): U64
    requires b <= 255
  {
    if b != 0 then
      if b < 32 then JoinFits(a.hi, a.lo, b); U64(Join(a.hi, a.lo, b), Shl(a.lo, b % 32))
      else U64(Shl(a.lo, b % 32), 0)
    else a
  }

  lemma JoinFits(hi: Word, lo: Word, k: nat)
    requires 0 < k < 32
    ensures Join(hi, lo, k) < W
  {
    JoinIs(hi, lo, k);
  }

  lemma ShiftLeftLow(a: U64, b: nat)
    requires 0 < b < 32
    ensures ShiftLeft(a, b).Value() == (a.Value() * Pow2(b)) % W64
  {
    NormalizeValue(a.hi, a.lo, b);
    TopDropped(a.Value() * Pow2(b), Shr(a.hi, 32 - b), Join(a.hi, a.lo, b), Shl(a.lo, b));
    assert b % 32 == b;
  }

  lemma TopDropped(x: int, top: int, hi: Word, lo: Word)
    requires x == top * W64 + hi * W + lo
    ensures U64(hi, lo).Value() == x % W64
  {
    ModW64(x, hi * W + lo, top);
  }

  lemma ShiftLeftHigh(a: U64, b: nat)
    requires 32 <= b < 64
    ensures ShiftLeft(a, b).Value() == (a.Value() * Pow2(b)) % W64
  {
    WordPowers();
    var p := Pow2(b - 32);
    PowAdd(2, b - 32, 32);
    assert b % 32 == b - 32;
    DivModFacts(a.lo * p, W);
    HighShift(a.hi, a.lo, p, (a.lo * p) / W, Wrap(a.lo * p));
    ModW64(a.Value() * Pow2(b), Wrap(a.lo * p) * W, a.hi * p + (a.lo * p) / W);
  }

  /** Left shifts of 0 to 63 bits multiply by 2^b modulo 2^64; a shift of 64, which the header
      allows, shifts by 32 instead, so it is right only when the low word is zero. */
  lemma ShiftLeftIs(a: U64, b: nat)
    requires b <= 64
    ensures ShiftLeft(a, b).Value() == (a.Value() * Pow2(b)) % W64 <==> !(b == 64 && a.lo != 0)
  {
    WordPowers();
    if b == 0 {
      assert Pow2(0) == 1;
      ModW64(a.Value(), a.Value(), 0);
    } else if b < 32 {
      ShiftLeftLow(a, b);
    } else if b < 64 {
      ShiftLeftHigh(a, b);
    } else {
      ModW64(a.Value() * W64, 0, a.Value());
      ShiftZero(a.lo);
    }
  }

  lemma HighShift(hi: int, lo: int, p: int, k: int, m: int)
    requires lo * p == k * W + m
    ensures (hi * W + lo) * (p * W) == (hi * p + k) * W64 + m * W
  {
    assert (hi * W) * (p * W) == (hi * p) * W64;
    assert lo * (p * W) == (lo * p) * W;
    MulDistrib(p * W, hi * W, lo);
  }

  /** jsll_ushr. */
  function ShiftRight(a: U64, b: nat): U64
    requires b <= 255
  {
    if b != 0 then
      if b < 32 then JoinFits(a.hi, a.lo, 32 - b); U64(Shr(a.hi, b % 32), Join(a.hi, a.lo, 32 - b))
      else U64(0, Shr(a.hi, b % 32))
    else a
  }

  /** Unsigned right shifts of 0 to 63 bits divide by 2^b; a shift of 64 shifts by 32 instead. */
  lemma ShiftRightIs(a: U64, b: nat)
    requires b <= 64
    ensures Pow2(b) > 0
    ensures ShiftRight(a, b).Value() == a.Value() / Pow2(b) <==> !(b == 64 && a.hi != 0)
  {
    PowPositive(2, b);
    if b == 64 {
      WordPowers();
      DivModUnique(a.Value(), W64, 0, a.Value());
      ShiftZero(a.hi);
    } else {
      ShiftRightBelow64(a, b);
    }
  }

  lemma ShiftRightBelow64(a: U64, b: nat)
    requires b < 64
    ensures ShiftRight(a, b).Value() == a.Value() / Pow2(b)
  {
    if b == 0 {
      assert Pow2(0) == 1;
      DivModUnique(a.Value(), 1, a.Value(), 0);
    } else if b < 32 {
      ShiftBack(a.hi, a.lo, b);
    } else {
      WordPowers();
      PowAdd(2, 32, b - 32);
      assert b % 32 == b - 32;
      DivDiv(a.Value(), W, Pow2(b - 32));
      DivModUnique(a.Value(), W, a.hi, a.lo);
    }
  }
}

/** Long division of mbedtls_mpi numbers (mbedtls_mpi_div_mpi, mbedtls_mpi_mod_mpi) on limb vectors. */
module MpiDivide {
  import opened Arith
  import opened Limbs
  import opened MulAdd
  import opened MpiRows
  import opened Mpi
  import opened MpiArith
  import opened MpiShift
  import opened MpiDigits

  const DIVISION_BY_ZERO: int := -12

  // ---------------------------------------------------------------- normalization

  lemma SigIsNeeded(s: seq<nat>, bits: nat, base: nat)
    requires bits > 0 && base == Pow2(bits) && IsLimbs(s, base) && Val(s, base) > 0
    ensures CopiedLimbs(s) == LimbsFor(BitLen(Val(s, base)), bits)
  {
    var v := Val(s, base);
    var n := LimbsFor(BitLen(v), bits);
    NonZero(s, base);
    var k := SigLimbs(s);
    TopLimb(s, k - 1, base);
    FitsLimbs(v, bits, base, n);
    if k > n {
      PowMonotone(base, n, k - 1);
    }
    ValTrim(s, k, base);
    ValBound(s[..k], base);
    if n > k {
      NeedsLimbs(v, bits, base, k + 1);
    }
  }

  lemma BitLenShifted(e: nat, k: nat)
    requires e > 0
    ensures e * Pow2(k) > 0 && BitLen(e * Pow2(k)) == BitLen(e) + k
  {
    BitLenBounds(e);
    ShiftedBounds(e, k, BitLen(e));
    BitLenIs(e * Pow2(k), BitLen(e) + k);
  }

  lemma ShiftedBounds(e: nat, k: nat, n: nat)
    requires n > 0 && Pow2(n - 1) <= e < Pow2(n)
    ensures Pow2(n + k - 1) <= e * Pow2(k) < Pow2(n + k)
    ensures Pow2(n + k - 1) > 0
  {
    PowAdd(2, n, k);
    PowAdd(2, n - 1, k);
    PowPositive(2, n + k - 1);
    PowPositive(2, k);
    ScaledBetween(Pow2(n - 1), e, Pow2(n), Pow2(k));
  }

  lemma ScaledBetween(a: nat, e: nat, b: nat, p: nat)
    requires a <= e < b && p > 0
    ensures a * p <= e * p < b * p
  {
    MulMonotone(a, e, p);
    MulMonotone(e + 1, b, p);
    MulDistrib(p, e, 1);
  }

  /** x holds v in as many limbs as it needs. */
  ghost predicate Tight(x: Mpi, v: nat, bits: nat, base: nat)
    requires bits > 0
    reads x, x.p
  {
    && x.Valid(base) && x.s == 1 && x.Magnitude(base) == v > 0
    && x.p.Length == LimbsFor(BitLen(v), bits)
  }

  /** A copy without its sign, in as many limbs as the number needs. */
  method CopyMagnitude(a: Mpi, bits: nat, base: nat, reliable: bool) returns (ret: int, x: Mpi)
    requires base > 1 && bits > 0 && base == Pow2(bits) && a.Valid(base) && a.Magnitude(base) > 0
    ensures fresh(x) && fresh(x.p) && x.Valid(base)
    ensures ret == 0 || ret == ALLOC_FAILED
    ensures reliable && CopiedLimbs(a.p[..]) <= MAX_LIMBS ==> ret == 0
    ensures ret == 0 ==> Tight(x, a.Magnitude(base), bits, base) && x.p.Length == CopiedLimbs(a.p[..])
  {
    x := new Mpi();
    SigIsNeeded(a.p[..], bits, base);
    ret := x.CopyFrom(a, base, reliable);
    x.s := 1;
  }

  /** A shift keeps a tight number tight. */
  method ShiftTight(x: Mpi, k: nat, bits: nat, base: nat, reliable: bool, ghost v: nat) returns (ret: int)
    requires base > 1 && bits > 0 && base == Pow2(bits) && k < bits && Tight(x, v, bits, base)
    modifies x, x.p
    ensures ret == 0 || ret == ALLOC_FAILED
    ensures reliable && old(x.p.Length) + 1 <= MAX_LIMBS ==> ret == 0
    ensures x.Valid(base) && (x.p == old(x.p) || fresh(x.p))
    ensures ret == 0 ==> Tight(x, v * Pow2(k), bits, base) && x.p.Length <= old(x.p.Length) + 1
  {
    BitLenShifted(v, k);
    OneMoreLimb(BitLen(v), k, bits);
    ret := ShiftL(x, k, bits, base, reliable);
  }

  lemma OneMoreLimb(n: nat, k: nat, bits: nat)
    requires k < bits
    ensures LimbsFor(n, bits) <= LimbsFor(n + k, bits) <= LimbsFor(n, bits) + 1
  {
    LimbsForMonotone(n, n + k, bits);
    LimbsForIs(n, bits);
    MulDistrib(bits, LimbsFor(n, bits), 1);
    EnoughLimbs(LimbsFor(n, bits) + 1, n + k, bits);
  }

  /** The shift that leaves exactly one leading zero bit in the divisor's top limb. */
  method NormalShift(y: Mpi, bits: nat, base: nat, ghost v: nat) returns (k: nat)
    requires base > 1 && bits > 1 && base == Pow2(bits) && Tight(y, v, bits, base)
    ensures k < bits && (BitLen(v) + k) % bits == bits - 1
  {
    var n := BitLength(y, bits, base);
    DivModFacts(n, bits);
    k := n % bits;
    if k < bits - 1 {
      k := bits - 1 - k;
      DivModUnique(n + k, bits, n / bits, bits - 1);
    } else {
      k := 0;
    }
  }

  /** The divisor's top limb is at least a quarter of the base. */
  lemma QuarterTop(v: nat, bits: nat, base: nat, t: nat)
    requires bits > 1 && base == Pow2(bits) && v > 0 && BitLen(v) % bits == bits - 1
    requires LimbsFor(BitLen(v), bits) == t + 1
    ensures Pow(base, t + 1) <= 4 * v
  {
    BitLenBounds(v);
    var n := BitLen(v);
    AllButOneBit(n, t, bits);
    PowOfBase(bits, t + 1);
    TwicePower(n);
    TwicePower(n - 1);
  }

  lemma AllButOneBit(n: nat, t: nat, bits: nat)
    requires bits > 1 && n % bits == bits - 1 && LimbsFor(n, bits) == t + 1
    ensures (t + 1) * bits == n + 1
  {
    DivModFacts(n, bits);
    assert n / bits == t;
    MulDistrib(bits, t, 1);
  }

  lemma TwicePower(n: nat)
    ensures Pow2(n + 1) == 2 * Pow2(n)
  {
  }

  lemma TightBounds(v: nat, bits: nat, base: nat, n: nat)
    requires bits > 0 && base == Pow2(bits) && v > 0 && LimbsFor(BitLen(v), bits) == n + 1
    ensures Pow(base, n) <= v < Pow(base, n + 1)
  {
    NeedsLimbs(v, bits, base, n + 1);
    FitsLimbs(v, bits, base, n + 1);
  }

  lemma LongerDividend(x: nat, y: nat, n: nat, t: nat, base: nat)
    requires base > 0 && y <= x < Pow(base, n + 1) && Pow(base, t) <= y
    ensures t <= n
  {
    if t > n {
      PowMonotone(base, n + 1, t);
    }
  }

  // ---------------------------------------------------------------- the digit at the top

  /** While X is not below the shifted divisor w: what is left and the c divisors taken make xv. */
  ghost predicate Taking(x: Mpi, z: array<nat>, k: nat, c: nat, w: nat, xv: nat, base: nat)
    reads x, x.p, z
  {
    && x.Valid(base) && x.Value(base) == x.Magnitude(base) && x.Magnitude(base) + c * w == xv && c < 4
    && k < z.Length && z[k] == c && forall j :: 0 <= j < z.Length && j != k ==> z[j] == 0
  }

  lemma FewTimes(x: nat, c: nat, w: nat, xv: nat)
    requires x + c * w == xv < 4 * w && w <= x
    ensures c < 3 && x - w + (c + 1) * w == xv
  {
    assert (c + 1) * w == c * w + w;
    if c >= 3 { MulMonotone(3, c, w); }
  }

  method TakeDivisor(x: Mpi, y: Mpi, z: array<nat>, k: nat, base: nat, reliable: bool, ghost c: nat, ghost w: nat,
                     ghost xv: nat, ghost room: nat)
    returns (ret: int)
    requires base > 3 && Taking(x, z, k, c, w, xv, base) && y.Valid(base) && y.Value(base) == y.Magnitude(base) == w
    requires x != y && x.p != y.p && z != x.p && z != y.p && 0 < x.p.Length && 0 < y.p.Length
    requires w <= x.Magnitude(base) && xv < 4 * w && xv + w < Pow(base, room)
    modifies x, x.p, z
    ensures ret == 0 || ret == ALLOC_FAILED
    ensures reliable && 0 < room <= MAX_LIMBS ==> ret == 0
    ensures x.Valid(base) && (x.p == old(x.p) || fresh(x.p)) && x.p.Length >= old(x.p.Length)
    ensures ret == 0 ==> Taking(x, z, k, c + 1, w, xv, base)
  {
    FewTimes(x.Magnitude(base), c, w, xv);
    DivModUnique(c + 1, base, 0, c + 1);
    z[k] := WrapAdd(z[k], 1, base);
    ret := SubMpi(x, x, y, base, reliable, room);
  }

  /** The while loop: at most three divisors come off. */
  method TakeDivisors(x: Mpi, y: Mpi, z: array<nat>, k: nat, base: nat, reliable: bool, ghost w: nat, ghost xv: nat,
                      ghost room: nat)
    returns (ret: int, ghost c: nat)
    requires base > 3 && Taking(x, z, k, 0, w, xv, base) && y.Valid(base) && y.Value(base) == y.Magnitude(base) == w
    requires x != y && x.p != y.p && z != x.p && z != y.p && 0 < x.p.Length && 0 < y.p.Length
    requires 0 < w && xv < 4 * w && xv + w < Pow(base, room)
    modifies x, x.p, z
    ensures ret == 0 || ret == ALLOC_FAILED
    ensures reliable && 0 < room <= MAX_LIMBS ==> ret == 0
    ensures x.Valid(base) && (x.p == old(x.p) || fresh(x.p)) && x.p.Length >= old(x.p.Length)
    ensures ret == 0 ==> Taking(x, z, k, c, w, xv, base) && x.Magnitude(base) < w
  {
    c := 0;
    ret := 0;
    var order := CmpMpi(x, y, base);
    while order >= 0
      invariant ret == 0 && Taking(x, z, k, c, w, xv, base)
      invariant (x.p == old(x.p) || fresh(x.p)) && x.p.Length >= old(x.p.Length) && x.p != y.p && z != x.p
      invariant order == Sign(x.Magnitude(base) - w)
      decreases x.Magnitude(base)
    {
      ret := TakeDivisor(x, y, z, k, base, reliable, c, w, xv, room);
      if ret != 0 { return; }
      c := c + 1;
      order := CmpMpi(x, y, base);
    }
  }

  /** What the divisor shifted under the top of the dividend leaves room for. */
  lemma TopRoom(yv: nat, n: nat, t: nat, base: nat, xv: nat)
    requires base > 1 && t <= n && Pow(base, t) <= yv < Pow(base, t + 1) && Pow(base, t + 1) <= 4 * yv
    requires xv < Pow(base, n + 1)
    ensures var w := yv * Pow(base, n - t);
            0 < w < Pow(base, n + 1) && xv < 4 * w && xv + w < Pow(base, n + 2)
  {
    var e := Pow(base, n - t);
    PowPositive(base, n - t);
    PowPositive(base, t);
    PowAdd(base, t + 1, n - t);
    ScaledBetween(Pow(base, t), yv, Pow(base, t + 1), e);
    MulPositive(yv, e);
    MulMonotone(Pow(base, t + 1), 4 * yv, e);
    MulAssoc(4, yv, e);
    MulMonotone(2, base, Pow(base, n + 1));
  }

  lemma ZerosBut(z: seq<nat>, k: nat, c: nat, base: nat)
    requires k < |z| && z[k] == c && forall j :: 0 <= j < |z| && j != k ==> z[j] == 0
    ensures Val(z, base) == Pow(base, k) * c
  {
    ValZeros(z[k := 0], base);
    DigitWritten(z[k := 0], z, k, c, base);
  }

  lemma FirstDigitAccount(x: nat, c: nat, yv: nat, e: nat, w: nat, xv: nat)
    requires x + c * w == xv && w == yv * e
    ensures (e * c) * yv + x == xv
  {
    assert (e * c) * yv == c * (yv * e);
  }

  lemma ShiftedBack(yv: nat, e: nat, bits: nat, base: nat)
    requires bits > 0 && base == Pow2(bits)
    ensures (yv * Pow(base, e)) / Pow2(e * bits) == yv
  {
    PowOfBase(bits, e);
    DivModUnique(yv * Pow(base, e), Pow2(e * bits), yv, 0);
  }

  /** Y goes up under the top of X, comes off as often as it fits, and goes down again. */
  method FirstDigit(x: Mpi, y: Mpi, z: Mpi, n: nat, t: nat, bits: nat, base: nat, reliable: bool, ghost xv: nat,
                    ghost yv: nat)
    returns (ret: int)
    requires base > 3 && bits > 0 && base == Pow2(bits) && t <= n && n - t < z.p.Length
    requires x.Valid(base) && y.Valid(base) && z.Valid(base) && x.s == 1 && y.s == 1
    requires x != y && x != z && y != z && x.p != y.p && x.p != z.p && y.p != z.p
    requires n < x.p.Length && t < y.p.Length && x.Magnitude(base) == xv < Pow(base, n + 1) && y.Magnitude(base) == yv
    requires Pow(base, t) <= yv < Pow(base, t + 1) && Pow(base, t + 1) <= 4 * yv
    requires forall k :: 0 <= k < z.p.Length ==> z.p[k] == 0
    modifies x, x.p, y, y.p, z.p
    ensures ret == 0 || ret == ALLOC_FAILED
    ensures reliable && n + 2 <= MAX_LIMBS ==> ret == 0
    ensures x.Valid(base) && y.Valid(base) && (x.p == old(x.p) || fresh(x.p)) && (y.p == old(y.p) || fresh(y.p))
    ensures x.p != y.p
    ensures ret == 0 ==> Progress(x, y, z, n, t, base, xv) && y.Magnitude(base) == yv
  {
    ghost var w := yv * Pow(base, n - t);
    ghost var c;
    ret, c := TopDigit(x, y, z.p, n, t, bits, base, reliable, xv, yv, w);
    if ret != 0 { return; }
    ShiftedBack(yv, n - t, bits, base);
    var count := (n - t) * bits;
    ret := ShiftR(y, count, bits, base, reliable);
    ZerosBut(z.p[..], n - t, c, base);
    FirstDigitAccount(x.Magnitude(base), c, yv, Pow(base, n - t), w, xv);
  }

  method TopDigit(x: Mpi, y: Mpi, z: array<nat>, n: nat, t: nat, bits: nat, base: nat, reliable: bool, ghost xv: nat,
                  ghost yv: nat, ghost w: nat)
    returns (ret: int, ghost c: nat)
    requires base > 3 && bits > 0 && base == Pow2(bits) && t <= n && n - t < z.Length && w == yv * Pow(base, n - t)
    requires x.Valid(base) && y.Valid(base) && x.s == 1 && y.s == 1
    requires x != y && x.p != y.p && x.p != z && y.p != z
    requires n < x.p.Length && t < y.p.Length && x.Magnitude(base) == xv < Pow(base, n + 1) && y.Magnitude(base) == yv
    requires Pow(base, t) <= yv < Pow(base, t + 1) && Pow(base, t + 1) <= 4 * yv
    requires forall k :: 0 <= k < z.Length ==> z[k] == 0
    modifies x, x.p, y, y.p, z
    ensures ret == 0 || ret == ALLOC_FAILED
    ensures reliable && n + 2 <= MAX_LIMBS ==> ret == 0
    ensures x.Valid(base) && y.Valid(base) && (x.p == old(x.p) || fresh(x.p)) && (y.p == old(y.p) || fresh(y.p))
    ensures x.p != y.p && x.p.Length >= old(x.p.Length) && y.p.Length >= old(y.p.Length)
    ensures ret == 0 ==> Taking(x, z, n - t, c, w, xv, base) && x.Magnitude(base) < w
    ensures ret == 0 ==> y.s == 1 && y.Magnitude(base) == w
  {
    c := 0;
    TopRoom(yv, n, t, base, xv);
    ret := ShiftLimbs(y, n - t, bits, base, reliable, yv, n + 1);
    if ret != 0 { return; }
    ret, c := TakeDivisors(x, y, z, n - t, base, reliable, w, xv, n + 2);
  }

  // ---------------------------------------------------------------- mbedtls_mpi_div_mpi

  lemma Unscaled(a: nat, b: nat, p: nat, q: nat, r: nat)
    requires p > 0 && b > 0 && a * p == q * (b * p) + r && r < b * p
    ensures q == a / b && r / p == a % b
  {
    assert r == (a - q * b) * p by { assert q * (b * p) == (q * b) * p; }
    CancelBelow(a - q * b, b, p);
    DivModUnique(a, b, q, a - q * b);
    DivModUnique(r, p, a - q * b, 0);
  }

  lemma CancelBelow(m: int, b: nat, p: nat)
    requires p > 0 && 0 <= m * p < b * p
    ensures 0 <= m < b
  {
    if m < 0 { MulMonotone(m, -1, p); }
    if m >= b { MulMonotone(b, m, p); }
  }

  /** Z, T1 and T2. */
  method Scratch(n: nat, base: nat, reliable: bool) returns (ret: int, z: Mpi, t1: Mpi, t2: Mpi)
    requires base > 1
    ensures ret == 0 || ret == ALLOC_FAILED
    ensures reliable && 3 <= n <= MAX_LIMBS ==> ret == 0
    ensures fresh(z) && fresh(t1) && fresh(t2) && fresh(z.p) && fresh(t1.p) && fresh(t2.p)
    ensures z != t1 && z != t2 && t1 != t2 && z.p != t1.p && z.p != t2.p && t1.p != t2.p
    ensures z.Valid(base) && t1.Valid(base) && t2.Valid(base)
    ensures ret == 0 ==> z.p.Length == Max(n, 1) && 2 <= t1.p.Length && 3 <= t2.p.Length && z.s == 1
    ensures ret == 0 ==> forall k :: 0 <= k < z.p.Length ==> z.p[k] == 0
  {
    z := new Mpi();
    t1 := new Mpi();
    t2 := new Mpi();
    ret := z.Grow(n, base, reliable);
    if ret != 0 { return; }
    ret := z.SetZero(base, reliable);
    if ret != 0 { return; }
    ret := t1.Grow(2, base, reliable);
    if ret != 0 { return; }
    ret := t2.Grow(3, base, reliable);
  }

  /** Dividend and divisor shifted by the same number of bits. */
  method Normalize(x: Mpi, y: Mpi, bits: nat, base: nat, reliable: bool, ghost xv: nat, ghost yv: nat)
    returns (ret: int, k: nat)
    requires bits > 1 && base == Pow2(bits) && base > 3 && Tight(x, xv, bits, base) && Tight(y, yv, bits, base)
    requires x != y && x.p != y.p
    modifies x, x.p, y, y.p
    ensures ret == 0 || ret == ALLOC_FAILED
    ensures reliable && old(x.p.Length) + 1 <= MAX_LIMBS && old(y.p.Length) + 1 <= MAX_LIMBS ==> ret == 0
    ensures x.Valid(base) && y.Valid(base) && (x.p == old(x.p) || fresh(x.p)) && (y.p == old(y.p) || fresh(y.p))
    ensures x.p != y.p
    ensures ret == 0 ==> Tight(x, xv * Pow2(k), bits, base) && x.p.Length <= old(x.p.Length) + 1
    ensures ret == 0 ==> Tight(y, yv * Pow2(k), bits, base) && BitLen(yv * Pow2(k)) % bits == bits - 1
  {
    ret := 0;
    k := NormalShift(y, bits, base, yv);
    BitLenShifted(yv, k);
    if k > 0 {
      ret := ShiftTight(x, k, bits, base, reliable, xv);
      if ret != 0 { return; }
      ret := ShiftTight(y, k, bits, base, reliable, yv);
    } else {
      assert Pow2(0) == 1;
    }
  }

  /** The division of a normalized pair. */
  method DivideNormal(x: Mpi, y: Mpi, z: Mpi, t1: Mpi, t2: Mpi, bits: nat, base: nat, reliable: bool, ghost xv: nat,
                      ghost yv: nat)
    returns (ret: int)
    requires bits > 1 && base == Pow2(bits) && base > 3 && Tight(x, xv, bits, base) && Tight(y, yv, bits, base)
    requires yv <= xv && BitLen(yv) % bits == bits - 1
    requires Apart(x, y, z, t1, t2) && z.Valid(base) && t1.Valid(base) && t2.Valid(base)
    requires 2 <= t1.p.Length && 3 <= t2.p.Length && x.p.Length <= z.p.Length
    requires forall k :: 0 <= k < z.p.Length ==> z.p[k] == 0
    modifies x, x.p, y, y.p, z.p, t1, t1.p, t2, t2.p
    ensures ret == 0 || ret == ALLOC_FAILED
    ensures reliable && old(x.p.Length) + 3 <= MAX_LIMBS ==> ret == 0
    ensures x.Valid(base) && (x.p == old(x.p) || fresh(x.p))
    ensures ret == 0 ==> z.Valid(base) && 0 < x.p.Length
    ensures ret == 0 ==> z.Magnitude(base) * yv + x.Magnitude(base) == xv && x.Magnitude(base) < yv
  {
    TightIsNormal(x, y, bits, base, xv, yv);
    ret := AllDigits(x, y, z, t1, t2, x.p.Length - 1, y.p.Length - 1, bits, base, reliable, xv, yv);
  }

  /** X has n + 1 limbs, Y has t + 1 and a high top limb. */
  ghost predicate Normal(x: Mpi, y: Mpi, n: nat, t: nat, base: nat, xv: nat, yv: nat)
    reads x, x.p, y, y.p
  {
    && x.Valid(base) && y.Valid(base) && x.s == 1 && y.s == 1 && t <= n < x.p.Length && t < y.p.Length
    && x.Magnitude(base) == xv < Pow(base, n + 1) && y.Magnitude(base) == yv
    && Pow(base, t) <= yv < Pow(base, t + 1) && Pow(base, t + 1) <= 4 * yv
  }

  lemma TightIsNormal(x: Mpi, y: Mpi, bits: nat, base: nat, xv: nat, yv: nat)
    requires bits > 1 && base == Pow2(bits) && base > 3 && Tight(x, xv, bits, base) && Tight(y, yv, bits, base)
    requires yv <= xv && BitLen(yv) % bits == bits - 1
    ensures 0 < x.p.Length && 0 < y.p.Length && Normal(x, y, x.p.Length - 1, y.p.Length - 1, base, xv, yv)
  {
    var n, t := x.p.Length - 1, y.p.Length - 1;
    NormalPair(xv, yv, bits, base, n, t);
    assert Normal(x, y, n, t, base, xv, yv);
  }

  /** The digit at the top and then the digits below it. */
  method AllDigits(x: Mpi, y: Mpi, z: Mpi, t1: Mpi, t2: Mpi, n: nat, t: nat, bits: nat, base: nat, reliable: bool,
                   ghost xv: nat, ghost yv: nat)
    returns (ret: int)
    requires base > 3 && bits > 0 && base == Pow2(bits) && n < z.p.Length && Normal(x, y, n, t, base, xv, yv)
    requires Apart(x, y, z, t1, t2) && z.Valid(base) && t1.Valid(base) && t2.Valid(base)
    requires 2 <= t1.p.Length && 3 <= t2.p.Length && forall k :: 0 <= k < z.p.Length ==> z.p[k] == 0
    modifies x, x.p, y, y.p, z.p, t1, t1.p, t2, t2.p
    ensures ret == 0 || ret == ALLOC_FAILED
    ensures reliable && n + 4 <= MAX_LIMBS ==> ret == 0
    ensures x.Valid(base) && (x.p == old(x.p) || fresh(x.p))
    ensures ret == 0 ==> z.Valid(base) && 0 < x.p.Length
    ensures ret == 0 ==> z.Magnitude(base) * yv + x.Magnitude(base) == xv && x.Magnitude(base) < yv
  {
    ret := FirstDigit(x, y, z, n, t, bits, base, reliable, xv, yv);
    if ret != 0 { return; }
    ret := LowerDigits(x, y, z, t1, t2, n, t, bits, base, reliable, xv);
  }

  method LowerDigits(x: Mpi, y: Mpi, z: Mpi, t1: Mpi, t2: Mpi, n: nat, t: nat, bits: nat, base: nat, reliable: bool,
                     ghost total: nat)
    returns (ret: int)
    requires base > 1 && bits > 0 && base == Pow2(bits) && Progress(x, y, z, n, t, base, total)
    requires Apart(x, y, z, t1, t2) && t1.Valid(base) && t2.Valid(base) && 2 <= t1.p.Length && 3 <= t2.p.Length
    modifies x, x.p, z.p, t1, t1.p, t2, t2.p
    ensures ret == 0 || ret == ALLOC_FAILED
    ensures reliable && n + 4 <= MAX_LIMBS ==> ret == 0
    ensures x.Valid(base) && z.Valid(base) && (x.p == old(x.p) || fresh(x.p)) && x.p.Length >= old(x.p.Length)
    ensures ret == 0 ==> z.Magnitude(base) * y.Magnitude(base) + x.Magnitude(base) == total
    ensures ret == 0 ==> x.Magnitude(base) < y.Magnitude(base)
  {
    ret := DivideDigits(x, y, z, t1, t2, n, t, bits, base, reliable, total);
    assert Pow(base, 0) == 1;
  }

  /** Limb counts and leading limbs of a normalized pair. */
  lemma NormalPair(xv: nat, yv: nat, bits: nat, base: nat, n: int, t: int)
    requires bits > 1 && base == Pow2(bits) && 0 < yv <= xv && BitLen(yv) % bits == bits - 1
    requires n + 1 == LimbsFor(BitLen(xv), bits) && t + 1 == LimbsFor(BitLen(yv), bits)
    ensures 0 <= t <= n && xv < Pow(base, n + 1)
    ensures Pow(base, t) <= yv < Pow(base, t + 1) && Pow(base, t + 1) <= 4 * yv
  {
    LimbsForIs(BitLen(xv), bits);
    LimbsForIs(BitLen(yv), bits);
    BitLenBounds(xv);
    BitLenBounds(yv);
    TightBounds(xv, bits, base, n);
    TightBounds(yv, bits, base, t);
    LongerDividend(xv, yv, n, t, base);
    QuarterTop(yv, bits, base, t);
  }

  /** Quotient digits in z and the remainder, still shifted by k bits, in x. */
  method LongDivide(a: Mpi, b: Mpi, bits: nat, base: nat, reliable: bool) returns (ret: int, x: Mpi, z: Mpi, k: nat)
    requires bits > 1 && base == Pow2(bits) && base > 3 && a.Valid(base) && b.Valid(base)
    requires 0 < b.Magnitude(base) <= a.Magnitude(base)
    ensures ret == 0 || ret == ALLOC_FAILED
    ensures reliable && a.p.Length + 4 <= MAX_LIMBS ==> ret == 0
    ensures fresh(x) && fresh(x.p) && fresh(z) && fresh(z.p) && x != z && x.p != z.p
    ensures ret == 0 ==> x.Valid(base) && z.Valid(base) && 0 < x.p.Length && z.p.Length == a.p.Length + 2 && z.s == 1
    ensures ret == 0 ==> z.Magnitude(base) == a.Magnitude(base) / b.Magnitude(base)
    ensures ret == 0 ==> x.Magnitude(base) / Pow2(k) == a.Magnitude(base) % b.Magnitude(base)
  {
    k := 0;
    var y, t1, t2;
    ret, x, y, z, t1, t2 := WorkingNumbers(a, b, bits, base, reliable);
    if ret != 0 { return; }
    ret, k := DivideCopies(x, y, z, t1, t2, bits, base, reliable, a.Magnitude(base), b.Magnitude(base));
  }

  /** The copies X and Y of the magnitudes, and Z, T1 and T2. */
  method WorkingNumbers(a: Mpi, b: Mpi, bits: nat, base: nat, reliable: bool)
    returns (ret: int, x: Mpi, y: Mpi, z: Mpi, t1: Mpi, t2: Mpi)
    requires bits > 1 && base == Pow2(bits) && base > 3 && a.Valid(base) && b.Valid(base)
    requires 0 < b.Magnitude(base) <= a.Magnitude(base)
    ensures ret == 0 || ret == ALLOC_FAILED
    ensures reliable && a.p.Length + 4 <= MAX_LIMBS ==> ret == 0
    ensures fresh(x) && fresh(x.p) && fresh(y) && fresh(y.p) && fresh(z) && fresh(z.p) && x != z && x.p != z.p
    ensures fresh(t1) && fresh(t1.p) && fresh(t2) && fresh(t2.p)
    ensures ret == 0 ==> Tight(x, a.Magnitude(base), bits, base) && x.p.Length <= a.p.Length
    ensures ret == 0 ==> Tight(y, b.Magnitude(base), bits, base) && y.p.Length <= a.p.Length
    ensures ret == 0 ==> Apart(x, y, z, t1, t2) && z.Valid(base) && t1.Valid(base) && t2.Valid(base)
    ensures ret == 0 ==> 2 <= t1.p.Length && 3 <= t2.p.Length && z.p.Length == a.p.Length + 2 && z.s == 1
    ensures ret == 0 ==> forall k :: 0 <= k < z.p.Length ==> z.p[k] == 0
  {
    NonZero(a.p[..], base);
    NonZero(b.p[..], base);
    SigFits(b.p[..], a.p[..], base);
    z := new Mpi();
    t1 := new Mpi();
    t2 := new Mpi();
    ret, x, y := CopyPair(a, b, bits, base, reliable);
    if ret != 0 { return; }
    ret, z, t1, t2 := Scratch(a.p.Length + 2, base, reliable);
  }

  /** The division of the copies. */
  method DivideCopies(x: Mpi, y: Mpi, z: Mpi, t1: Mpi, t2: Mpi, bits: nat, base: nat, reliable: bool, ghost av: nat,
                      ghost bv: nat)
    returns (ret: int, k: nat)
    requires bits > 1 && base == Pow2(bits) && base > 3
    requires Tight(x, av, bits, base) && Tight(y, bv, bits, base) && bv <= av
    requires Apart(x, y, z, t1, t2) && z.Valid(base) && t1.Valid(base) && t2.Valid(base)
    requires 2 <= t1.p.Length && 3 <= t2.p.Length && x.p.Length < z.p.Length
    requires forall k :: 0 <= k < z.p.Length ==> z.p[k] == 0
    modifies x, x.p, y, y.p, z.p, t1, t1.p, t2, t2.p
    ensures ret == 0 || ret == ALLOC_FAILED
    ensures reliable && old(x.p.Length) + 4 <= MAX_LIMBS && old(y.p.Length) + 1 <= MAX_LIMBS ==> ret == 0
    ensures x.p == old(x.p) || fresh(x.p)
    ensures ret == 0 ==> x.Valid(base) && z.Valid(base) && 0 < x.p.Length
    ensures ret == 0 ==> z.Magnitude(base) == av / bv && x.Magnitude(base) / Pow2(k) == av % bv
  {
    ret, k := Normalize(x, y, bits, base, reliable, av, bv);
    if ret != 0 { return; }
    MulMonotone(bv, av, Pow2(k));
    ret := DivideNormal(x, y, z, t1, t2, bits, base, reliable, av * Pow2(k), bv * Pow2(k));
    if ret != 0 { return; }
    Unscaled(av, bv, Pow2(k), z.Magnitude(base), x.Magnitude(base));
  }

  method CopyPair(a: Mpi, b: Mpi, bits: nat, base: nat, reliable: bool) returns (ret: int, x: Mpi, y: Mpi)
    requires bits > 1 && base == Pow2(bits) && base > 3 && a.Valid(base) && b.Valid(base)
    requires 0 < b.Magnitude(base) && 0 < a.Magnitude(base)
    ensures ret == 0 || ret == ALLOC_FAILED
    ensures reliable && CopiedLimbs(a.p[..]) <= MAX_LIMBS && CopiedLimbs(b.p[..]) <= MAX_LIMBS ==> ret == 0
    ensures fresh(x) && fresh(x.p) && fresh(y) && fresh(y.p) && x != y && x.p != y.p && x.Valid(base) && y.Valid(base)
    ensures ret == 0 ==> Tight(x, a.Magnitude(base), bits, base) && x.p.Length == CopiedLimbs(a.p[..])
    ensures ret == 0 ==> Tight(y, b.Magnitude(base), bits, base) && y.p.Length == CopiedLimbs(b.p[..])
  {
    y := new Mpi();
    ret, x := CopyMagnitude(a, bits, base, reliable);
    if ret != 0 { return; }
    ret, y := CopyMagnitude(b, bits, base, reliable);
  }

  function SignedNat(s: int, m: nat): int { if s < 0 then 0 - m else m }

  lemma SignedNatIs(s: int, m: nat)
    requires s == 1 || s == -1
    ensures s * m == SignedNat(s, m)
  {
  }

  /** What the division leaves in Q. The two flags say whether Q is A and whether Q is B: the sign
      of an operand that Q has overwritten is read as 1. */
  function QuotientValue(a: int, b: int, qIsA: bool, qIsB: bool): int
    requires b != 0
  {
    var m := Abs(a) / Abs(b);
    if (!qIsA && a < 0) != (!qIsB && b < 0) then 0 - m else m
  }

  /** What it leaves in R. */
  function RemainderValue(a: int, b: int, qIsA: bool, qIsB: bool): int
    requires b != 0
  {
    var m := Abs(a) % Abs(b);
    if !qIsA then (if a < 0 then 0 - m else m)
    else if Abs(a) < Abs(b) then 0
    else if !qIsB && b < 0 then 0 - m
    else m
  }

  function Abs(x: int): nat { if x < 0 then 0 - x else x }

  /** The two values, in the signs and magnitudes of the operands. */
  lemma SignsOfResults(s: int, a: nat, t: int, b: nat, qIsA: bool, qIsB: bool)
    requires (s == 1 || s == -1) && (t == 1 || t == -1) && 0 < b <= a
    ensures var s', t' := if qIsA then 1 else s, if qIsB then 1 else t;
            && t * b != 0
            && QuotientValue(s * a, t * b, qIsA, qIsB) == (s' * t') * (a / b)
            && RemainderValue(s * a, t * b, qIsA, qIsB) == SignedNat(if qIsA then s' * t' else s, a % b)
  {
    AbsOfValue(s, a);
    AbsOfValue(t, b);
    SignedNatIs(if qIsA == qIsB then s * t else if qIsA then t else s, a / b);
  }

  lemma AbsOfValue(s: int, m: nat)
    requires s == 1 || s == -1
    ensures Abs(s * m) == m && (s * m < 0 <==> s == -1 && m > 0)
  {
  }

  /** The branch for |A| < |B|. */
  method SmallDividend(q: Mpi?, r: Mpi?, a: Mpi, base: nat, reliable: bool) returns (ret: int)
    requires base > 1 && a.Valid(base) && Results(q, r, a, base)
    modifies if q == null then {} else {q, q.p}, if r == null then {} else {r, r.p}
    ensures ret == 0 || ret == ALLOC_FAILED
    ensures reliable && old(a.p.Length) <= MAX_LIMBS && 0 < MAX_LIMBS ==> ret == 0
    ensures q != null ==> q.Valid(base) && (q.p == old(q.p) || fresh(q.p))
    ensures r != null ==> r.Valid(base) && (r.p == old(r.p) || fresh(r.p))
    ensures r != null && q != a && 0 < old(CopiedLimbs(a.p[..])) <= old(r.p.Length) ==> r.p == old(r.p)
    ensures ret == 0 && q != null ==> q.Value(base) == 0
    ensures ret == 0 && r != null ==> r.Value(base) == if q == a then 0 else old(a.Value(base))
    ensures ret == 0 && r != null && q != a && old(a.s) == 1 ==> r.s == 1
  {
    ret := ZeroQuotient(q, base, reliable);
    if ret != 0 { return; }
    if r != null {
      ret := r.CopyFrom(a, base, reliable);
    }
  }

  method ZeroQuotient(q: Mpi?, base: nat, reliable: bool) returns (ret: int)
    requires base > 1 && (q != null ==> q.Valid(base))
    modifies if q == null then {} else {q, q.p}
    ensures ret == 0 || ret == ALLOC_FAILED
    ensures reliable ==> ret == 0
    ensures q != null ==> q.Valid(base) && (q.p == old(q.p) || fresh(q.p))
    ensures ret == 0 && q != null ==> q.Value(base) == 0 && CopiedLimbs(q.p[..]) == 1
  {
    ret := 0;
    if q != null {
      ret := q.SetZero(base, reliable);
      if ret != 0 { return; }
      ValZeros(q.p[..], base);
      NonZero(q.p[..], base);
    }
  }

  /** The results are distinct, and share limbs with an operand only by being that operand. */
  ghost predicate Results(q: Mpi?, r: Mpi?, a: Mpi, base: nat)
    reads q, r, a, if q == null then {} else {q.p}, if r == null then {} else {r.p}
  {
    && (q != null ==> q.Valid(base) && (q != a ==> q.p != a.p))
    && (r != null ==> r.Valid(base) && (r != a ==> r.p != a.p))
    && (q != null && r != null ==> q != r && q.p != r.p)
  }

  /** The quotient goes to Q, and its sign is made from the signs that A and B then have. */
  method StoreQuotient(q: Mpi, z: Mpi, a: Mpi, b: Mpi, base: nat, reliable: bool) returns (ret: int)
    requires base > 1 && q.Valid(base) && z.Valid(base) && z.s == 1 && 0 < z.p.Length && q != z && q.p != z.p
    requires a != z && b != z && (a.s == 1 || a.s == -1) && (b.s == 1 || b.s == -1)
    modifies q, q.p
    ensures ret == 0 || ret == ALLOC_FAILED
    ensures reliable && z.p.Length <= MAX_LIMBS ==> ret == 0
    ensures q.Valid(base) && (q.p == old(q.p) || fresh(q.p))
    ensures ret == 0 ==> q.Magnitude(base) == z.Magnitude(base)
    ensures ret == 0 ==> q.s == (if q == a then 1 else old(a.s)) * (if q == b then 1 else old(b.s))
  {
    ret := q.CopyFrom(z, base, reliable);
    if ret != 0 { return; }
    q.s := a.s * b.s;
  }

  /** The remainder is shifted back, given the sign s and stored; zero is made positive. */
  method StoreRemainder(r: Mpi, x: Mpi, k: nat, s: int, bits: nat, base: nat, reliable: bool, ghost room: nat)
    returns (ret: int)
    requires bits > 0 && base == Pow2(bits) && base > 1 && r.Valid(base) && x.Valid(base) && 0 < x.p.Length
    requires r != x && r.p != x.p && (s == 1 || s == -1)
    modifies r, r.p, x, x.p
    ensures ret == 0 || ret == ALLOC_FAILED
    ensures 0 < room && old(x.Magnitude(base)) / Pow2(k) < Pow(base, room) ==>
      && (reliable && room <= MAX_LIMBS ==> ret == 0)
      && (room <= old(r.p.Length) ==> r.p == old(r.p))
    ensures r.Valid(base) && (r.p == old(r.p) || fresh(r.p))
    ensures ret == 0 ==> r.Value(base) == SignedNat(s, old(x.Magnitude(base)) / Pow2(k))
    ensures ret == 0 && s == 1 ==> r.s == 1
  {
    ret := ShiftR(x, k, bits, base, reliable);
    if ret != 0 { return; }
    x.s := s;
    if 0 < room && x.Magnitude(base) < Pow(base, room) {
      SmallCopied(x.p[..], room, base);
    }
    ret := r.CopyFrom(x, base, reliable);
    if ret != 0 { return; }
    SignedNatIs(s, r.Magnitude(base));
    var c := CompareZero(r, base);
    if c == 0 {
      r.s := 1;
    }
  }

  /** The results of the branch for |A| >= |B|. */
  method StoreResults(q: Mpi?, r: Mpi?, x: Mpi, z: Mpi, k: nat, a: Mpi, b: Mpi, bits: nat, base: nat, reliable: bool)
    returns (ret: int)
    requires bits > 1 && base == Pow2(bits) && base > 1 && a.Valid(base) && b.Valid(base) && 0 < a.p.Length
    requires Results(q, r, a, base) && Results(q, r, b, base) && 0 < b.Magnitude(base) <= a.Magnitude(base)
    requires Separate(x, z, a, b, q, r)
    requires x.Valid(base) && z.Valid(base) && 0 < x.p.Length && 0 < z.p.Length && z.s == 1
    requires z.Magnitude(base) == a.Magnitude(base) / b.Magnitude(base)
    requires x.Magnitude(base) / Pow2(k) == a.Magnitude(base) % b.Magnitude(base)
    modifies x, x.p, if q == null then {} else {q, q.p}, if r == null then {} else {r, r.p}
    ensures ret == 0 || ret == ALLOC_FAILED
    ensures reliable && z.p.Length <= MAX_LIMBS && old(a.p.Length) <= MAX_LIMBS ==> ret == 0
    ensures q != null ==> q.Valid(base) && (q.p == old(q.p) || fresh(q.p))
    ensures r != null ==> r.Valid(base) && (r.p == old(r.p) || fresh(r.p))
    ensures ret == 0 && q != null ==>
      q.Value(base) == QuotientValue(old(a.Value(base)), old(b.Value(base)), q == a, q == b)
    ensures ret == 0 && r != null ==>
      r.Value(base) == RemainderValue(old(a.Value(base)), old(b.Value(base)), q == a, q == b)
    ensures r != null && q == null && old(a.s) == 1 && ret == 0 ==> r.s == 1
    ensures r != null && old(b.p.Length) <= old(r.p.Length) ==> r.p == old(r.p)
  {
    ret := 0;
    SignsOfResults(a.s, a.Magnitude(base), b.s, b.Magnitude(base), q == a, q == b);
    ghost var room := RemainderRoom(a.p[..], b.p[..], base);
    if q != null {
      ret := StoreQuotient(q, z, a, b, base, reliable);
      if ret != 0 { return; }
    }
    if r != null {
      ret := StoreRemainder(r, x, k, a.s, bits, base, reliable, room);
    }
  }

  lemma RemainderRoom(a: seq<nat>, b: seq<nat>, base: nat) returns (room: nat)
    requires base > 0 && IsLimbs(a, base) && IsLimbs(b, base) && 0 < Val(b, base) <= Val(a, base)
    ensures 0 < room <= |a| && room <= |b| && Val(a, base) % Val(b, base) < Pow(base, room)
  {
    ValBound(a, base);
    ValBound(b, base);
    room := if |a| < |b| then |a| else |b|;
  }

  /** The working numbers are neither operands nor results. */
  ghost predicate Separate(x: Mpi, z: Mpi, a: Mpi, b: Mpi, q: Mpi?, r: Mpi?)
    reads x, z, a, b, q, r
  {
    && x != z && x.p != z.p && x != a && x != b && x != q && x != r && z != a && z != b && z != q && z != r
    && x.p != a.p && x.p != b.p && z.p != a.p && z.p != b.p
    && (q != null ==> x.p != q.p && z.p != q.p) && (r != null ==> x.p != r.p && z.p != r.p)
  }

  /** The branch for |A| >= |B|. */
  method LargeDividend(q: Mpi?, r: Mpi?, a: Mpi, b: Mpi, bits: nat, base: nat, reliable: bool) returns (ret: int)
    requires bits > 1 && base == Pow2(bits) && base > 3 && a.Valid(base) && b.Valid(base)
    requires Results(q, r, a, base) && Results(q, r, b, base) && 0 < b.Magnitude(base) <= a.Magnitude(base)
    modifies if q == null then {} else {q, q.p}, if r == null then {} else {r, r.p}
    ensures ret == 0 || ret == ALLOC_FAILED
    ensures reliable && old(a.p.Length) + 4 <= MAX_LIMBS ==> ret == 0
    ensures q != null ==> q.Valid(base) && (q.p == old(q.p) || fresh(q.p))
    ensures r != null ==> r.Valid(base) && (r.p == old(r.p) || fresh(r.p))
    ensures ret == 0 && q != null ==>
      q.Value(base) == QuotientValue(old(a.Value(base)), old(b.Value(base)), q == a, q == b)
    ensures ret == 0 && r != null ==>
      r.Value(base) == RemainderValue(old(a.Value(base)), old(b.Value(base)), q == a, q == b)
    ensures r != null && q == null && old(a.s) == 1 && ret == 0 ==> r.s == 1
    ensures r != null && old(b.p.Length) <= old(r.p.Length) ==> r.p == old(r.p)
  {
    NonZero(a.p[..], base);
    var x, z, k;
    ret, x, z, k := LongDivide(a, b, bits, base, reliable);
    if ret != 0 { return; }
    ret := StoreResults(q, r, x, z, k, a, b, bits, base, reliable);
  }

  /** mbedtls_mpi_div_mpi. Q and R may be null, and either may be A or B. */
  method DivMpi(q: Mpi?, r: Mpi?, a: Mpi, b: Mpi, bits: nat, base: nat, reliable: bool) returns (ret: int)
    requires bits > 1 && base == Pow2(bits) && base > 3 && a.Valid(base) && b.Valid(base)
    requires Results(q, r, a, base) && Results(q, r, b, base)
    modifies if q == null then {} else {q, q.p}, if r == null then {} else {r, r.p}
    ensures ret == 0 || ret == ALLOC_FAILED || ret == DIVISION_BY_ZERO
    ensures ret == DIVISION_BY_ZERO <==> old(b.Value(base)) == 0
    ensures reliable && old(a.p.Length) + 4 <= MAX_LIMBS ==> ret != ALLOC_FAILED
    ensures q != null ==> q.Valid(base) && (q.p == old(q.p) || fresh(q.p))
    ensures r != null ==> r.Valid(base) && (r.p == old(r.p) || fresh(r.p))
    ensures ret == 0 && q != null ==>
      q.Value(base) == QuotientValue(old(a.Value(base)), old(b.Value(base)), q == a, q == b)
    ensures ret == 0 && r != null ==>
      r.Value(base) == RemainderValue(old(a.Value(base)), old(b.Value(base)), q == a, q == b)
    ensures r != null && q == null && old(a.s) == 1 && ret == 0 ==> r.s == 1
    ensures r != null && q == null && 0 < old(a.p.Length) && old(b.p.Length) <= old(r.p.Length) ==> r.p == old(r.p)
  {
    AbsOfValue(b.s, b.Magnitude(base));
    var c := CompareZero(b, base);
    if c == 0 {
      return DIVISION_BY_ZERO;
    }
    c := CmpAbs(a.p, b.p, base);
    if c < 0 {
      SmallResults(a.s, a.Magnitude(base), b.s, b.Magnitude(base), q == a, q == b);
      CopiedFits(a.p[..], b.p[..], base);
      ret := SmallDividend(q, r, a, base, reliable);
    } else {
      ret := LargeDividend(q, r, a, b, bits, base, reliable);
    }
  }

  lemma CopiedFits(a: seq<nat>, b: seq<nat>, base: nat)
    requires base > 0 && IsLimbs(b, base) && Val(a, base) < Val(b, base)
    ensures CopiedLimbs(a) <= |b|
  {
    ValBound(b, base);
    SmallCopied(a, |b|, base);
  }

  lemma SmallResults(s: int, a: nat, t: int, b: nat, qIsA: bool, qIsB: bool)
    requires (s == 1 || s == -1) && (t == 1 || t == -1) && a < b
    ensures t * b != 0 && QuotientValue(s * a, t * b, qIsA, qIsB) == 0
    ensures RemainderValue(s * a, t * b, qIsA, qIsB) == if qIsA then 0 else s * a
  {
    AbsOfValue(s, a);
    AbsOfValue(t, b);
    DivModUnique(a, b, 0, a);
  }

  /** What division is for: A = Q * B + R with |R| < |B|, and R has the sign of A. */
  lemma DivisionLaw(a: int, b: int)
    requires b != 0
    ensures var q, r := QuotientValue(a, b, false, false), RemainderValue(a, b, false, false);
            a == q * b + r && Abs(r) < Abs(b) && (r == 0 || (r < 0 <==> a < 0))
  {
    ghost var m, k := DivideMagnitudes(a, b);
    SignedLaw(Abs(a), Abs(b), m, k);
  }

  lemma DivideMagnitudes(a: int, b: int) returns (m: nat, k: nat)
    requires b != 0
    ensures Abs(a) == m * Abs(b) + k && k < Abs(b)
    ensures QuotientValue(a, b, false, false) == if (a < 0) != (b < 0) then 0 - m else m
    ensures RemainderValue(a, b, false, false) == if a < 0 then 0 - k else k
  {
    DivModFacts(Abs(a), Abs(b));
    m, k := Abs(a) / Abs(b), Abs(a) % Abs(b);
  }

  lemma SignedLaw(a: nat, b: nat, q: nat, r: nat)
    requires a == q * b + r
    ensures (0 - q) * b - r == 0 - a && (0 - q) * (0 - b) + r == a && q * (0 - b) - r == 0 - a
  {
  }

  /** The documentation lets Q be A or B. The quotient is then right exactly when it is 0 or the
      signs lost cancel, and the remainder exactly when Q is not A or what is lost does not matter. */
  lemma AliasedDivision(a: int, b: int, qIsA: bool, qIsB: bool)
    requires b != 0 && (qIsA && qIsB ==> a == b)
    ensures QuotientValue(a, b, qIsA, qIsB) == QuotientValue(a, b, false, false)
      <==> Abs(a) < Abs(b) || (qIsA && a < 0) == (qIsB && b < 0)
    ensures RemainderValue(a, b, qIsA, qIsB) == RemainderValue(a, b, false, false)
      <==> !qIsA || (if Abs(a) < Abs(b) then a == 0 else Abs(a) % Abs(b) == 0 || (a < 0 <==> !qIsB && b < 0))
  {
    QuotientZero(Abs(a), Abs(b));
    if qIsA && qIsB {
      DivModUnique(Abs(a), Abs(b), 1, 0);
    }
  }

  lemma QuotientZero(a: nat, b: nat)
    requires b > 0
    ensures a / b == 0 <==> a < b
    ensures a < b ==> a % b == a
  {
    DivModFacts(a, b);
    if a < b {
      DivModUnique(a, b, 0, a);
    }
  }

  /** (-7) / 2 with Q in the place of A: the quotient is 3 and the remainder 1. */
  lemma MinusSevenByTwo()
    ensures QuotientValue(-7, 2, true, false) == 3 && RemainderValue(-7, 2, true, false) == 1
    ensures QuotientValue(-7, 2, false, false) == -3 && RemainderValue(-7, 2, false, false) == -1
  {
    DivModUnique(7, 2, 3, 1);
  }

  // ---------------------------------------------------------------- mbedtls_mpi_mod_mpi

  /** What the two closing loops keep: some number between -B and 2B with the residue of av. */
  ghost predicate Residue(r: Mpi, av: int, bv: int, base: nat)
    requires bv > 0
    reads r, r.p
  {
    r.Valid(base) && 0 - bv < r.Value(base) < 2 * bv && r.Value(base) % bv == av % bv
  }

  lemma RemainderResidue(a: int, b: int)
    requires b > 0
    ensures var r := RemainderValue(a, b, false, false);
            0 - b < r < b && r % b == a % b && (a >= 0 ==> r >= 0)
  {
    DivisionLaw(a, b);
    var q, r := QuotientValue(a, b, false, false), RemainderValue(a, b, false, false);
    SameResidue(r, a, b, q);
  }

  lemma SameResidue(r: int, a: int, b: int, q: int)
    requires b > 0 && a == q * b + r
    ensures r % b == a % b
  {
    DivModFacts(r, b);
    MulDistrib(b, q, r / b);
    DivModUnique(a, b, q + r / b, r % b);
  }

  lemma RoomForRound(r: Mpi, b: Mpi, av: int, base: nat)
    requires base > 3 && b.Valid(base) && b.Value(base) > 0 && Residue(r, av, b.Value(base), base)
    requires b.p.Length + 1 <= MAX_LIMBS
    ensures Fits(r, b, base, b.p.Length + 1)
  {
    AbsOfValue(r.s, r.Magnitude(base));
    AbsOfValue(b.s, b.Magnitude(base));
    ValBound(b.p[..], base);
    MulMonotone(4, base, Pow(base, b.p.Length));
  }

  method AddRound(r: Mpi, b: Mpi, base: nat, reliable: bool, ghost av: int) returns (ret: int)
    requires base > 3 && b.Valid(base) && b.Value(base) > 0 && r != b && r.p != b.p
    requires Residue(r, av, b.Value(base), base) && r.Value(base) < 0
    modifies r, r.p
    ensures ret == 0 || ret == ALLOC_FAILED
    ensures reliable && b.p.Length + 1 <= MAX_LIMBS ==> ret == 0
    ensures r.Valid(base) && (r.p == old(r.p) || fresh(r.p))
    ensures ret == 0 ==> Residue(r, av, b.Value(base), base) && r.Value(base) == old(r.Value(base)) + b.Value(base)
  {
    if b.p.Length + 1 <= MAX_LIMBS {
      RoomForRound(r, b, av, base);
    }
    SameResidue(r.Value(base), r.Value(base) + b.Value(base), b.Value(base), 1);
    ret := AddMpi(r, r, b, base, reliable, b.p.Length + 1);
  }

  /** The loop that lifts a negative remainder. */
  method AddDivisor(r: Mpi, b: Mpi, base: nat, reliable: bool, ghost av: int) returns (ret: int)
    requires base > 3 && b.Valid(base) && b.Value(base) > 0 && r != b && r.p != b.p
    requires Residue(r, av, b.Value(base), base) && r.Value(base) < b.Value(base)
    modifies r, r.p
    ensures ret == 0 || ret == ALLOC_FAILED
    ensures reliable && (old(r.s) == 1 || b.p.Length + 1 <= MAX_LIMBS) ==> ret == 0
    ensures r.Valid(base) && (r.p == old(r.p) || fresh(r.p))
    ensures ret == 0 ==> Residue(r, av, b.Value(base), base) && 0 <= r.Value(base) < b.Value(base)
    ensures old(r.s) == 1 ==> r.p == old(r.p) && r.s == 1
  {
    ret := 0;
    var c := CompareZero(r, base);
    while c < 0
      invariant ret == 0 && (r.p == old(r.p) || fresh(r.p))
      invariant Residue(r, av, b.Value(base), base) && r.Value(base) < b.Value(base) && c == Sign(r.Value(base))
      invariant old(r.s) == 1 ==> c >= 0 && r.p == old(r.p) && r.s == 1
      decreases b.Value(base) - r.Value(base)
    {
      ret := AddRound(r, b, base, reliable, av);
      if ret != 0 { return; }
      c := CompareZero(r, base);
    }
  }

  /** The loop that lowers a remainder that is not below B. */
  method TakeAwayDivisor(r: Mpi, b: Mpi, base: nat, reliable: bool, ghost av: int) returns (ret: int)
    requires base > 3 && b.Valid(base) && b.Value(base) > 0 && r != b && r.p != b.p
    requires Residue(r, av, b.Value(base), base) && 0 <= r.Value(base)
    modifies r, r.p
    ensures ret == 0 || ret == ALLOC_FAILED
    ensures reliable && (old(r.Value(base)) < b.Value(base) || b.p.Length + 1 <= MAX_LIMBS) ==> ret == 0
    ensures r.Valid(base) && (r.p == old(r.p) || fresh(r.p))
    ensures ret == 0 ==> Residue(r, av, b.Value(base), base) && 0 <= r.Value(base) < b.Value(base)
    ensures old(r.Value(base)) < b.Value(base) ==> r.p == old(r.p) && r.s == old(r.s)
  {
    ret := 0;
    var c := CmpMpi(r, b, base);
    while c >= 0
      invariant ret == 0 && (r.p == old(r.p) || fresh(r.p))
      invariant Residue(r, av, b.Value(base), base) && 0 <= r.Value(base)
      invariant c == Sign(r.Value(base) - b.Value(base))
      invariant old(r.Value(base)) < b.Value(base) ==> c < 0 && r.p == old(r.p) && r.s == old(r.s)
      decreases r.Value(base)
    {
      if b.p.Length + 1 <= MAX_LIMBS {
        RoomForRound(r, b, av, base);
      }
      SameResidue(r.Value(base) - b.Value(base), r.Value(base), b.Value(base), 1);
      ret := SubMpi(r, r, b, base, reliable, b.p.Length + 1);
      if ret != 0 { return; }
      c := CmpMpi(r, b, base);
    }
  }

  /** mbedtls_mpi_mod_mpi. R may be A. */
  method ModMpi(r: Mpi, a: Mpi, b: Mpi, bits: nat, base: nat, reliable: bool) returns (ret: int)
    requires bits > 1 && base == Pow2(bits) && base > 3 && r.Valid(base) && a.Valid(base) && b.Valid(base)
    requires r != b && r.p != b.p && (r != a ==> r.p != a.p)
    modifies r, r.p
    ensures ret == 0 || ret == ALLOC_FAILED || ret == DIVISION_BY_ZERO || ret == NEGATIVE_VALUE
    ensures ret == NEGATIVE_VALUE <==> b.Value(base) < 0
    ensures ret == DIVISION_BY_ZERO <==> b.Value(base) == 0
    ensures reliable && old(a.p.Length) + 4 <= MAX_LIMBS && (old(a.s) == 1 || b.p.Length + 1 <= MAX_LIMBS) ==>
      ret != ALLOC_FAILED
    ensures r.Valid(base) && (r.p == old(r.p) || fresh(r.p))
    ensures ret == 0 ==> b.Value(base) > 0 && r.Value(base) == old(a.Value(base)) % b.Value(base)
    ensures ret == 0 && old(a.s) == 1 ==> r.s == 1
    ensures old(a.s) == 1 && 0 < old(a.p.Length) && b.p.Length <= old(r.p.Length) ==> r.p == old(r.p)
  {
    ghost var av := a.Value(base);
    var c := CompareZero(b, base);
    if c < 0 {
      return NEGATIVE_VALUE;
    }
    ret := DivMpi(null, r, a, b, bits, base, reliable);
    if ret != 0 { return; }
    RemainderResidue(av, b.Value(base));
    ret := LeastResidue(r, b, base, reliable, av);
  }

  /** Both loops. */
  method LeastResidue(r: Mpi, b: Mpi, base: nat, reliable: bool, ghost av: int) returns (ret: int)
    requires base > 3 && b.Valid(base) && b.Value(base) > 0 && r != b && r.p != b.p
    requires Residue(r, av, b.Value(base), base) && r.Value(base) < b.Value(base)
    modifies r, r.p
    ensures ret == 0 || ret == ALLOC_FAILED
    ensures reliable && (old(r.s) == 1 || b.p.Length + 1 <= MAX_LIMBS) ==> ret == 0
    ensures r.Valid(base) && (r.p == old(r.p) || fresh(r.p))
    ensures ret == 0 ==> r.Value(base) == av % b.Value(base)
    ensures old(r.s) == 1 ==> r.p == old(r.p) && r.s == 1
  {
    ret := AddDivisor(r, b, base, reliable, av);
    if ret != 0 { return; }
    ret := TakeAwayDivisor(r, b, base, reliable, av);
    if ret != 0 { return; }
    DivModUnique(r.Value(base), b.Value(base), 0, r.Value(base));
  }
}

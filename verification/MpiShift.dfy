/** Bit lengths and shifts of mbedtls_mpi numbers. */
module MpiShift {
  import opened Arith
  import opened Limbs
  import opened MpiRows
  import opened Mpi

  // ---------------------------------------------------------------- bit length

  function BitLen(e: nat): nat { if e == 0 then 0 else 1 + BitLen(e / 2) }

  lemma {:induction false} BitLenIs(e: nat, n: nat)
    requires n > 0 && Pow2(n - 1) <= e < Pow2(n)
    ensures BitLen(e) == n
  {
    if n > 1 {
      assert Pow2(n - 1) == 2 * Pow2(n - 2) && Pow2(n) == 2 * Pow2(n - 1);
      BitLenIs(e / 2, n - 1);
    } else {
      assert Pow2(0) == 1 && e == 1 && BitLen(0) == 0;
    }
  }

  lemma {:induction false} BitLenBounds(e: nat)
    ensures e < Pow2(BitLen(e))
    ensures e > 0 ==> BitLen(e) > 0 && Pow2(BitLen(e) - 1) <= e
  {
    if e > 0 {
      BitLenBounds(e / 2);
      assert Pow2(0) == 1;
    }
  }

  /** mbedtls_clz: the mask moves down until it meets the top bit. */
  method LeadingZeros(x: nat, bits: nat) returns (j: nat)
    requires bits > 0 && x < Pow2(bits)
    ensures j <= bits && (j == bits <==> x == 0)
    ensures x > 0 ==> Pow2(bits - j - 1) <= x < Pow2(bits - j)
  {
    var mask := Pow2(bits - 1);
    j := 0;
    while j < bits
      invariant j <= bits && x < Pow2(bits - j)
      invariant j < bits ==> mask == Pow2(bits - j - 1)
    {
      TopBit(x, bits - j);
      if x / mask % 2 != 0 { break; }
      HalfMask(bits - j);
      mask := mask / 2;
      j := j + 1;
    }
    assert Pow2(0) == 1;
  }

  lemma TopBit(x: nat, n: nat)
    requires n > 0 && x < Pow2(n)
    ensures x / Pow2(n - 1) % 2 != 0 <==> x >= Pow2(n - 1)
  {
    var p := Pow2(n - 1);
    assert Pow2(n) == 2 * p;
    if x >= p {
      DivModUnique(x, p, 1, x - p);
    } else {
      DivModUnique(x, p, 0, x);
    }
  }

  lemma HalfMask(n: nat)
    requires n > 0
    ensures n > 1 ==> Pow2(n - 1) / 2 == Pow2(n - 2)
    ensures n == 1 ==> Pow2(n - 1) / 2 == 0
  {
    assert Pow2(0) == 1;
    if n > 1 {
      assert Pow2(n - 1) == 2 * Pow2(n - 2);
    }
  }

  /** Limbs for a number of bits. */
  function LimbsFor(n: nat, bits: nat): nat
    requires bits > 0
  {
    n / bits + (if n % bits != 0 then 1 else 0)
  }

  lemma LimbsForIs(n: nat, bits: nat)
    requires bits > 0
    ensures LimbsFor(n, bits) * bits >= n
    ensures n > 0 ==> LimbsFor(n, bits) > 0 && (LimbsFor(n, bits) - 1) * bits <= n - 1
  {
    DivModFacts(n, bits);
    var q := n / bits;
    if q < 0 { MulMonotone(q, -1, bits); }
    MulDistrib(bits, q, 1);
    if n > 0 && q == 0 { assert n % bits == n; }
  }

  lemma LimbsForMonotone(m: nat, n: nat, bits: nat)
    requires bits > 0 && m <= n
    ensures LimbsFor(m, bits) <= LimbsFor(n, bits)
  {
    LimbsForIs(m, bits);
    LimbsForIs(n, bits);
    if LimbsFor(m, bits) > LimbsFor(n, bits) {
      MulMonotone(LimbsFor(n, bits), LimbsFor(m, bits) - 1, bits);
    }
  }

  /** A number that needs n limbs is at least the power of the base below them. */
  lemma NeedsLimbs(e: nat, bits: nat, base: nat, n: nat)
    requires bits > 0 && base == Pow2(bits) && e > 0 && n <= LimbsFor(BitLen(e), bits) && n > 0
    ensures Pow(base, n - 1) <= e
  {
    BitLenBounds(e);
    LimbsForIs(BitLen(e), bits);
    MulMonotone(n - 1, LimbsFor(BitLen(e), bits) - 1, bits);
    PowOfBase(bits, n - 1);
    PowMonotone(2, (n - 1) * bits, BitLen(e) - 1);
  }

  /** And no more than that power of the base times it. */
  lemma FitsLimbs(e: nat, bits: nat, base: nat, n: nat)
    requires bits > 0 && base == Pow2(bits) && LimbsFor(BitLen(e), bits) <= n
    ensures e < Pow(base, n)
  {
    BitLenBounds(e);
    LimbsForIs(BitLen(e), bits);
    MulMonotone(LimbsFor(BitLen(e), bits), n, bits);
    PowOfBase(bits, n);
    PowMonotone(2, BitLen(e), n * bits);
  }

  lemma TopNonZero(x: seq<nat>, base: nat)
    requires x != [] && IsLimbs(x, base) && base > 0 && Val(x, base) >= Pow(base, |x| - 1)
    ensures x[|x| - 1] > 0
  {
    if x[|x| - 1] == 0 {
      ValTrim(x, |x| - 1, base);
      ValBound(x[..|x| - 1], base);
    }
  }

  lemma PowOfBase(bits: nat, i: nat)
    ensures Pow(Pow2(bits), i) == Pow2(i * bits)
  {
    PowMul(2, bits, i);
    assert bits * i == i * bits;
  }

  /** mbedtls_mpi_bitlen. */
  method BitLength(x: Mpi, bits: nat, base: nat) returns (n: nat)
    requires bits > 0 && base == Pow2(bits) && x.Valid(base)
    ensures n == BitLen(x.Magnitude(base))
  {
    if x.p.Length == 0 {
      return 0;
    }
    var i := CopyCount(x.p);
    i := i - 1;
    var z := LeadingZeros(x.p[i], bits);
    n := i * bits + (bits - z);
    ValTrim(x.p[..], i + 1, base);
    ValPrefixNext(x.p[..], i, base);
    ValBound(x.p[..i], base);
    assert x.p[..][..i] == x.p[..i];
    CopiedTop(x.p[..], i + 1);
    TopLimbBits(Val(x.p[..i], base), x.p[i], i, bits - z, bits, base);
  }

  lemma CopiedTop(y: seq<nat>, i: nat)
    requires 0 < i == CopiedLimbs(y)
    ensures y[i - 1] == 0 ==> i == 1
  {
  }

  lemma TopLimbBits(low: nat, x: nat, i: nat, k: nat, bits: nat, base: nat)
    requires bits > 0 && base == Pow2(bits) && low < Pow(base, i)
    requires (x == 0 ==> i == 0 && k == 0) && (x > 0 ==> k > 0 && Pow2(k - 1) <= x < Pow2(k))
    ensures BitLen(low + Pow(base, i) * x) == i * bits + k
  {
    PowOfBase(bits, i);
    if x == 0 {
      assert low == 0;
    } else {
      PowAdd(2, i * bits, k);
      PowAdd(2, i * bits, k - 1);
      MulMonotone(Pow2(k - 1), x, Pow(base, i));
      MulMonotone(x + 1, Pow2(k), Pow(base, i));
      MulDistrib(Pow(base, i), x, 1);
      BitLenIs(low + Pow(base, i) * x, i * bits + k);
    }
  }

  // ---------------------------------------------------------------- left shift

  lemma {:induction false} ValZerosBelow(n: nat, t: seq<nat>, base: nat)
    ensures Val(seq(n, i => 0) + t, base) == Pow(base, n) * Val(t, base)
  {
    ValAppend(seq(n, i => 0), t, base);
    ValZeros(seq(n, i => 0), base);
  }

  /** The limbs move up by v0 places; what leaves at the top is zero. */
  method LimbsUp(p: array<nat>, v0: nat, base: nat)
    requires base > 0 && v0 <= p.Length && IsLimbs(p[..], base)
    requires Val(p[..], base) < Pow(base, p.Length - v0)
    modifies p
    ensures IsLimbs(p[..], base) && Val(p[..], base) == Pow(base, v0) * old(Val(p[..], base))
    ensures forall k :: 0 <= k < v0 ==> p[k] == 0
  {
    ghost var t, n := p[..], p.Length;
    var i := p.Length;
    while i > v0
      invariant v0 <= i <= n
      invariant forall k :: i <= k < n ==> p[k] == t[k - v0]
      invariant forall k :: 0 <= k < i ==> p[k] == t[k]
    {
      p[i - 1] := p[i - v0 - 1];
      i := i - 1;
    }
    while i > 0
      invariant 0 <= i <= v0
      invariant forall k :: v0 <= k < n ==> p[k] == t[k - v0]
      invariant forall k :: i <= k < v0 ==> p[k] == 0
    {
      p[i - 1] := 0;
      i := i - 1;
    }
    MovedUp(t, p[..], v0, base);
  }

  lemma MovedUp(t: seq<nat>, p: seq<nat>, v0: nat, base: nat)
    requires base > 0 && v0 <= |t| == |p| && IsLimbs(t, base) && Val(t, base) < Pow(base, |t| - v0)
    requires forall k :: v0 <= k < |t| ==> p[k] == t[k - v0]
    requires forall k :: 0 <= k < v0 ==> p[k] == 0
    ensures IsLimbs(p, base) && Val(p, base) == Pow(base, v0) * Val(t, base)
  {
    SmallHasZeros(t, |t| - v0, base);
    ValTrim(t, |t| - v0, base);
    ValZerosBelow(v0, t[..|t| - v0], base);
    assert p == seq(v0, i => 0) + t[..|t| - v0];
  }

  /** A limb shifted up by t1 bits, joined with the bits r0 that left the limb below. */
  method ShiftLimb(x: nat, r0: nat, t1: nat, bits: nat, base: nat) returns (x': nat, r1: nat)
    requires 0 < t1 < bits && base == Pow2(bits) && x < base && r0 < Pow2(t1)
    ensures x' < base && r1 < Pow2(t1) && x' + base * r1 == x * Pow2(t1) + r0
  {
    PowAdd(2, t1, bits - t1);
    DivModFacts(x, Pow2(bits - t1));
    SplitLimb(x, Pow2(t1), Pow2(bits - t1), x / Pow2(bits - t1), x % Pow2(bits - t1), base, r0);
    r1 := x / Pow2(bits - t1);
    x' := (x * Pow2(t1)) % base + r0;
  }

  lemma SplitLimb(x: nat, p: nat, s: nat, q: int, m: int, base: nat, r0: nat)
    requires base == p * s && p > 0 && s > 0 && x < base && x == q * s + m && 0 <= m < s && r0 < p
    ensures 0 <= q < p && (x * p) % base == m * p && m * p + r0 < base
    ensures m * p + r0 + base * q == x * p + r0
  {
    QuotientBelow(x, q, m, s, p);
    Regrouped(x, q, s, m, p);
    JoinedLimb(m, s, p, r0);
    DivModUnique(x * p, base, q, m * p);
  }

  /** The high part of a limb that is cut in two. */
  lemma QuotientBelow(x: nat, q: int, r: int, p: nat, s: nat)
    requires x == q * p + r && 0 <= r < p && x < p * s
    ensures 0 <= q < s
  {
    if q < 0 { MulMonotone(q, -1, p); }
    if q >= s { MulMonotone(s, q, p); }
  }

  lemma Regrouped(x: int, q: int, p: int, r: int, s: int)
    requires x == q * p + r
    ensures x * s == q * (p * s) + r * s
  {
    MulDistrib(s, q * p, r);
    MulAssoc(q, p, s);
  }

  /** Below a part m that is moved up by the factor s there is room for a smaller number. */
  lemma JoinedLimb(m: int, p: nat, s: nat, q: int)
    requires 0 <= m < p && 0 <= q < s
    ensures 0 <= q + m * s < p * s && 0 <= m * s < p * s
  {
    MulMonotone(m + 1, p, s);
    MulMonotone(0, m, s);
    MulDistrib(s, m, 1);
  }

  /** The bit loop of the left shift, from limb v0 up. */
  method BitsUp(p: array<nat>, v0: nat, t1: nat, bits: nat, base: nat)
    requires 0 < t1 < bits && base == Pow2(bits) && v0 <= p.Length && IsLimbs(p[..], base)
    requires forall k :: 0 <= k < v0 ==> p[k] == 0
    requires Val(p[..], base) * Pow2(t1) < Pow(base, p.Length)
    modifies p
    ensures IsLimbs(p[..], base) && Val(p[..], base) == old(Val(p[..], base)) * Pow2(t1)
  {
    ghost var t, n := p[..], p.Length;
    var r0: nat := 0;
    ValZeros(t[..v0], base);
    assert p[..v0] == t[..v0];
    for i := v0 to p.Length
      invariant r0 < Pow2(t1) && IsLimbs(p[..], base)
      invariant forall k :: i <= k < n ==> p[k] == t[k]
      invariant Val(p[..i], base) + Pow(base, i) * r0 == Val(t[..i], base) * Pow2(t1)
    {
      ghost var low, r := p[..i], r0;
      var x';
      x', r0 := ShiftLimb(p[i], r0, t1, bits, base);
      p[i] := x';
      assert p[..i + 1] == low + [p[i]] && t[..i + 1] == t[..i] + [t[i]];
      ValSnoc(low, p[i], base);
      ValSnoc(t[..i], t[i], base);
      ShiftedPrefix(Val(low, base), Val(t[..i], base), Pow(base, i), p[i], r, r0, t[i], Pow2(t1), base);
    }
    assert p[..n] == p[..] && t[..n] == t;
    NoBitsLeft(Val(p[..], base), Pow(base, n), r0, Val(t, base) * Pow2(t1));
  }

  lemma ShiftedPrefix(low: nat, told: nat, q: nat, x': nat, r: nat, r1: nat, x: nat, p: nat, base: nat)
    requires low + q * r == told * p && x' + base * r1 == x * p + r
    ensures (low + q * x') + (base * q) * r1 == (told + q * x) * p
  {
    assert q * (x' + base * r1) == q * x' + (base * q) * r1;
    assert q * (x * p + r) == (q * x) * p + q * r;
  }

  lemma NoBitsLeft(low: nat, q: nat, r: nat, total: nat)
    requires low + q * r == total < q
    ensures low == total
  {
    if r > 0 {
      MulMonotone(1, r, q);
    }
  }

  /** mbedtls_mpi_shift_l. */
  method ShiftL(x: Mpi, count: nat, bits: nat, base: nat, reliable: bool) returns (ret: int)
    requires bits > 0 && base == Pow2(bits) && x.Valid(base)
    modifies x, x.p
    ensures ret == 0 || ret == ALLOC_FAILED
    ensures reliable && LimbsFor(old(BitLen(x.Magnitude(base))) + count, bits) <= MAX_LIMBS ==> ret == 0
    ensures x.Valid(base) && x.s == old(x.s)
    ensures (x.p == old(x.p) || fresh(x.p)) && x.p.Length >= old(x.p.Length)
    ensures ret == 0 ==> x.Magnitude(base) == old(x.Magnitude(base)) * Pow2(count)
    ensures ret == 0 ==> x.p.Length == Max(old(x.p.Length), LimbsFor(old(BitLen(x.Magnitude(base))) + count, bits))
  {
    var i := BitLength(x, bits, base);
    i := i + count;
    EnoughLimbs(x.p.Length, i, bits);
    ret := 0;
    if x.p.Length * bits < i {
      ret := x.Grow(LimbsFor(i, bits), base, reliable);
      if ret != 0 { return; }
    }
    EnoughLimbs(x.p.Length, i, bits);
    ShiftUp(x.p, count, bits, base);
  }

  lemma EnoughLimbs(n: nat, i: nat, bits: nat)
    requires bits > 0
    ensures n * bits >= i <==> n >= LimbsFor(i, bits)
  {
    LimbsForIs(i, bits);
    if n >= LimbsFor(i, bits) {
      MulMonotone(LimbsFor(i, bits), n, bits);
    } else {
      MulMonotone(n, LimbsFor(i, bits) - 1, bits);
    }
  }

  /** What a vector with room for the shifted number offers to both loops. */
  lemma ShiftRoom(e: nat, count: nat, v0: nat, t1: nat, len: nat, bits: nat, base: nat)
    requires bits > 0 && base == Pow2(bits) && count == v0 * bits + t1 && t1 < bits
    requires BitLen(e) + count <= len * bits
    ensures v0 <= len && e < Pow(base, len - v0)
    ensures (Pow(base, v0) * e) * Pow2(t1) == e * Pow2(count)
    ensures e * Pow2(count) < Pow(base, len)
  {
    if v0 > len {
      MulMonotone(len + 1, v0, bits);
      MulDistrib(bits, len, 1);
    }
    BitLenBounds(e);
    PowOfBase(bits, len);
    PowOfBase(bits, v0);
    PowOfBase(bits, len - v0);
    SubScaled(len, v0, bits);
    PowMonotone(2, BitLen(e), (len - v0) * bits);
    PowAdd(2, v0 * bits, t1);
    MulAssoc(e, Pow2(v0 * bits), Pow2(t1));
    ShiftedBound(e, count, len * bits);
  }

  lemma SubScaled(a: int, b: int, c: int)
    ensures (a - b) * c == a * c - b * c
  {
  }

  lemma ShiftedBound(e: nat, count: nat, n: nat)
    requires BitLen(e) + count <= n
    ensures e * Pow2(count) < Pow2(n)
  {
    BitLenBounds(e);
    PowAdd(2, BitLen(e), count);
    MulMonotone(e + 1, Pow2(BitLen(e)), Pow2(count));
    MulDistrib(Pow2(count), e, 1);
    PowMonotone(2, BitLen(e) + count, n);
  }

  /** Both loops of the shift. */
  method ShiftUp(p: array<nat>, count: nat, bits: nat, base: nat)
    requires bits > 0 && base == Pow2(bits) && IsLimbs(p[..], base)
    requires BitLen(Val(p[..], base)) + count <= p.Length * bits
    modifies p
    ensures IsLimbs(p[..], base) && Val(p[..], base) == old(Val(p[..], base)) * Pow2(count)
  {
    var v0, t1 := count / bits, count % bits;
    DivModFacts(count, bits);
    if v0 < 0 { MulMonotone(v0, -1, bits); }
    ghost var e := Val(p[..], base);
    ShiftRoom(e, count, v0, t1, p.Length, bits, base);
    assert Pow(base, 0) == 1 && Pow2(0) == 1;
    if v0 > 0 {
      LimbsUp(p, v0, base);
    }
    if t1 > 0 {
      BitsUp(p, v0, t1, bits, base);
    }
  }

  // ---------------------------------------------------------------- right shift

  /** The limbs move down by v0 places; the top is filled with zeros. */
  method LimbsDown(p: array<nat>, v0: nat, base: nat)
    requires base > 0 && v0 <= p.Length && IsLimbs(p[..], base)
    modifies p
    ensures IsLimbs(p[..], base) && Pow(base, v0) > 0 && Val(p[..], base) == old(Val(p[..], base)) / Pow(base, v0)
  {
    ghost var t := p[..];
    var n := p.Length;
    for i := 0 to n - v0
      invariant forall k :: 0 <= k < i ==> p[k] == t[k + v0]
      invariant forall k :: i <= k < n ==> p[k] == t[k]
    {
      p[i] := p[i + v0];
    }
    for i := n - v0 to n
      invariant forall k :: 0 <= k < n - v0 ==> p[k] == t[k + v0]
      invariant forall k :: n - v0 <= k < i ==> p[k] == 0
    {
      p[i] := 0;
    }
    MovedDown(t, p[..], v0, base);
  }

  lemma MovedDown(t: seq<nat>, p: seq<nat>, v0: nat, base: nat)
    requires base > 0 && v0 <= |t| == |p| && IsLimbs(t, base)
    requires forall k :: 0 <= k < |t| - v0 ==> p[k] == t[k + v0]
    requires forall k :: |t| - v0 <= k < |t| ==> p[k] == 0
    ensures IsLimbs(p, base) && Pow(base, v0) > 0 && Val(p, base) == Val(t, base) / Pow(base, v0)
  {
    ValTrim(p, |t| - v0, base);
    assert p[..|t| - v0] == t[v0..];
    ValSplit(t, v0, base);
    ValBound(t[..v0], base);
    PowPositive(base, v0);
    QuotientOf(Val(t, base), Pow(base, v0), Val(t[v0..], base), Val(t[..v0], base));
  }

  lemma QuotientOf(x: nat, p: nat, q: nat, r: nat)
    requires x == r + p * q && r < p
    ensures x / p == q
  {
    DivModUnique(x, p, q, r);
  }

  /** A limb shifted down by v1 bits, joined with the bits r0 that left the limb above. r0 is what
      the bits m above the limb weigh in it. */
  method ShiftLimbDown(x: nat, r0: nat, ghost m: nat, v1: nat, bits: nat, base: nat) returns (x': nat, r1: nat)
    requires 0 < v1 < bits && base == Pow2(bits) && x < base && m < Pow2(v1) && r0 == m * Pow2(bits - v1)
    ensures x' < base && x' == x / Pow2(v1) + r0 && r1 == (x % Pow2(v1)) * Pow2(bits - v1)
  {
    PowAdd(2, v1, bits - v1);
    DivModFacts(x, Pow2(v1));
    LowLimbDown(x, Pow2(v1), Pow2(bits - v1), x / Pow2(v1), x % Pow2(v1), m, base);
    r1 := (x * Pow2(bits - v1)) % base;
    x' := x / Pow2(v1) + r0;
  }

  lemma LowLimbDown(x: nat, p: nat, s: nat, q: int, r: int, m: nat, base: nat)
    requires base == p * s && p > 0 && s > 0 && x < base && x == q * p + r && 0 <= r < p && m < p
    ensures 0 <= q < s && q + m * s < base && (x * s) % base == r * s
  {
    QuotientBelow(x, q, r, p, s);
    Regrouped(x, q, p, r, s);
    JoinedLimb(m, p, s, q);
    JoinedLimb(r, p, s, 0);
    DivModUnique(x * s, base, q, r * s);
  }

  /** The bit loop of the right shift, from the top limb down. */
  method BitsDown(p: array<nat>, v1: nat, bits: nat, base: nat)
    requires 0 < v1 < bits && base == Pow2(bits) && IsLimbs(p[..], base)
    modifies p
    ensures IsLimbs(p[..], base) && Val(p[..], base) == old(Val(p[..], base)) / Pow2(v1)
  {
    ghost var t, n := p[..], p.Length;
    var r0: nat := 0;
    ghost var m: nat := 0;
    var i := p.Length;
    assert p[n..] == [] && t[n..] == [];
    DivModUnique(0, Pow2(v1), 0, 0);
    while i > 0
      invariant 0 <= i <= n && IsLimbs(p[..], base)
      invariant forall k :: 0 <= k < i ==> p[k] == t[k]
      invariant m < Pow2(v1) && r0 == m * Pow2(bits - v1)
      invariant Val(t[i..], base) == Val(p[i..], base) * Pow2(v1) + m
    {
      ghost var high, r := p[i..], m;
      var x';
      m := p[i - 1] % Pow2(v1);
      x', r0 := ShiftLimbDown(p[i - 1], r0, r, v1, bits, base);
      p[i - 1] := x';
      i := i - 1;
      assert p[i..] == [x'] + high && t[i..] == [t[i]] + t[i + 1..];
      assert p[i..][1..] == high && t[i..][1..] == t[i + 1..];
      PowAdd(2, v1, bits - v1);
      DivModFacts(t[i], Pow2(v1));
      ShiftedSuffix(Val(high, base), Val(t[i + 1..], base), r, t[i], t[i] / Pow2(v1), m, Pow2(v1), Pow2(bits - v1),
        base);
    }
    assert p[0..] == p[..] && t[0..] == t;
    DivModUnique(Val(t, base), Pow2(v1), Val(p[..], base), m);
  }

  lemma ShiftedSuffix(high: nat, told: nat, m: nat, x: nat, q: int, r: int, p: nat, s: nat, base: nat)
    requires told == high * p + m && x == q * p + r && base == p * s
    ensures x + base * told == (q + m * s + base * high) * p + r
  {
    assert base * (high * p + m) == (base * high) * p + (m * s) * p;
  }

  /** mbedtls_mpi_shift_r. */
  method ShiftR(x: Mpi, count: nat, bits: nat, base: nat, reliable: bool) returns (ret: int)
    requires bits > 0 && base == Pow2(bits) && x.Valid(base)
    modifies x, x.p
    ensures ret == 0 || ret == ALLOC_FAILED
    ensures reliable || old(x.p.Length) > 0 ==> ret == 0
    ensures x.Valid(base) && (x.p == old(x.p) || fresh(x.p)) && x.p.Length >= old(x.p.Length)
    ensures old(x.p.Length) > 0 ==> x.p == old(x.p)
    ensures ret == 0 ==> x.Magnitude(base) == old(x.Magnitude(base)) / Pow2(count)
    ensures ret == 0 ==> x.s == old(x.s) || (x.s == 1 && x.Magnitude(base) == 0)
  {
    var v0, v1 := count / bits, count % bits;
    DivModFacts(count, bits);
    if v0 < 0 { MulMonotone(v0, -1, bits); }
    if v0 > x.p.Length || (v0 == x.p.Length && v1 > 0) {
      AllShiftedOut(x.p[..], count, v0, v1, bits, base);
      ret := x.SetZero(base, reliable);
      if ret != 0 { return; }
      ValZeros(x.p[..], base);
      return;
    }
    ShiftDown(x.p, count, v0, v1, bits, base);
    ret := 0;
  }

  lemma AllShiftedOut(x: seq<nat>, count: nat, v0: nat, v1: nat, bits: nat, base: nat)
    requires bits > 0 && base == Pow2(bits) && IsLimbs(x, base) && count == v0 * bits + v1 && v0 >= |x|
    ensures Val(x, base) / Pow2(count) == 0
  {
    ValBound(x, base);
    PowOfBase(bits, |x|);
    MulMonotone(|x|, v0, bits);
    PowMonotone(2, |x| * bits, count);
    DivModUnique(Val(x, base), Pow2(count), 0, Val(x, base));
  }

  method ShiftDown(p: array<nat>, count: nat, v0: nat, v1: nat, bits: nat, base: nat)
    requires bits > 0 && base == Pow2(bits) && IsLimbs(p[..], base) && v0 <= p.Length
    requires count == v0 * bits + v1 && v1 < bits
    modifies p
    ensures IsLimbs(p[..], base) && Val(p[..], base) == old(Val(p[..], base)) / Pow2(count)
  {
    ghost var e := Val(p[..], base);
    PowOfBase(bits, v0);
    PowAdd(2, v0 * bits, v1);
    DivTwice(e, Pow2(v0 * bits), Pow2(v1));
    assert Pow(base, 0) == 1 && Pow2(0) == 1;
    DivModUnique(e, 1, e, 0);
    if v0 > 0 {
      LimbsDown(p, v0, base);
    }
    ghost var f := Val(p[..], base);
    DivModUnique(f, 1, f, 0);
    if v1 > 0 {
      BitsDown(p, v1, bits, base);
    }
  }

  lemma DivTwice(x: nat, p: nat, q: nat)
    requires p > 0 && q > 0
    ensures p * q > 0 && (x / p) / q == x / (p * q)
  {
    MulPositive(p, q);
    DivModFacts(x, p);
    DivModFacts(x / p, q);
    var y, z := x / p, (x / p) / q;
    assert x == z * (p * q) + ((y % q) * p + x % p);
    MulMonotone(y % q + 1, q, p);
    MulDistrib(p, y % q, 1);
    DivModUnique(x, p * q, z, (y % q) * p + x % p);
  }
}

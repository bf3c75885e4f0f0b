/** The quotient digits of mbedtls_mpi_div_mpi: the guess, the test, and the correction of at most one. */
module MpiDigits {
  import opened Arith
  import opened Limbs
  import opened MulAdd
  import opened MpiRows
  import opened Mpi
  import opened MpiArith
  import opened MpiShift
  import opened LongDivision

  // ---------------------------------------------------------------- the quotient digit

  /** mbedtls_int_div_int with a double-width dividend. */
  method IntDivInt(u1: nat, u0: nat, d: nat, base: nat) returns (q: nat)
    requires u1 < base && u0 < base && d < base
    ensures q < base
    ensures d == 0 || u1 >= d ==> q == base - 1
    ensures 0 < d && u1 < d ==> q == (u1 * base + u0) / d
  {
    if d == 0 || u1 >= d {
      return base - 1;
    }
    var dividend := u1 * base + u0;
    QuotientFits(u1, u0, d, base);
    q := Smaller(dividend / d, base - 1);
  }

  function Smaller(a: int, b: int): int { if a > b then b else a }

  lemma QuotientFits(u1: nat, u0: nat, d: nat, base: nat)
    requires u1 < d && u0 < base
    ensures 0 <= (u1 * base + u0) / d < base
  {
    var x := u1 * base + u0;
    DivModFacts(x, d);
    MulMonotone(u1 + 1, d, base);
    if x / d >= base { MulMonotone(base, x / d, d); }
    if x / d < 0 { MulMonotone(x / d, -1, d); }
  }

  /** The first guess of the digit at place i of X, which is never too small. */
  method GuessDigit(x: array<nat>, i: nat, top: nat, base: nat, ghost w: nat, ghost y: nat, ghost f: nat, ghost e: nat,
                    ghost q: nat)
    returns (z: nat)
    requires base > 1 && 0 < i < x.Length && IsLimbs(x[..], base) && Val(x[..], base) < Pow(base, i + 1)
    requires 0 < top < base && q < base && f > 0 && e > 0 && Pow(base, i - 1) == f * e
    requires top * f <= y && w == y * e && q * w <= Val(x[..], base)
    ensures q <= z < base
  {
    if x[i] >= top {
      z := base - 1;
    } else {
      z := IntDivInt(x[i], x[i - 1], top, base);
      LeadingPair(x[..], i, base);
      EstimateNotBelow(Val(x[..], base), y, f, e, x[i] * base + x[i - 1], top, q);
      QuotientNotBelow(x[i] * base + x[i - 1], top, q);
    }
  }

  lemma QuotientNotBelow(v: nat, d: nat, q: nat)
    requires d > 0 && q * d <= v
    ensures q <= v / d
  {
    DivModFacts(v, d);
    if v / d < q { MulMonotone(v / d + 1, q, d); }
  }

  /** T1 := z times the two leading limbs of Y; T2 := the three leading limbs of X; their order. */
  method TestDigit(x: Mpi, y: Mpi, t1: Mpi, t2: Mpi, i: nat, t: nat, z: nat, base: nat, reliable: bool)
    returns (ret: int, c: int)
    requires base > 1 && x.Valid(base) && y.Valid(base) && t1.Valid(base) && t2.Valid(base) && z < base
    requires 0 < i < x.p.Length && t < y.p.Length && 2 <= t1.p.Length && 3 <= t2.p.Length
    requires t1 != x && t1 != y && t1 != t2 && t2 != x && t2 != y
    requires t1.p != x.p && t1.p != y.p && t1.p != t2.p && t2.p != x.p && t2.p != y.p
    modifies t1, t1.p, t2, t2.p
    ensures ret == 0 || ret == ALLOC_FAILED
    ensures reliable ==> ret == 0
    ensures t1.Valid(base) && t2.Valid(base) && 2 <= t1.p.Length && t2.p == old(t2.p)
    ensures t1.p == old(t1.p) || fresh(t1.p)
    ensures ret == 0 ==> c == Sign(z * TwoLimbs(y.p[..], t, base) - ThreeLimbs(x.p[..], i, base))
  {
    c := 0;
    ret := LoadTwo(t1, y.p, t, base, reliable);
    if ret != 0 { return; }
    ret := MulInt(t1, t1, z, base, reliable);
    if ret != 0 { return; }
    ret := LoadThree(t2, x.p, i, base, reliable);
    if ret != 0 { return; }
    c := CmpMpi(t1, t2, base);
    SignOfOrder(TwoLimbs(y.p[..], t, base), z);
  }

  lemma SignOfOrder(x: int, z: int)
    ensures x * z == z * x
  {
  }

  method LoadTwo(t1: Mpi, y: array<nat>, t: nat, base: nat, reliable: bool) returns (ret: int)
    requires base > 1 && t1.Valid(base) && 2 <= t1.p.Length && t < y.Length && IsLimbs(y[..], base) && t1.p != y
    modifies t1, t1.p
    ensures ret == 0 && t1.p == old(t1.p) && t1.Valid(base) && t1.s == 1
    ensures t1.Magnitude(base) == TwoLimbs(y[..], t, base) && SigLimbs(t1.p[..]) <= 2
  {
    ret := t1.SetZero(base, reliable);
    var p := t1.p;
    p[0] := if t < 1 then 0 else y[t - 1];
    p[1] := y[t];
    FewLimbs(p[..], 2, base);
    assert p[..2] == [p[0], p[1]];
    ValTwo(p[0], p[1], base);
  }

  method LoadThree(t2: Mpi, x: array<nat>, i: nat, base: nat, reliable: bool) returns (ret: int)
    requires base > 1 && t2.Valid(base) && 3 <= t2.p.Length && 0 < i < x.Length && IsLimbs(x[..], base) && t2.p != x
    modifies t2, t2.p
    ensures ret == 0 && t2.p == old(t2.p) && t2.Valid(base) && t2.s == 1
    ensures t2.Magnitude(base) == ThreeLimbs(x[..], i, base)
  {
    ret := t2.SetZero(base, reliable);
    var p := t2.p;
    p[0] := if i < 2 then 0 else x[i - 2];
    p[1] := x[i - 1];
    p[2] := x[i];
    FewLimbs(p[..], 3, base);
    assert p[..3] == [p[0], p[1]] + [p[2]];
    ValTwo(p[0], p[1], base);
    ValSnoc([p[0], p[1]], p[2], base);
    assert Pow(base, 2) == base * base by { assert Pow(base, 0) == 1 && Pow(base, 1) == base; }
  }

  lemma FewLimbs(p: seq<nat>, n: nat, base: nat)
    requires n <= |p| && forall k :: n <= k < |p| ==> p[k] == 0
    ensures Val(p, base) == Val(p[..n], base) && SigLimbs(p) <= n
  {
    ValTrim(p, n, base);
    var k := SigLimbs(p);
    if k > 0 {
      assert p[k - 1] != 0;
    }
  }

  lemma ValTwo(x: nat, y: nat, base: nat)
    ensures Val([x, y], base) == x + base * y
  {
    assert [x, y] == [x] + [y];
    ValOne(x, base);
    ValSnoc([x], y, base);
    assert Pow(base, 0) == 1 && Pow(base, 1) == base;
  }

  /** What X and Y offer when the digit at place i of X is due: Y has its leading limb at place t,
      and X is below base times Y shifted up by i - t - 1 limbs. */
  ghost predicate DigitDue(x: Mpi, y: Mpi, i: nat, t: nat, base: nat)
    reads x, x.p, y, y.p
  {
    && t < i < x.p.Length && t < y.p.Length && x.Valid(base) && y.Valid(base) && y.s == 1
    && 0 < y.p[t] && Pow(base, t) <= y.Magnitude(base) < Pow(base, t + 1)
    && x.Value(base) == x.Magnitude(base) < base * (y.Magnitude(base) * Pow(base, i - t - 1))
  }

  lemma DueBounds(x: nat, y: nat, i: nat, t: nat, base: nat)
    requires t < i && base > 0 && y < Pow(base, t + 1) && x < base * (y * Pow(base, i - t - 1))
    ensures x < Pow(base, i + 1) && Pow(base, t) * Pow(base, i - t - 1) == Pow(base, i - 1)
    ensures y * Pow(base, i - t - 1) <= Pow(base, i)
  {
    PowAdd(base, t, i - t - 1);
    PowAdd(base, t + 1, i - t - 1);
    MulMonotone(y, Pow(base, t + 1), Pow(base, i - t - 1));
    MulMonotone(y * Pow(base, i - t - 1), Pow(base, i), base);
  }

  /** The do loop: the guess goes down until it passes the test. */
  method ChooseDigit(x: Mpi, y: Mpi, t1: Mpi, t2: Mpi, i: nat, t: nat, base: nat, reliable: bool, ghost q: nat)
    returns (ret: int, z: nat)
    requires base > 1 && DigitDue(x, y, i, t, base) && t1.Valid(base) && t2.Valid(base)
    requires 2 <= t1.p.Length && 3 <= t2.p.Length
    requires t1 != x && t1 != y && t1 != t2 && t2 != x && t2 != y
    requires t1.p != x.p && t1.p != y.p && t1.p != t2.p && t2.p != x.p && t2.p != y.p
    requires q < base && q * (y.Magnitude(base) * Pow(base, i - t - 1)) <= x.Magnitude(base)
    modifies t1, t1.p, t2, t2.p
    ensures ret == 0 || ret == ALLOC_FAILED
    ensures reliable ==> ret == 0
    ensures t1.Valid(base) && t2.Valid(base) && 2 <= t1.p.Length && t2.p == old(t2.p)
    ensures t1.p == old(t1.p) || fresh(t1.p)
    ensures z < base
    ensures ret == 0 ==> q <= z
    ensures ret == 0 ==> z * TwoLimbs(y.p[..], t, base) <= ThreeLimbs(x.p[..], i, base)
  {
    ghost var xs, ys := x.p[..], y.p[..];
    ghost var yv, e := y.Magnitude(base), Pow(base, i - t - 1);
    DueBounds(x.Magnitude(base), yv, i, t, base);
    PrefixAndTop(ys, t, base);
    PowPositive(base, t);
    PowPositive(base, i - t - 1);
    assert ys[t] == y.p[t] < base;
    z := GuessDigit(x.p, i, y.p[t], base, yv * e, yv, Pow(base, t), e, q);
    TwoLimbsBound(ys, t, base);
    ThreeLimbsBound(xs, i, base);
    DigitPassesTest(Val(xs, base), yv, Pow(base, t), e, ThreeLimbs(xs, i, base), TwoLimbs(ys, t, base), q, base);
    z := WrapAdd(z, 1, base);
    Unwrap(z, base);
    ret := 0;
    var c := 1;
    while c > 0
      invariant ret == 0 && z < base && x.p[..] == xs && y.p[..] == ys
      invariant t1.Valid(base) && t2.Valid(base) && 2 <= t1.p.Length && t2.p == old(t2.p)
      invariant t1.p == old(t1.p) || fresh(t1.p)
      invariant c > 0 ==> q <= WrapSub(z, 1, base)
      invariant c <= 0 ==> q <= z && z * TwoLimbs(ys, t, base) <= ThreeLimbs(xs, i, base)
      decreases if c > 0 then 1 + WrapSub(z, 1, base) else 0
    {
      z := WrapSub(z, 1, base);
      ret, c := TestDigit(x, y, t1, t2, i, t, z, base, reliable);
      if ret != 0 { return; }
      if c > 0 {
        AboveDigit(q, z, TwoLimbs(ys, t, base), ThreeLimbs(xs, i, base));
      }
    }
  }

  lemma Unwrap(z: nat, base: nat)
    requires z < base && base > 1
    ensures forall g: nat :: g < base && WrapAdd(g, 1, base) == z ==> WrapSub(z, 1, base) == g
  {
    forall g: nat | g < base && WrapAdd(g, 1, base) == z ensures WrapSub(z, 1, base) == g {
      if g + 1 == base {
        DivModUnique(base, base, 1, 0);
      } else {
        DivModUnique(g + 1, base, 0, g + 1);
      }
    }
  }

  lemma AboveDigit(q: nat, z: nat, two: nat, three: nat)
    requires q * two <= three < z * two
    ensures q < z
  {
    if z <= q { MulMonotone(z, q, two); }
  }

  // ---------------------------------------------------------------- multiples of the divisor

  lemma RoomForShift(e: nat, count: nat, m: nat, bits: nat, base: nat)
    requires bits > 0 && base == Pow2(bits) && e * Pow2(count) < Pow(base, m) && count <= m * bits
    ensures LimbsFor(BitLen(e) + count, bits) <= m
  {
    if e > 0 {
      BitLenBounds(e);
      PowAdd(2, BitLen(e) - 1, count);
      MulMonotone(Pow2(BitLen(e) - 1), e, Pow2(count));
      PowOfBase(bits, m);
      if BitLen(e) - 1 + count >= m * bits {
        PowMonotone(2, m * bits, BitLen(e) - 1 + count);
      }
    }
    EnoughLimbs(m, BitLen(e) + count, bits);
  }

  /** A shift by whole limbs. */
  method ShiftLimbs(t1: Mpi, e: nat, bits: nat, base: nat, reliable: bool, ghost v: nat, ghost room: nat)
    returns (ret: int)
    requires base > 1 && bits > 0 && base == Pow2(bits) && t1.Valid(base) && t1.Magnitude(base) == v
    requires e <= room && v * Pow(base, e) < Pow(base, room)
    modifies t1, t1.p
    ensures ret == 0 || ret == ALLOC_FAILED
    ensures reliable && room <= MAX_LIMBS ==> ret == 0
    ensures t1.Valid(base) && (t1.p == old(t1.p) || fresh(t1.p)) && t1.p.Length >= old(t1.p.Length)
    ensures ret == 0 ==> t1.s == old(t1.s) && t1.Magnitude(base) == v * Pow(base, e)
  {
    LimbShift(v, e, room, bits, base);
    var count := e * bits;
    ret := ShiftL(t1, count, bits, base, reliable);
  }

  lemma LimbShift(v: nat, e: nat, room: nat, bits: nat, base: nat)
    requires bits > 0 && base == Pow2(bits) && e <= room && v * Pow(base, e) < Pow(base, room)
    ensures v * Pow2(e * bits) == v * Pow(base, e)
    ensures LimbsFor(BitLen(v) + e * bits, bits) <= room
  {
    PowOfBase(bits, e);
    MulMonotone(e, room, bits);
    var count := e * bits;
    assert Pow2(count) == Pow(base, e);
    RoomForShift(v, count, room, bits, base);
  }

  /** The multiple z of the divisor, shifted up by e limbs: m. */
  method ShiftedMultiple(t1: Mpi, y: Mpi, z: nat, e: nat, bits: nat, base: nat, reliable: bool, ghost m: nat,
                         ghost room: nat)
    returns (ret: int)
    requires base > 1 && bits > 0 && base == Pow2(bits) && t1.Valid(base) && y.Valid(base) && z < base
    requires t1 != y && t1.p != y.p && y.s == 1 && 0 < y.p.Length && e <= room
    requires y.Magnitude(base) < Pow(base, room) && m == (z * y.Magnitude(base)) * Pow(base, e) < Pow(base, room)
    modifies t1, t1.p
    ensures ret == 0 || ret == ALLOC_FAILED
    ensures reliable && room < MAX_LIMBS ==> ret == 0
    ensures t1.Valid(base) && (t1.p == old(t1.p) || fresh(t1.p)) && t1.p.Length >= old(t1.p.Length)
    ensures ret == 0 ==> t1.s == 1 && t1.Magnitude(base) == m
  {
    SmallSig(y.p[..], room, base);
    ret := MulInt(t1, y, z, base, reliable);
    if ret != 0 { return; }
    PositiveMagnitude(t1.s, t1.Magnitude(base), y.s, y.Magnitude(base), z);
    ret := ShiftLimbs(t1, e, bits, base, reliable, z * y.Magnitude(base), room);
  }

  lemma PositiveMagnitude(s: int, m: nat, t: int, y: nat, z: nat)
    requires s == 1 && t == 1 && s * m == (t * y) * z
    ensures m == z * y
  {
  }

  lemma OneDivisor(z: int, w: int)
    ensures (z - 1) * w == z * w - w && (z + 1) * w == z * w + w
  {
  }

  /** X -= T1; when that is negative, one divisor is added back and the digit was one too large. m
      is the multiple, w the shifted divisor. */
  method SubtractMultiple(x: Mpi, y: Mpi, t1: Mpi, z: nat, e: nat, bits: nat, base: nat, reliable: bool,
                          ghost room: nat, ghost w: nat, ghost m: nat)
    returns (ret: int, z': nat)
    requires base > 1 && bits > 0 && base == Pow2(bits) && x.Valid(base) && t1.Valid(base) && y.Valid(base) && z < base
    requires t1 != y && t1.p != y.p && t1 != x && t1.p != x.p && x != y && x.p != y.p
    requires y.s == 1 && 0 < y.p.Length && 0 < x.p.Length && 0 < t1.p.Length && e <= room
    requires w == y.Magnitude(base) * Pow(base, e) && m == (z * y.Magnitude(base)) * Pow(base, e)
    requires y.Magnitude(base) <= w && m == z * w
    requires x.Value(base) == x.Magnitude(base) && m <= x.Magnitude(base) + w && x.Magnitude(base) < m + w
    requires x.Magnitude(base) + m + w + w < Pow(base, room)
    modifies x, x.p, t1, t1.p
    ensures ret == 0 || ret == ALLOC_FAILED
    ensures reliable && room < MAX_LIMBS ==> ret == 0
    ensures x.Valid(base) && (x.p == old(x.p) || fresh(x.p)) && x.p.Length >= old(x.p.Length)
    ensures t1.Valid(base) && (t1.p == old(t1.p) || fresh(t1.p)) && t1.p.Length >= old(t1.p.Length) && x.p != t1.p
    ensures z' < base
    ensures ret == 0 ==> x.Value(base) == x.Magnitude(base) < w && old(x.Magnitude(base)) == z' * w + x.Magnitude(base)
  {
    ghost var xv := x.Magnitude(base);
    z' := z;
    OneDivisor(z, w);
    ret := ShiftedMultiple(t1, y, z, e, bits, base, reliable, m, room);
    if ret != 0 { return; }
    ret := SubMpi(x, x, t1, base, reliable, room);
    if ret != 0 { return; }
    var c := CompareZero(x, base);
    if c < 0 {
      ret := AddBack(x, y, t1, e, bits, base, reliable, room, w, m - xv);
      if ret != 0 { return; }
      z' := z - 1;
    }
  }

  /** One shifted divisor is added back to a negative X. */
  method AddBack(x: Mpi, y: Mpi, t1: Mpi, e: nat, bits: nat, base: nat, reliable: bool, ghost room: nat, ghost w: nat,
                 ghost d: int)
    returns (ret: int)
    requires base > 1 && bits > 0 && base == Pow2(bits) && x.Valid(base) && t1.Valid(base) && y.Valid(base)
    requires t1 != y && t1.p != y.p && t1 != x && t1.p != x.p && x != y && x.p != y.p
    requires y.s == 1 && 0 < y.p.Length && 0 < x.p.Length && 0 < t1.p.Length && e <= room
    requires w == y.Magnitude(base) * Pow(base, e) && y.Magnitude(base) <= w
    requires x.Value(base) == -d && 0 < d <= w && w + w < Pow(base, room)
    modifies x, x.p, t1, t1.p
    ensures ret == 0 || ret == ALLOC_FAILED
    ensures reliable && room < MAX_LIMBS ==> ret == 0
    ensures x.Valid(base) && (x.p == old(x.p) || fresh(x.p)) && x.p.Length >= old(x.p.Length)
    ensures t1.Valid(base) && (t1.p == old(t1.p) || fresh(t1.p)) && t1.p.Length >= old(t1.p.Length) && x.p != t1.p
    ensures ret == 0 ==> x.Value(base) == x.Magnitude(base) == w - d
  {
    assert Pow(base, 0) == 1;
    ret := ShiftedDivisor(t1, y, e, bits, base, reliable, room, w);
    if ret != 0 { return; }
    ret := AddMpi(x, x, t1, base, reliable, room);
  }

  /** T1 becomes the divisor shifted by e limbs. */
  method ShiftedDivisor(t1: Mpi, y: Mpi, e: nat, bits: nat, base: nat, reliable: bool, ghost room: nat, ghost w: nat)
    returns (ret: int)
    requires base > 1 && bits > 0 && base == Pow2(bits) && t1.Valid(base) && y.Valid(base)
    requires t1 != y && t1.p != y.p && y.s == 1 && 0 < y.p.Length && e <= room && 0 < room
    requires w == y.Magnitude(base) * Pow(base, e) && y.Magnitude(base) <= w < Pow(base, room)
    modifies t1, t1.p
    ensures ret == 0 || ret == ALLOC_FAILED
    ensures reliable && room < MAX_LIMBS ==> ret == 0
    ensures t1.Valid(base) && (t1.p == old(t1.p) || fresh(t1.p)) && t1.p.Length >= old(t1.p.Length)
    ensures ret == 0 ==> t1.s == 1 && t1.Magnitude(base) == w
  {
    SmallCopied(y.p[..], room, base);
    ret := t1.CopyFrom(y, base, reliable);
    if ret != 0 { return; }
    ret := ShiftLimbs(t1, e, bits, base, reliable, y.Magnitude(base), room);
  }

  // ---------------------------------------------------------------- one digit

  /** The dividend lies between the digit's multiple and one divisor above or below it. */
  lemma DigitBracket(x: nat, w: nat, q: nat, z: nat)
    requires q <= z && x < (q + 1) * w && z * w <= x + w
    ensures x < z * w + w && z * w <= x + w
  {
    MulMonotone(q + 1, z + 1, w);
    OneDivisor(z, w);
  }

  lemma RoomForDigit(x: nat, w: nat, m: nat, i: nat, base: nat, room: nat)
    requires base > 1 && x < base * w && m <= x + w && w <= Pow(base, i) && room == i + 3
    ensures x + m + w + w < Pow(base, room) && w < Pow(base, room)
  {
    PowPositive(base, i);
    var p := Pow(base, i);
    MulMonotone(w, p, base);
    assert Pow(base, i + 1) == base * p && Pow(base, i + 2) == base * (base * p);
    assert Pow(base, i + 3) == base * (base * (base * p));
    MulMonotone(2, base, p);
    MulMonotone(2, base, base * p);
    MulMonotone(2, base, base * (base * p));
  }

  /** The body of the loop over the digits: digit i - t - 1 of Z. */
  method DivideDigit(x: Mpi, y: Mpi, z: Mpi, t1: Mpi, t2: Mpi, i: nat, t: nat, bits: nat, base: nat, reliable: bool)
    returns (ret: int)
    requires base > 1 && bits > 0 && base == Pow2(bits)
    requires DigitDue(x, y, i, t, base) && z.Valid(base) && t1.Valid(base) && t2.Valid(base)
    requires Apart(x, y, z, t1, t2) && 2 <= t1.p.Length && 3 <= t2.p.Length && i - t - 1 < z.p.Length
    modifies x, x.p, z.p, t1, t1.p, t2, t2.p
    ensures ret == 0 || ret == ALLOC_FAILED
    ensures reliable && i + 4 <= MAX_LIMBS ==> ret == 0
    ensures x.Valid(base) && (x.p == old(x.p) || fresh(x.p)) && x.p.Length >= old(x.p.Length)
    ensures t1.Valid(base) && (t1.p == old(t1.p) || fresh(t1.p)) && 2 <= t1.p.Length
    ensures t2.Valid(base) && t2.p == old(t2.p) && x.p != t1.p
    ensures z.Valid(base) && forall k :: 0 <= k < z.p.Length && k != i - t - 1 ==> z.p[k] == old(z.p[k])
    ensures ret == 0 ==>
      var w := y.Magnitude(base) * Pow(base, i - t - 1);
      && x.Value(base) == x.Magnitude(base) < w
      && old(x.Magnitude(base)) == z.p[i - t - 1] * w + x.Magnitude(base)
  {
    ghost var xv, yv, e := x.Magnitude(base), y.Magnitude(base), Pow(base, i - t - 1);
    ghost var w := yv * e;
    DueBounds(xv, yv, i, t, base);
    PowPositive(base, t);
    PowPositive(base, i - t - 1);
    MulPositive(yv, e);
    ghost var q := TrueDigit(xv, w, base);
    var d;
    ret, d := ChooseDigit(x, y, t1, t2, i, t, base, reliable, q);
    if ret != 0 { return; }
    ret, d := RemoveDigit(x, y, t1, d, i, t, bits, base, reliable, q, w);
    if ret != 0 { return; }
    var p := z.p;
    p[i - t - 1] := d;
  }

  ghost predicate Apart(x: Mpi, y: Mpi, z: Mpi, u: Mpi, v: Mpi)
    reads x, y, z, u, v
  {
    && x != y && x != z && x != u && x != v && y != z && y != u && y != v && z != u && z != v && u != v
    && x.p != y.p && x.p != z.p && x.p != u.p && x.p != v.p
    && y.p != z.p && y.p != u.p && y.p != v.p && z.p != u.p && z.p != v.p && u.p != v.p
  }

  /** A digit that passed the test is removed from X, and corrected by at most one. */
  method RemoveDigit(x: Mpi, y: Mpi, t1: Mpi, z: nat, i: nat, t: nat, bits: nat, base: nat, reliable: bool,
                     ghost q: nat, ghost w: nat)
    returns (ret: int, z': nat)
    requires base > 1 && bits > 0 && base == Pow2(bits) && DigitDue(x, y, i, t, base) && t1.Valid(base) && z < base
    requires t1 != y && t1.p != y.p && t1 != x && t1.p != x.p && x != y && x.p != y.p && 2 <= t1.p.Length
    requires w == y.Magnitude(base) * Pow(base, i - t - 1)
    requires q <= z && x.Magnitude(base) < (q + 1) * w
    requires z * TwoLimbs(y.p[..], t, base) <= ThreeLimbs(x.p[..], i, base)
    modifies x, x.p, t1, t1.p
    ensures ret == 0 || ret == ALLOC_FAILED
    ensures reliable && i + 4 <= MAX_LIMBS ==> ret == 0
    ensures x.Valid(base) && (x.p == old(x.p) || fresh(x.p)) && x.p.Length >= old(x.p.Length)
    ensures t1.Valid(base) && (t1.p == old(t1.p) || fresh(t1.p)) && t1.p.Length >= old(t1.p.Length) && x.p != t1.p
    ensures z' < base
    ensures ret == 0 ==> x.Value(base) == x.Magnitude(base) < w && old(x.Magnitude(base)) == z' * w + x.Magnitude(base)
  {
    CloseDigit(x, y, z, i, t, base, q, w);
    ret, z' := SubtractMultiple(x, y, t1, z, i - t - 1, bits, base, reliable, i + 3, w, z * w);
  }

  /** A digit that passed the test is at most one too large, and every vector has the room. */
  lemma CloseDigit(x: Mpi, y: Mpi, z: nat, i: nat, t: nat, base: nat, q: nat, w: nat)
    requires base > 1 && DigitDue(x, y, i, t, base) && z < base && w == y.Magnitude(base) * Pow(base, i - t - 1)
    requires q <= z && x.Magnitude(base) < (q + 1) * w
    requires z * TwoLimbs(y.p[..], t, base) <= ThreeLimbs(x.p[..], i, base)
    ensures var xv, yv := x.Magnitude(base), y.Magnitude(base);
            && xv < z * w + w && z * w <= xv + w && xv + z * w + w + w < Pow(base, i + 3) && w < Pow(base, i + 3)
            && (z * yv) * Pow(base, i - t - 1) == z * w && yv <= w
  {
    ghost var xv, yv, e := x.Magnitude(base), y.Magnitude(base), Pow(base, i - t - 1);
    DueBounds(xv, yv, i, t, base);
    TwoLimbsBound(y.p[..], t, base);
    ThreeLimbsBound(x.p[..], i, base);
    PowPositive(base, i - t - 1);
    TestIsClose(xv, yv, Pow(base, t), e, ThreeLimbs(x.p[..], i, base), TwoLimbs(y.p[..], t, base), z, base);
    DigitBracket(xv, w, q, z);
    Products(z, yv, e, w);
    RoomForDigit(xv, w, z * w, i, base, i + 3);
  }

  lemma Products(z: nat, y: nat, p: nat, w: nat)
    requires w == y * p && p > 0
    ensures (z * y) * p == z * w && y <= w
  {
    MulAssoc(z, y, p);
    MulMonotone(1, p, y);
  }

  // ---------------------------------------------------------------- all digits

  /** A number between two neighbouring powers of the base has a limb at the lower one. */
  lemma LimbAt(s: seq<nat>, t: nat, base: nat)
    requires base > 0 && IsLimbs(s, base) && Pow(base, t) <= Val(s, base) < Pow(base, t + 1) && t < |s|
    ensures s[t] > 0
  {
    PrefixAndTop(s, t, base);
    NothingThere(Pow(base, t), s[t]);
  }

  lemma NothingThere(p: nat, x: nat)
    ensures x == 0 ==> p * x == 0
  {
  }

  lemma NextDigit(zv: nat, d: nat, e: nat, y: nat, x: nat, x': nat, total: nat)
    requires zv * y + x == total && x == d * (y * e) + x'
    ensures (zv + e * d) * y + x' == total
  {
    assert (zv + e * d) * y == zv * y + d * (y * e);
  }

  lemma DigitWritten(z: seq<nat>, z': seq<nat>, k: nat, d: nat, base: nat)
    requires k < |z| == |z'| && z[k] == 0 && z'[k] == d
    requires forall j :: 0 <= j < |z| && j != k ==> z'[j] == z[j]
    ensures Val(z', base) == Val(z, base) + Pow(base, k) * d
  {
    ValUpdate(z, k, d, base);
    assert z' == z[k := d];
  }

  /** Before the digit at place i: the digits so far and what is left make the dividend, total. */
  ghost predicate Progress(x: Mpi, y: Mpi, z: Mpi, i: nat, t: nat, base: nat, total: nat)
    reads x, x.p, y, y.p, z, z.p
  {
    && t <= i < x.p.Length && t < y.p.Length && i - t <= z.p.Length
    && x.Valid(base) && y.Valid(base) && z.Valid(base) && y.s == 1
    && Pow(base, t) <= y.Magnitude(base) < Pow(base, t + 1)
    && x.Value(base) == x.Magnitude(base) < y.Magnitude(base) * Pow(base, i - t)
    && z.Magnitude(base) * y.Magnitude(base) + x.Magnitude(base) == total
    && forall k :: 0 <= k < i - t ==> z.p[k] == 0
  }

  method DigitStep(x: Mpi, y: Mpi, z: Mpi, t1: Mpi, t2: Mpi, i: nat, t: nat, bits: nat, base: nat, reliable: bool,
                   ghost total: nat)
    returns (ret: int)
    requires base > 1 && bits > 0 && base == Pow2(bits) && t < i && Progress(x, y, z, i, t, base, total)
    requires Apart(x, y, z, t1, t2) && t1.Valid(base) && t2.Valid(base) && 2 <= t1.p.Length && 3 <= t2.p.Length
    modifies x, x.p, z.p, t1, t1.p, t2, t2.p
    ensures ret == 0 || ret == ALLOC_FAILED
    ensures reliable && i + 4 <= MAX_LIMBS ==> ret == 0
    ensures x.Valid(base) && z.Valid(base) && (x.p == old(x.p) || fresh(x.p)) && x.p.Length >= old(x.p.Length)
    ensures t1.Valid(base) && t2.Valid(base) && (t1.p == old(t1.p) || fresh(t1.p)) && t2.p == old(t2.p)
    ensures 2 <= t1.p.Length && x.p != t1.p
    ensures ret == 0 ==> Progress(x, y, z, i - 1, t, base, total)
  {
    ghost var xv, yv, zs := x.Magnitude(base), y.Magnitude(base), z.p[..];
    LimbAt(y.p[..], t, base);
    OneLimbLess(yv, base, i - t);
    ret := DivideDigit(x, y, z, t1, t2, i, t, bits, base, reliable);
    if ret != 0 { return; }
    DigitWritten(zs, z.p[..], i - t - 1, z.p[i - t - 1], base);
    NextDigit(Val(zs, base), z.p[i - t - 1], Pow(base, i - t - 1), yv, xv, x.Magnitude(base), total);
  }

  /** The loop over the digits, from the top. */
  method DivideDigits(x: Mpi, y: Mpi, z: Mpi, t1: Mpi, t2: Mpi, n: nat, t: nat, bits: nat, base: nat, reliable: bool,
                      ghost total: nat)
    returns (ret: int)
    requires base > 1 && bits > 0 && base == Pow2(bits) && Progress(x, y, z, n, t, base, total)
    requires Apart(x, y, z, t1, t2) && t1.Valid(base) && t2.Valid(base) && 2 <= t1.p.Length && 3 <= t2.p.Length
    modifies x, x.p, z.p, t1, t1.p, t2, t2.p
    ensures ret == 0 || ret == ALLOC_FAILED
    ensures reliable && n + 4 <= MAX_LIMBS ==> ret == 0
    ensures x.Valid(base) && z.Valid(base) && (x.p == old(x.p) || fresh(x.p)) && x.p.Length >= old(x.p.Length)
    ensures ret == 0 ==> Progress(x, y, z, t, t, base, total)
  {
    var i := n;
    ret := 0;
    while i > t
      invariant t <= i <= n && ret == 0 && Progress(x, y, z, i, t, base, total)
      invariant t1.Valid(base) && t2.Valid(base) && 2 <= t1.p.Length && 3 <= t2.p.Length
      invariant (x.p == old(x.p) || fresh(x.p)) && (t1.p == old(t1.p) || fresh(t1.p)) && x.p != t1.p
      invariant x.p.Length >= old(x.p.Length) && t2.p == old(t2.p) && z.p == old(z.p) && y.p == old(y.p)
    {
      ret := DigitStep(x, y, z, t1, t2, i, t, bits, base, reliable, total);
      if ret != 0 { return; }
      i := i - 1;
    }
  }

  lemma OneLimbLess(y: nat, base: nat, k: nat)
    requires k > 0
    ensures y * Pow(base, k) == base * (y * Pow(base, k - 1))
  {
    MulAssoc(y, base, Pow(base, k - 1));
  }
}

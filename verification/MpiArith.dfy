/** Signed arithmetic of mbedtls_mpi: comparison, addition, subtraction and products with a limb,
    under every aliasing of the result with its operands. */
module MpiArith {
  import opened Arith
  import opened Limbs
  import opened MulAdd
  import opened MpiRows
  import opened Mpi

  const NEGATIVE_VALUE: int := -10

  // ---------------------------------------------------------------- room for a number

  lemma SmallSig(y: seq<nat>, n: nat, base: nat)
    requires base > 0 && Val(y, base) < Pow(base, n)
    ensures SigLimbs(y) <= n
  {
    var k := SigLimbs(y);
    if k > n {
      TopLimb(y, k - 1, base);
      PowMonotone(base, n, k - 1);
    }
  }

  lemma SmallCopied(y: seq<nat>, n: nat, base: nat)
    requires base > 0 && 0 < n && Val(y, base) < Pow(base, n)
    ensures CopiedLimbs(y) <= n
  {
    SmallSig(y, n, base);
  }

  // ---------------------------------------------------------------- comparison

  /** mbedtls_mpi_cmp_mpi: the sign of the difference. */
  method CmpMpi(x: Mpi, y: Mpi, base: nat) returns (c: int)
    requires base > 0 && x.Valid(base) && y.Valid(base)
    ensures c == Sign(x.Value(base) - y.Value(base))
  {
    var i := Significant(x.p);
    var j := Significant(y.p);
    NonZero(x.p[..], base);
    NonZero(y.p[..], base);
    if i == 0 && j == 0 {
      return 0;
    }
    if i > j {
      LongerIsGreater(x.p[..], i, y.p[..], j, base);
      return x.s;
    }
    if j > i {
      LongerIsGreater(y.p[..], j, x.p[..], i, base);
      return -y.s;
    }
    if x.s > 0 && y.s < 0 {
      return 1;
    }
    if y.s > 0 && x.s < 0 {
      return -1;
    }
    c := ComparePrefixes(x.p, y.p, i, base);
    c := x.s * c;
  }

  lemma NonZero(x: seq<nat>, base: nat)
    requires base > 0
    ensures SigLimbs(x) == 0 <==> Val(x, base) == 0
  {
    var i := SigLimbs(x);
    if i == 0 {
      ValZeros(x, base);
    } else {
      TopLimb(x, i - 1, base);
      PowPositive(base, i - 1);
    }
  }

  /** mbedtls_mpi_cmp_int( X, 0 ). */
  method CompareZero(x: Mpi, base: nat) returns (c: int)
    requires base > 0 && x.Valid(base)
    ensures c == Sign(x.Value(base))
    ensures c == (if x.Magnitude(base) == 0 then 0 else x.s)
  {
    var i := Significant(x.p);
    NonZero(x.p[..], base);
    c := if i == 0 then 0 else x.s;
  }

  // ---------------------------------------------------------------- magnitudes

  /** Two compared additions of one limb are one step of a row whose factor is 1. */
  lemma TwoAdditions(d: nat, s: nat, c: nat, base: nat)
    requires d < base && s < base && c <= 1 && base > 1
    ensures var t := WrapAdd(d, c, base);
            var t' := WrapAdd(t, s, base);
            var c' := Bit(t < c) + Bit(t' < s);
            t' == (s * 1 + d + c) % base && c' == (s * 1 + d + c) / base && c' <= 1
  {
    var t := WrapAdd(d, c, base);
    var t' := WrapAdd(t, s, base);
    WrapAddCarry(d, c, base);
    WrapAddCarry(t, s, base);
    var c' := Bit(t < c) + Bit(t' < s);
    assert base * Bit(t < c) + base * Bit(t' < s) == base * c' by { MulDistrib(base, Bit(t < c), Bit(t' < s)); }
    DivModUnique(s * 1 + d + c, base, c', t');
  }

  /** The limb loop of mbedtls_mpi_add_abs; d and s may be the same vector. */
  method AddLimbs(d: array<nat>, s: array<nat>, j: nat, base: nat) returns (c: nat)
    requires base > 1 && j <= s.Length && j <= d.Length
    requires IsLimbs(s[..], base) && IsLimbs(d[..], base)
    modifies d
    ensures Carrying(d[..], base, j, c, old(Val(d[..], base)) + old(Val(s[..j], base)))
  {
    ghost var t0, s0 := d[..], s[..];
    c := 0;
    assert s0[..0] == [];
    for i := 0 to j
      invariant Adding(t0, d[..], s0, 1, base, i, c) && c <= 1
      invariant forall k :: i <= k < s.Length ==> s[k] == s0[k]
    {
      ghost var t := d[..];
      var tmp := s[i];
      TwoAdditions(t[i], tmp, c, base);
      AddingStep(t0, t, s0, 1, base, i, c, (s0[i] * 1 + t[i] + c) % base, (s0[i] * 1 + t[i] + c) / base);
      d[i] := WrapAdd(d[i], c, base);
      var c1 := Bit(d[i] < c);
      d[i] := WrapAdd(d[i], tmp, base);
      c := c1 + Bit(d[i] < tmp);
      assert d[..] == t[i := d[i]];
    }
    assert s0[..j] == old(s[..j]);
  }

  lemma CarryNeedsRoom(t: seq<nat>, base: nat, k: nat, c: nat, total: nat, room: nat)
    requires Carrying(t, base, k, c, total) && base > 1 && c > 0 && total < Pow(base, room)
    ensures k < room
  {
    if k >= room {
      PowMonotone(base, room, k);
      MulMonotone(1, c, Pow(base, k));
    }
  }

  lemma CarryInLonger(t: seq<nat>, t': seq<nat>, base: nat, k: nat, c: nat, total: nat)
    requires Carrying(t, base, k, c, total) && |t| <= |t'| && IsLimbs(t', base) && Val(t', base) == Val(t, base)
    ensures Carrying(t', base, k, c, total)
  {
  }

  lemma CarryWithin(t: seq<nat>, base: nat, k: nat, c: nat, total: nat)
    requires Carrying(t, base, k, c, total) && base > 1
    ensures c > 0 ==> Pow(base, k) <= total
    ensures Pow(base, k) < Pow(base, k + 1)
  {
    PowPositive(base, k);
    MulMonotone(2, base, Pow(base, k));
    if c > 0 {
      MulMonotone(1, c, Pow(base, k));
    }
  }

  /** The carry loop of mbedtls_mpi_add_abs, which lets X grow limb by limb. */
  method CarryUp(x: Mpi, j: nat, c: nat, base: nat, reliable: bool, ghost total: nat, ghost room: nat)
    returns (ret: int)
    requires base > 1 && j <= x.p.Length && Carrying(x.p[..], base, j, c, total)
    modifies x, x.p
    ensures ret == 0 || ret == ALLOC_FAILED
    ensures reliable && room <= MAX_LIMBS && total < Pow(base, room) ==> ret == 0
    ensures x.s == old(x.s) && IsLimbs(x.p[..], base)
    ensures (x.p == old(x.p) || fresh(x.p)) && x.p.Length >= old(x.p.Length)
    ensures ret == 0 ==> x.Magnitude(base) == total
  {
    var i: nat, c: nat := j, c;
    ret := 0;
    CarryWithin(x.p[..], base, i, c, total);
    while c != 0
      invariant ret == 0 && x.s == old(x.s) && (x.p == old(x.p) || fresh(x.p)) && old(x.p.Length) <= x.p.Length
      invariant i <= x.p.Length && Carrying(x.p[..], base, i, c, total)
      invariant c != 0 ==> Pow(base, i) <= total
      decreases if c == 0 then 0 else 1 + total - Pow(base, i)
    {
      ret := RoomForCarry(x, i, c, base, reliable, total, room);
      if ret != 0 { return; }
      ghost var t := x.p[..];
      CarryingStep(t, base, i, c, total);
      CarryWithin(t, base, i, c, total);
      var p := x.p;
      p[i] := WrapAdd(p[i], c, base);
      assert p[..] == t[i := p[i]];
      c := Bit(p[i] < c);
      i := i + 1;
      CarryWithin(p[..], base, i, c, total);
    }
    assert Pow(base, i) * 0 == 0;
  }

  method RoomForCarry(x: Mpi, i: nat, c: nat, base: nat, reliable: bool, ghost total: nat, ghost room: nat)
    returns (ret: int)
    requires base > 1 && c > 0 && i <= x.p.Length && Carrying(x.p[..], base, i, c, total)
    modifies x
    ensures ret == 0 || ret == ALLOC_FAILED
    ensures reliable && room <= MAX_LIMBS && total < Pow(base, room) ==> ret == 0
    ensures x.s == old(x.s) && IsLimbs(x.p[..], base)
    ensures (x.p == old(x.p) || fresh(x.p)) && x.p.Length >= old(x.p.Length)
    ensures ret == 0 ==> i < x.p.Length && Carrying(x.p[..], base, i, c, total)
  {
    ret := 0;
    if i >= x.p.Length {
      ghost var t := x.p[..];
      if total < Pow(base, room) {
        CarryNeedsRoom(t, base, i, c, total, room);
      }
      ret := x.Grow(i + 1, base, reliable);
      if ret == 0 {
        CarryInLonger(t, x.p[..], base, i, c, total);
      }
    }
  }

  /** mbedtls_mpi_add_abs. */
  method AddAbs(x: Mpi, a: Mpi, b: Mpi, base: nat, reliable: bool, ghost room: nat) returns (ret: int)
    requires base > 1 && x.Valid(base) && a.Valid(base) && b.Valid(base)
    requires (x != a ==> x.p != a.p) && (x != b ==> x.p != b.p)
    modifies x, x.p
    ensures ret == 0 || ret == ALLOC_FAILED
    ensures reliable && 0 < room <= MAX_LIMBS && old(a.Magnitude(base) + b.Magnitude(base)) < Pow(base, room) ==>
      ret == 0
    ensures x.Valid(base) && (x.p == old(x.p) || fresh(x.p))
    ensures old(a.p.Length) > 0 && old(b.p.Length) > 0 ==> x.p.Length >= old(x.p.Length)
    ensures ret == 0 ==> x.s == 1 && x.Magnitude(base) == old(a.Magnitude(base)) + old(b.Magnitude(base))
  {
    var first, second := a, b;
    if x == b {
      first, second := x, a;
    }
    ghost var total := a.Magnitude(base) + b.Magnitude(base);
    if total < Pow(base, room) && room > 0 {
      SmallCopied(first.p[..], room, base);
      SmallSig(second.p[..], room, base);
    }
    ret := x.CopyFrom(first, base, reliable);
    if ret != 0 { return; }
    ret := AddTo(x, second, base, reliable, total, room);
  }

  /** The second operand is added to an X that holds the first. */
  method AddTo(x: Mpi, b: Mpi, base: nat, reliable: bool, ghost total: nat, ghost room: nat) returns (ret: int)
    requires base > 1 && x.Valid(base) && b.Valid(base) && (x != b ==> x.p != b.p)
    requires total == x.Magnitude(base) + b.Magnitude(base)
    modifies x, x.p
    ensures ret == 0 || ret == ALLOC_FAILED
    ensures reliable && room <= MAX_LIMBS && total < Pow(base, room) ==> ret == 0
    ensures x.Valid(base) && (x.p == old(x.p) || fresh(x.p)) && x.p.Length >= old(x.p.Length)
    ensures ret == 0 ==> x.s == 1 && x.Magnitude(base) == total
  {
    x.s := 1;
    var j := b.Trimmed(base);
    if total < Pow(base, room) {
      SmallSig(b.p[..], room, base);
    }
    ret := x.Grow(j, base, reliable);
    if ret != 0 { return; }
    var c := AddLimbs(x.p, b.p, j, base);
    ret := CarryUp(x, j, c, base, reliable, total, room);
  }

  /** mbedtls_mpi_sub_abs. */
  method SubAbs(x: Mpi, a: Mpi, b: Mpi, base: nat, reliable: bool) returns (ret: int)
    requires base > 1 && x.Valid(base) && a.Valid(base) && b.Valid(base)
    requires (x != a ==> x.p != a.p) && (x != b ==> x.p != b.p)
    modifies x, x.p
    ensures ret == 0 || ret == ALLOC_FAILED || ret == NEGATIVE_VALUE
    ensures ret == NEGATIVE_VALUE <==> old(a.Magnitude(base)) < old(b.Magnitude(base))
    ensures ret == NEGATIVE_VALUE ==> x.s == old(x.s) && x.p == old(x.p) && x.p[..] == old(x.p[..])
    ensures reliable && CopiedLimbs(old(a.p[..])) <= MAX_LIMBS && CopiedLimbs(old(b.p[..])) <= MAX_LIMBS ==>
      ret != ALLOC_FAILED
    ensures x.Valid(base) && (x.p == old(x.p) || fresh(x.p))
    ensures old(a.p.Length) > 0 ==> x.p.Length >= old(x.p.Length)
    ensures x == a ==> x.p == old(x.p)
    ensures 0 < old(CopiedLimbs(a.p[..])) <= old(x.p.Length) ==> x.p == old(x.p)
    ensures ret == 0 ==> x.s == 1 && x.Magnitude(base) == old(a.Magnitude(base)) - old(b.Magnitude(base))
  {
    var c := CmpAbs(a.p, b.p, base);
    if c < 0 {
      return NEGATIVE_VALUE;
    }
    ret := SubLarger(x, a, b, base, reliable);
  }

  /** The subtraction once the first operand is known not to be the smaller one. */
  method SubLarger(x: Mpi, a: Mpi, b: Mpi, base: nat, reliable: bool) returns (ret: int)
    requires base > 1 && x.Valid(base) && a.Valid(base) && b.Valid(base)
    requires (x != a ==> x.p != a.p) && (x != b ==> x.p != b.p)
    requires b.Magnitude(base) <= a.Magnitude(base)
    modifies x, x.p
    ensures ret == 0 || ret == ALLOC_FAILED
    ensures reliable && CopiedLimbs(old(a.p[..])) <= MAX_LIMBS && SigLimbs(old(b.p[..])) <= MAX_LIMBS ==> ret == 0
    ensures x.Valid(base) && (x.p == old(x.p) || fresh(x.p))
    ensures old(a.p.Length) > 0 ==> x.p.Length >= old(x.p.Length)
    ensures x == a ==> x.p == old(x.p)
    ensures 0 < old(CopiedLimbs(a.p[..])) <= old(x.p.Length) ==> x.p == old(x.p)
    ensures ret == 0 ==> x.s == 1 && x.Magnitude(base) == old(a.Magnitude(base)) - old(b.Magnitude(base))
  {
    var t;
    ret, t := Unaliased(x, b, base, reliable);
    if ret != 0 { return; }
    ret := CopyAndSub(x, a, t, base, reliable);
  }

  method CopyAndSub(x: Mpi, a: Mpi, t: Mpi, base: nat, reliable: bool) returns (ret: int)
    requires base > 1 && x.Valid(base) && a.Valid(base) && t.Valid(base) && (x != a ==> x.p != a.p)
    requires x != t && x.p != t.p && t.Magnitude(base) <= a.Magnitude(base)
    modifies x, x.p
    ensures ret == 0 || ret == ALLOC_FAILED
    ensures reliable && CopiedLimbs(old(a.p[..])) <= MAX_LIMBS ==> ret == 0
    ensures x.Valid(base) && (x.p == old(x.p) || fresh(x.p))
    ensures old(a.p.Length) > 0 ==> x.p.Length >= old(x.p.Length)
    ensures x == a ==> x.p == old(x.p)
    ensures 0 < old(CopiedLimbs(a.p[..])) <= old(x.p.Length) ==> x.p == old(x.p)
    ensures ret == 0 ==> x.s == 1 && x.Magnitude(base) == old(a.Magnitude(base)) - t.Magnitude(base)
  {
    ret := x.CopyFrom(a, base, reliable);
    if ret != 0 { return; }
    SubFrom(x, t, base);
  }

  /** The second operand is subtracted from an X that holds the first. */
  method SubFrom(x: Mpi, t: Mpi, base: nat)
    requires base > 1 && x.Valid(base) && t.Valid(base) && x != t && x.p != t.p
    requires t.Magnitude(base) <= x.Magnitude(base)
    modifies x`s, x.p
    ensures x.Valid(base) && x.s == 1 && x.Magnitude(base) == old(x.Magnitude(base)) - t.Magnitude(base)
  {
    x.s := 1;
    var n := t.Trimmed(base);
    SigFits(t.p[..], x.p[..], base);
    SubHlp(n, t.p, x.p, base);
  }

  /** A number has no more significant limbs than a number not below it has limbs. */
  lemma SigFits(s: seq<nat>, x: seq<nat>, base: nat)
    requires base > 0 && IsLimbs(x, base) && Val(s, base) <= Val(x, base)
    ensures SigLimbs(s) <= |x|
  {
    ValBound(x, base);
    SmallSig(s, |x|, base);
  }

  // ---------------------------------------------------------------- signed numbers

  /** Both operands and their sum fit room limbs. */
  ghost predicate Fits(a: Mpi, b: Mpi, base: nat, room: nat)
    reads a, a.p, b, b.p
  {
    0 < room <= MAX_LIMBS && a.Magnitude(base) + b.Magnitude(base) < Pow(base, room)
  }

  /** The operands can be copied, and X has the room for either. */
  ghost predicate CanCopy(a: Mpi, b: Mpi, limit: nat)
    reads a, a.p, b, b.p
  {
    0 < CopiedLimbs(a.p[..]) <= limit && 0 < CopiedLimbs(b.p[..]) <= limit
  }

  /** |A| - |B| with the sign s when it is not negative, and with the other sign otherwise. */
  method SubSigned(x: Mpi, a: Mpi, b: Mpi, s: int, base: nat, reliable: bool) returns (ret: int)
    requires base > 1 && x.Valid(base) && a.Valid(base) && b.Valid(base) && (s == 1 || s == -1)
    requires (x != a ==> x.p != a.p) && (x != b ==> x.p != b.p)
    modifies x, x.p
    ensures ret == 0 || ret == ALLOC_FAILED
    ensures reliable && old(CopiedLimbs(a.p[..])) <= MAX_LIMBS && old(CopiedLimbs(b.p[..])) <= MAX_LIMBS ==> ret == 0
    ensures x.Valid(base) && (x.p == old(x.p) || fresh(x.p))
    ensures old(a.p.Length) > 0 && old(b.p.Length) > 0 ==> x.p.Length >= old(x.p.Length)
    ensures old(CanCopy(a, b, x.p.Length)) ==> x.p == old(x.p)
    ensures ret == 0 ==> x.Value(base) == s * (old(a.Magnitude(base)) - old(b.Magnitude(base)))
  {
    var c := CmpAbs(a.p, b.p, base);
    if c >= 0 {
      ret := SubWithSign(x, a, b, s, base, reliable);
    } else {
      ret := SubWithSign(x, b, a, -s, base, reliable);
    }
  }

  method SubWithSign(x: Mpi, a: Mpi, b: Mpi, s: int, base: nat, reliable: bool) returns (ret: int)
    requires base > 1 && x.Valid(base) && a.Valid(base) && b.Valid(base) && (s == 1 || s == -1)
    requires (x != a ==> x.p != a.p) && (x != b ==> x.p != b.p) && b.Magnitude(base) <= a.Magnitude(base)
    modifies x, x.p
    ensures ret == 0 || ret == ALLOC_FAILED
    ensures reliable && old(CopiedLimbs(a.p[..])) <= MAX_LIMBS && old(CopiedLimbs(b.p[..])) <= MAX_LIMBS ==> ret == 0
    ensures x.Valid(base) && (x.p == old(x.p) || fresh(x.p))
    ensures old(a.p.Length) > 0 ==> x.p.Length >= old(x.p.Length)
    ensures 0 < old(CopiedLimbs(a.p[..])) <= old(x.p.Length) ==> x.p == old(x.p)
    ensures ret == 0 ==> x.Value(base) == s * (old(a.Magnitude(base)) - old(b.Magnitude(base)))
  {
    ret := SubAbs(x, a, b, base, reliable);
    if ret != 0 { return; }
    x.s := s;
  }

  method AddSigned(x: Mpi, a: Mpi, b: Mpi, s: int, base: nat, reliable: bool, ghost room: nat) returns (ret: int)
    requires base > 1 && x.Valid(base) && a.Valid(base) && b.Valid(base) && (s == 1 || s == -1)
    requires (x != a ==> x.p != a.p) && (x != b ==> x.p != b.p)
    modifies x, x.p
    ensures ret == 0 || ret == ALLOC_FAILED
    ensures reliable && old(Fits(a, b, base, room)) ==> ret == 0
    ensures x.Valid(base) && (x.p == old(x.p) || fresh(x.p))
    ensures old(a.p.Length) > 0 && old(b.p.Length) > 0 ==> x.p.Length >= old(x.p.Length)
    ensures ret == 0 ==> x.Value(base) == s * (old(a.Magnitude(base)) + old(b.Magnitude(base)))
  {
    ret := AddAbs(x, a, b, base, reliable, room);
    if ret != 0 { return; }
    x.s := s;
  }

  /** mbedtls_mpi_add_mpi. */
  method AddMpi(x: Mpi, a: Mpi, b: Mpi, base: nat, reliable: bool, ghost room: nat) returns (ret: int)
    requires base > 1 && x.Valid(base) && a.Valid(base) && b.Valid(base)
    requires (x != a ==> x.p != a.p) && (x != b ==> x.p != b.p)
    modifies x, x.p
    ensures ret == 0 || ret == ALLOC_FAILED
    ensures reliable && old(Fits(a, b, base, room)) ==> ret == 0
    ensures x.Valid(base) && (x.p == old(x.p) || fresh(x.p))
    ensures old(a.p.Length) > 0 && old(b.p.Length) > 0 ==> x.p.Length >= old(x.p.Length)
    ensures old(a.s * b.s) < 0 && old(CanCopy(a, b, x.p.Length)) ==> x.p == old(x.p)
    ensures old(a.s * b.s) < 0 && reliable && old(CanCopy(a, b, MAX_LIMBS)) ==> ret == 0
    ensures ret == 0 ==> x.Value(base) == old(a.Value(base)) + old(b.Value(base))
  {
    SignedSum(a.s, a.Magnitude(base), b.s, b.Magnitude(base));
    if Fits(a, b, base, room) {
      SmallCopied(a.p[..], room, base);
      SmallCopied(b.p[..], room, base);
    }
    if a.s * b.s < 0 {
      ret := SubSigned(x, a, b, a.s, base, reliable);
    } else {
      ret := AddSigned(x, a, b, a.s, base, reliable, room);
    }
  }

  /** mbedtls_mpi_sub_mpi. */
  method SubMpi(x: Mpi, a: Mpi, b: Mpi, base: nat, reliable: bool, ghost room: nat) returns (ret: int)
    requires base > 1 && x.Valid(base) && a.Valid(base) && b.Valid(base)
    requires (x != a ==> x.p != a.p) && (x != b ==> x.p != b.p)
    modifies x, x.p
    ensures ret == 0 || ret == ALLOC_FAILED
    ensures reliable && old(Fits(a, b, base, room)) ==> ret == 0
    ensures x.Valid(base) && (x.p == old(x.p) || fresh(x.p))
    ensures old(a.p.Length) > 0 && old(b.p.Length) > 0 ==> x.p.Length >= old(x.p.Length)
    ensures ret == 0 ==> x.Value(base) == old(a.Value(base)) - old(b.Value(base))
  {
    SignedSum(a.s, a.Magnitude(base), -b.s, b.Magnitude(base));
    if Fits(a, b, base, room) {
      SmallCopied(a.p[..], room, base);
      SmallCopied(b.p[..], room, base);
    }
    if a.s * b.s > 0 {
      ret := SubSigned(x, a, b, a.s, base, reliable);
    } else {
      ret := AddSigned(x, a, b, a.s, base, reliable, room);
    }
  }

  lemma SignedSum(s: int, x: nat, t: int, y: nat)
    requires (s == 1 || s == -1) && (t == 1 || t == -1)
    ensures s * t < 0 ==> s * (x - y) == s * x + t * y
    ensures s * t > 0 ==> s * (x + y) == s * x + t * y
    ensures s * t < 0 || s * t > 0
    ensures t * y == -((-t) * y)
  {
  }

  /** mbedtls_mpi_mul_int. */
  method MulInt(x: Mpi, a: Mpi, b: nat, base: nat, reliable: bool) returns (ret: int)
    requires base > 1 && x.Valid(base) && a.Valid(base) && b < base && (x != a ==> x.p != a.p)
    modifies x, x.p
    ensures ret == 0 || ret == ALLOC_FAILED
    ensures reliable && old(SigLimbs(a.p[..])) + 1 <= MAX_LIMBS ==> ret == 0
    ensures x.Valid(base) && (x.p == old(x.p) || fresh(x.p)) && x.p.Length >= old(x.p.Length)
    ensures ret == 0 ==> x.Value(base) == old(a.Value(base)) * b
    ensures ret == 0 && old(a.p.Length) > 0 ==> x.s == old(a.s)
  {
    var one := new Mpi();
    one.p := new nat[1](i => b);
    assert one.p[..] == [b];
    ValOne(b, base);
    ret := MulMpi(x, a, one, base, reliable);
  }
}

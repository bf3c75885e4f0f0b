/** The multiply-accumulate kernels: "multiply source vector [s] with b, add result to
    destination vector [d] and set carry c", for an arbitrary limb base. */
module MulAdd {
  import opened Arith
  import opened Limbs

  // ---------------------------------------------------------------- the contract of one row

  /** The carry after the first k limbs. */
  function Carry(s: seq<nat>, d: seq<nat>, b: nat, c: nat, base: nat, k: nat): nat
    requires k <= |s| && k <= |d| && base > 0
  {
    if k == 0 then c else (s[k - 1] * b + d[k - 1] + Carry(s, d, b, c, base, k - 1)) / base
  }

  /** The limb stored at place k. */
  function Out(s: seq<nat>, d: seq<nat>, b: nat, c: nat, base: nat, k: nat): nat
    requires k < |s| && k < |d| && base > 0
  {
    (s[k] * b + d[k] + Carry(s, d, b, c, base, k)) % base
  }

  function Row(s: seq<nat>, d: seq<nat>, b: nat, c: nat, base: nat): (r: seq<nat>)
    requires |s| == |d| && base > 0
    ensures |r| == |d|
  {
    seq(|d|, k requires 0 <= k < |d| => Out(s, d, b, c, base, k))
  }

  /** A product of limbs leaves room for two more limbs in a double limb. */
  lemma LaneBound(s: nat, d: nat, b: nat, c: nat, base: nat)
    requires s < base && d < base && b < base && c < base
    ensures s * b + d + c <= base * base - 1
  {
    MulMonotone(s, base - 1, b);
    MulMonotone(b, base - 1, base - 1);
    assert (base - 1) * (base - 1) == base * base - 2 * base + 1;
  }

  lemma QuotientBound(x: nat, base: nat)
    requires base > 0 && x < base * base
    ensures x / base < base
  {
    DivModFacts(x, base);
    if x / base >= base {
      MulMonotone(base, x / base, base);
    }
  }

  lemma StepBound(s: nat, d: nat, b: nat, c: nat, base: nat)
    requires s < base && d < base && b < base && c < base
    ensures (s * b + d + c) / base < base
  {
    LaneBound(s, d, b, c, base);
    QuotientBound(s * b + d + c, base);
  }

  lemma {:induction false} CarryBound(s: seq<nat>, d: seq<nat>, b: nat, c: nat, base: nat, k: nat)
    requires k <= |s| && k <= |d|
    requires IsLimbs(s, base) && IsLimbs(d, base) && b < base && c < base
    ensures Carry(s, d, b, c, base, k) < base
  {
    if k > 0 {
      CarryBound(s, d, b, c, base, k - 1);
      StepBound(s[k - 1], d[k - 1], b, Carry(s, d, b, c, base, k - 1), base);
    }
  }

  /** One more limb adds its place value p to both sides. */
  lemma StepValue(s: nat, d: nat, b: nat, c: nat, base: nat, p: nat)
    requires base > 0
    ensures p * ((s * b + d + c) % base) + (base * p) * ((s * b + d + c) / base)
         == b * (p * s) + p * d + p * c
  {
    var total := s * b + d + c;
    var q, r := total / base, total % base;
    DivModFacts(total, base);
    assert (base * p) * q == p * (q * base);
    MulDistrib(p, r, q * base);
    assert p * r + (base * p) * q == p * total;
    ProductSpread(p, s, b, d, c);
  }

  lemma ProductSpread(p: nat, s: nat, b: nat, d: nat, c: nat)
    ensures p * (s * b + d + c) == b * (p * s) + p * d + p * c
  {
    assert p * (s * b) == b * (p * s);
  }

  lemma {:induction false} RowPrefixValue(s: seq<nat>, d: seq<nat>, b: nat, c: nat, base: nat, k: nat)
    requires |s| == |d| && k <= |d| && base > 0
    ensures Val(Row(s, d, b, c, base)[..k], base) + Pow(base, k) * Carry(s, d, b, c, base, k)
         == Val(d[..k], base) + b * Val(s[..k], base) + c
  {
    var row := Row(s, d, b, c, base);
    if k > 0 {
      RowPrefixValue(s, d, b, c, base, k - 1);
      ValPrefixNext(row, k - 1, base);
      ValPrefixNext(d, k - 1, base);
      ValPrefixNext(s, k - 1, base);
      StepValue(s[k - 1], d[k - 1], b, Carry(s, d, b, c, base, k - 1), base, Pow(base, k - 1));
      MulDistrib(b, Val(s[..k - 1], base), Pow(base, k - 1) * s[k - 1]);
    }
  }

  /** What a row computes: one exact equation between the vectors' numbers, with every stored
      limb and the carry in range. */
  lemma RowValue(s: seq<nat>, d: seq<nat>, b: nat, c: nat, base: nat)
    requires |s| == |d|
    requires IsLimbs(s, base) && IsLimbs(d, base) && b < base && c < base
    ensures IsLimbs(Row(s, d, b, c, base), base)
    ensures Carry(s, d, b, c, base, |d|) < base
    ensures Val(Row(s, d, b, c, base), base) + Pow(base, |d|) * Carry(s, d, b, c, base, |d|)
         == Val(d, base) + b * Val(s, base) + c
  {
    RowPrefixValue(s, d, b, c, base, |d|);
    CarryBound(s, d, b, c, base, |d|);
    assert Row(s, d, b, c, base)[..|d|] == Row(s, d, b, c, base);
    assert d[..|d|] == d && s[..|d|] == s;
  }

  lemma {:induction false} ValInjective(s: seq<nat>, t: seq<nat>, base: nat)
    requires |s| == |t| && IsLimbs(s, base) && IsLimbs(t, base)
    requires Val(s, base) == Val(t, base)
    ensures s == t
  {
    if s != [] {
      assert s[0] < base && t[0] < base;
      var u, v := Val(s[1..], base), Val(t[1..], base);
      DivModUnique(Val(s, base), base, u, s[0]);
      DivModUnique(Val(s, base), base, v, t[0]);
      ValInjective(s[1..], t[1..], base);
      assert s == [s[0]] + s[1..] && t == [t[0]] + t[1..];
    }
  }

  /** Two splits of one number at the same place value agree. */
  lemma SplitUnique(lo: nat, hi: nat, lo': nat, hi': nat, p: nat)
    requires lo < p && lo' < p && lo + p * hi == lo' + p * hi'
    ensures lo == lo' && hi == hi'
  {
    DivModUnique(lo + p * hi, p, hi, lo);
    DivModUnique(lo + p * hi, p, hi', lo');
  }

  /** The equation and the ranges determine the row: every kernel that meets them is the same
      kernel, whatever its instructions. */
  lemma RowUnique(s: seq<nat>, d: seq<nat>, b: nat, c: nat, base: nat, out: seq<nat>, carry: nat)
    requires |s| == |d| == |out|
    requires IsLimbs(s, base) && IsLimbs(d, base) && b < base && c < base
    requires IsLimbs(out, base)
    requires Val(out, base) + Pow(base, |d|) * carry == Val(d, base) + b * Val(s, base) + c
    ensures out == Row(s, d, b, c, base) && carry == Carry(s, d, b, c, base, |d|)
  {
    RowValue(s, d, b, c, base);
    var row := Row(s, d, b, c, base);
    ValBound(out, base);
    ValBound(row, base);
    SplitUnique(Val(out, base), carry, Val(row, base), Carry(s, d, b, c, base, |d|), Pow(base, |d|));
    ValInjective(out, row, base);
  }

  // ---------------------------------------------------------------- one-limb kernels

  /** Unsigned addition in one limb, and the comparison that recovers its carry. */
  function WrapAdd(x: nat, y: nat, base: nat): nat
    requires base > 0
  {
    (x + y) % base
  }

  function Bit(p: bool): nat { if p then 1 else 0 }

  lemma WrapAddCarry(x: nat, y: nat, base: nat)
    requires x < base && y < base
    ensures x + y == WrapAdd(x, y, base) + base * Bit(WrapAdd(x, y, base) < y)
    ensures WrapAdd(x, y, base) < base
  {
    if x + y >= base {
      DivModUnique(x + y, base, 1, x + y - base);
    } else {
      DivModUnique(x + y, base, 0, x + y);
    }
  }

  /** A double limb splits in one way, so knowing it as low and high part fixes both. */
  lemma Combine(total: nat, r0: nat, r1: nat, base: nat)
    requires r0 < base && total == r0 + base * r1
    ensures r0 == total % base && r1 == total / base
  {
    DivModUnique(total, base, r1, r0);
  }

  /** A partial sum that stays below a double limb has a high part that stays below a limb, so
      incrementing it does not wrap. */
  lemma HighPartFits(low: nat, high: nat, base: nat)
    requires base > 0 && low + base * high < base * base
    ensures high < base
  {
    if high >= base {
      MulMonotone(base, high, base);
    }
  }

  /** A wrapping addition to the low limb, whose carry a comparison recovers for the high one. */
  method AddCompare(r0: nat, r1: nat, x: nat, base: nat) returns (r0': nat, r1': nat)
    requires r0 < base && x < base
    requires r0 + base * r1 + x < base * base
    ensures r0' < base && r1' < base
    ensures r0' + base * r1' == r0 + base * r1 + x
  {
    WrapAddCarry(r0, x, base);
    r0' := WrapAdd(r0, x, base);
    MulDistrib(base, r1, Bit(r0' < x));
    HighPartFits(r0', r1 + Bit(r0' < x), base);
    DivModUnique(r1 + Bit(r0' < x), base, 0, r1 + Bit(r0' < x));
    r1' := (r1 + Bit(r0' < x)) % base;
  }

  /** The sum an adder leaves in a limb, and its carry flag. */
  function Low(sum: nat, base: nat): nat { if sum >= base then sum - base else sum }
  function Flag(sum: nat, base: nat): nat { if sum >= base then 1 else 0 }

  /** The same step with the carry flag. */
  method AddFlag(lo: nat, hi: nat, x: nat, base: nat) returns (lo': nat, hi': nat)
    requires lo < base && x < base
    requires lo + base * hi + x < base * base
    ensures lo' < base && hi' < base
    ensures lo' + base * hi' == lo + base * hi + x
  {
    var cf: nat;
    lo', cf := Low(lo + x, base), Flag(lo + x, base);
    MulDistrib(base, hi, cf);
    HighPartFits(lo', hi + cf, base);
    hi' := Low(hi + cf, base);
  }

  /** The double-width product of two limbs, split in two. */
  method WideMultiply(s: nat, b: nat, base: nat) returns (lo: nat, hi: nat)
    requires base > 0
    ensures lo < base && lo + base * hi == s * b
  {
    DivModFacts(s * b, base);
    lo := (s * b) % base;
    hi := (s * b) / base;
  }

  /** MULADDC_CORE with a double-width product. */
  method CoreLongLong(s: nat, d: nat, b: nat, c: nat, base: nat) returns (dOut: nat, cOut: nat)
    requires s < base && d < base && b < base && c < base
    ensures dOut == (s * b + d + c) % base
    ensures cOut == (s * b + d + c) / base
  {
    LaneBound(s, d, b, c, base);
    var r0, r1 := WideMultiply(s, b, base);
    r0, r1 := AddBothCompared(r0, r1, c, d, base, s * b + d + c);
    Combine(s * b + d + c, r0, r1, base);
    cOut, dOut := r1, r0;
  }

  method AddBothCompared(r0: nat, r1: nat, c: nat, d: nat, base: nat, ghost total: nat) returns (lo: nat, hi: nat)
    requires r0 < base && c < base && d < base && total == r0 + base * r1 + c + d < base * base
    ensures lo < base && lo + base * hi == total
  {
    lo, hi := AddCompare(r0, r1, c, base);
    lo, hi := AddCompare(lo, hi, d, base);
  }

  /** MULADDC_CORE on IA-32: lodsl, mull, addl/adcl twice, movl, stosl. */
  method CoreI386(s: nat, d: nat, b: nat, c: nat, base: nat) returns (dOut: nat, cOut: nat)
    requires s < base && d < base && b < base && c < base
    ensures dOut == (s * b + d + c) % base
    ensures cOut == (s * b + d + c) / base
  {
    LaneBound(s, d, b, c, base);
    var eax, edx := WideMultiply(s, b, base);
    eax, edx := AddBothFlagged(eax, edx, c, d, base, s * b + d + c);
    Combine(s * b + d + c, eax, edx, base);
    var ecx := edx;
    dOut, cOut := eax, ecx;
  }

  method AddBothFlagged(eax: nat, edx: nat, c: nat, d: nat, base: nat, ghost total: nat) returns (lo: nat, hi: nat)
    requires eax < base && c < base && d < base && total == eax + base * edx + c + d < base * base
    ensures lo < base && lo + base * hi == total
  {
    lo, hi := AddFlag(eax, edx, c, base);
    lo, hi := AddFlag(lo, hi, d, base);
  }

  /** Schoolbook expansion over half limbs. */
  lemma HalfExpansion(s0: nat, s1: nat, b0: nat, b1: nat, half: nat)
    ensures (s0 + half * s1) * (b0 + half * b1)
         == s0 * b0 + half * (s0 * b1) + half * (s1 * b0) + half * half * (s1 * b1)
  {
    calc {
      (s0 + half * s1) * (b0 + half * b1);
      s0 * b0 + s0 * (half * b1) + (half * s1) * b0 + (half * s1) * (half * b1);
      { assert s0 * (half * b1) == half * (s0 * b1);
        assert (half * s1) * b0 == half * (s1 * b0);
        assert (half * s1) * (half * b1) == half * half * (s1 * b1); }
      s0 * b0 + half * (s0 * b1) + half * (s1 * b0) + half * half * (s1 * b1);
    }
  }

  lemma FourProducts(s: nat, b: nat, s0: nat, s1: nat, b0: nat, b1: nat, half: nat, r0: nat, r1: nat, rx: nat, ry: nat)
    requires s == s0 + half * s1 && b == b0 + half * b1
    requires r0 == s0 * b0 && rx == s0 * b1 && ry == s1 * b0 && r1 == s1 * b1
    ensures s * b == r0 + half * rx + half * ry + half * half * r1
  {
    HalfExpansion(s0, s1, b0, b1, half);
  }

  /** A product of two half limbs fits a limb. */
  method HalfMultiply(x: nat, y: nat, half: nat) returns (p: nat)
    requires x < half && y < half
    ensures p == x * y < half * half
  {
    ProductBound(x, y, half, half);
    p := x * y;
  }

  /** A cross product x, weighted by half a limb: its high half goes to the high limb, its low
      half, shifted up, to the low limb. */
  lemma CrossSplit(x: nat, half: nat)
    requires half > 0 && x < half * half
    ensures half * x == (x * half) % (half * half) + (half * half) * (x / half)
    ensures (x * half) % (half * half) < half * half
  {
    DivModFacts(x, half);
    var q, r := x / half, x % half;
    assert half * x == half * (q * half) + half * r;
    assert half * (q * half) == q * (half * half);
    MulMonotone(r + 1, half, half);
    MulPositive(half, half);
    DivModUnique(x * half, half * half, q, half * r);
  }

  /** The two halves of a limb. */
  method Halve(x: nat, half: nat) returns (lo: nat, hi: nat)
    requires half > 0 && x < half * half
    ensures lo < half && hi < half && x == lo + half * hi
  {
    QuotientBound(x, half);
    DivModFacts(x, half);
    lo, hi := x % half, x / half;
  }

  /** The four partial products, arranged as the kernel adds them up. */
  lemma HalfSum(product: nat, r0: nat, rx: nat, ry: nat, r1: nat, half: nat)
    requires half > 0 && rx < half * half && ry < half * half
    requires product == r0 + half * rx + half * ry + half * half * r1
    ensures (rx * half) % (half * half) < half * half && (ry * half) % (half * half) < half * half
    ensures product == r0 + (rx * half) % (half * half) + (ry * half) % (half * half)
                       + (half * half) * (r1 + rx / half + ry / half)
  {
    CrossSplit(rx, half);
    CrossSplit(ry, half);
    MulDistrib(half * half, r1 + rx / half, ry / half);
    MulDistrib(half * half, r1, rx / half);
  }

  /** Neither addition to the high limb wraps, because the whole product fits a double limb. */
  method AddHigh(r1: nat, x: nat, y: nat, ghost low: nat, base: nat) returns (r1': nat)
    requires base > 0
    requires low + base * (r1 + x + y) < base * base
    ensures r1' == r1 + x + y < base
  {
    HighPartFits(low, r1 + x + y, base);
    DivModUnique(r1 + x, base, 0, r1 + x);
    r1' := (r1 + x) % base;
    DivModUnique(r1' + y, base, 0, r1' + y);
    r1' := (r1' + y) % base;
  }

  /** The four products of the halves. */
  method Products(s: nat, b: nat, s0: nat, s1: nat, b0: nat, b1: nat, half: nat)
    returns (r0: nat, r1: nat, rx: nat, ry: nat)
    requires s0 < half && s1 < half && b0 < half && b1 < half
    requires s == s0 + half * s1 && b == b0 + half * b1
    ensures r0 < half * half && rx < half * half && ry < half * half
    ensures s * b == r0 + half * rx + half * ry + half * half * r1
  {
    rx := HalfMultiply(s0, b1, half);
    r0 := HalfMultiply(s0, b0, half);
    ry := HalfMultiply(s1, b0, half);
    r1 := HalfMultiply(s1, b1, half);
    FourProducts(s, b, s0, s1, b0, b1, half, r0, r1, rx, ry);
  }

  /** Both limbs cut in half, and the four products. */
  method HalfProducts(s: nat, b: nat, half: nat) returns (r0: nat, r1: nat, rx: nat, ry: nat)
    requires half > 0 && s < half * half && b < half * half
    ensures r0 < half * half && (rx * half) % (half * half) < half * half && (ry * half) % (half * half) < half * half
    ensures s * b == r0 + (rx * half) % (half * half) + (ry * half) % (half * half)
                     + (half * half) * (r1 + rx / half + ry / half)
  {
    var b0, b1 := Halve(b, half);
    var s0, s1 := Halve(s, half);
    r0, r1, rx, ry := Products(s, b, s0, s1, b0, b1, half);
    HalfSum(s * b, r0, rx, ry, r1, half);
  }

  /** The first half of the half-limb kernel: the product s * b as three low parts and a high
      part, none of which wraps. */
  method PartialProducts(s: nat, b: nat, half: nat) returns (r0: nat, r1: nat, rx: nat, ry: nat)
    requires half > 0 && s < half * half && b < half * half
    ensures r0 < half * half && rx < half * half && ry < half * half && r1 < half * half
    ensures r0 + rx + ry + (half * half) * r1 == s * b
  {
    r0, r1, rx, ry := HalfProducts(s, b, half);
    ProductBound(s, b, half * half, half * half);
    ghost var low := r0 + (rx * half) % (half * half) + (ry * half) % (half * half);
    r1 := AddHigh(r1, rx / half, ry / half, low, half * half);
    rx := (rx * half) % (half * half);
    ry := (ry * half) % (half * half);
  }

  /** MULADDC_CORE in half limbs, for any half base: four partial products, every carry
      recovered by comparison. */
  method CoreGeneric(s: nat, d: nat, b: nat, c: nat, half: nat) returns (dOut: nat, cOut: nat)
    requires half > 0
    requires s < half * half && d < half * half && b < half * half && c < half * half
    ensures dOut == (s * b + d + c) % (half * half)
    ensures cOut == (s * b + d + c) / (half * half)
  {
    LaneBound(s, d, b, c, half * half);
    var r0, r1, rx, ry := PartialProducts(s, b, half);
    r0, r1 := SumLow(r0, r1, rx, ry, c, d, half * half, s * b + d + c);
    Combine(s * b + d + c, r0, r1, half * half);
    cOut, dOut := r1, r0;
  }

  /** The second half of the half-limb kernel: four compared additions. */
  method SumLow(r0: nat, r1: nat, rx: nat, ry: nat, c: nat, d: nat, base: nat, ghost total: nat)
    returns (lo: nat, hi: nat)
    requires r0 < base && rx < base && ry < base && c < base && d < base
    requires total == r0 + rx + ry + base * r1 + d + c < base * base
    ensures lo < base && lo + base * hi == total
  {
    lo, hi := AddCompare(r0, r1, rx, base);
    lo, hi := AddCompare(lo, hi, ry, base);
    lo, hi := AddCompare(lo, hi, c, base);
    lo, hi := AddCompare(lo, hi, d, base);
  }
}

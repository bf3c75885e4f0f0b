/** Assembly forms of the row kernel that work across limbs: the PowerPC core, whose running
    carry is split between r5 and the CA flag, and the software-pipelined SSE2 block of eight
    limbs. Both are proved equal to the row of module MulAdd. */
module MulAddAsm {
  import opened Arith
  import opened Limbs
  import opened MulAdd

  /** after is before with the n limbs from di replaced by the row s * b + d + c. */
  ghost predicate RowStored(before: seq<nat>, after: seq<nat>, di: nat, s: seq<nat>, b: nat, c: nat, base: nat)
    requires di + |s| <= |before| && base > 0
  {
    && |after| == |before|
    && after[..di] == before[..di]
    && after[di..di + |s|] == Row(s, before[di..di + |s|], b, c, base)
    && after[di + |s|..] == before[di + |s|..]
  }

  /** The same, cell by cell. */
  lemma StoredByCells(before: seq<nat>, after: seq<nat>, di: nat, s: seq<nat>, b: nat, c: nat, base: nat)
    requires di + |s| <= |before| && base > 0 && |after| == |before|
    requires forall j :: di <= j < di + |s| ==> after[j] == Row(s, before[di..di + |s|], b, c, base)[j - di]
    requires forall j :: 0 <= j < |after| && !(di <= j < di + |s|) ==> after[j] == before[j]
    ensures RowStored(before, after, di, s, b, c, base)
  {
    var row, cells := Row(s, before[di..di + |s|], b, c, base), after[di..di + |s|];
    assert |row| == |cells|;
    forall j | 0 <= j < |s| ensures cells[j] == row[j] {
      assert cells[j] == after[di + j];
    }
    assert cells == row;
  }

  lemma StoredRowValue(before: seq<nat>, after: seq<nat>, di: nat, s: seq<nat>, b: nat, c: nat, base: nat)
    requires di + |s| <= |before| && base > 0 && |after| == |before|
    requires IsLimbs(s, base) && IsLimbs(before, base) && b < base && c < base
    requires forall j :: di <= j < di + |s| ==> after[j] == Row(s, before[di..di + |s|], b, c, base)[j - di]
    requires forall j :: 0 <= j < |after| && !(di <= j < di + |s|) ==> after[j] == before[j]
    ensures RowStored(before, after, di, s, b, c, base)
    ensures Val(after[di..di + |s|], base) + Pow(base, |s|) * Carry(s, before[di..di + |s|], b, c, base, |s|)
         == Val(before[di..di + |s|], base) + b * Val(s, base) + c
  {
    StoredByCells(before, after, di, s, b, c, base);
    RowValue(s, before[di..di + |s|], b, c, base);
  }

  // ---------------------------------------------------------------- PowerPC

  /** The high half of a double limb plus the bit carried out of its low half fits a limb when
      the sum fits a double limb. */
  lemma HighHalfPlusBit(low: nat, high: nat, c: nat, base: nat)
    requires low < base && c < base && low + base * high + c < base * base
    ensures high + Flag(low + c, base) < base
    ensures Low(low + c, base) + base * (high + Flag(low + c, base)) == low + base * high + c
  {
    MulDistrib(base, high, Flag(low + c, base));
    HighPartFits(Low(low + c, base), high + Flag(low + c, base), base);
  }

  /** The low limb and the split carry after the last addition of a core. */
  lemma CoreSplit(total: nat, r8: nat, r5: nat, d: nat, base: nat)
    requires r8 < base && d < base
    requires total == r8 + base * r5 + d
    ensures Low(r8 + d, base) == total % base
    ensures r5 + Flag(r8 + d, base) == total / base
  {
    MulDistrib(base, r5, Flag(r8 + d, base));
    Combine(total, Low(r8 + d, base), r5 + Flag(r8 + d, base), base);
  }

  /** The arithmetic of one core on its registers: x is the source limb, y the destination limb.
      The pair (r5, ca) is one carry split in two, before and after. */
  method ArithmeticOfCore(x: nat, y: nat, r5: nat, r6: nat, ca: nat, base: nat) returns (r8: nat, r5': nat, ca': nat)
    requires x < base && y < base && r6 < base && r5 + ca < base
    ensures r8 == (x * r6 + y + (r5 + ca)) % base
    ensures ca' <= 1
    ensures r5' + ca' == (x * r6 + y + (r5 + ca)) / base
  {
    var r9: nat;
    r8, r9, ca' := MultiplyAdde(x, r5, r6, ca, base);
    r5', ca' := AddZe(r9, ca', base);
    r8, ca' := AddC(r8, y, r5', base, x * r6 + y + (r5 + ca));
  }

  /** addc. */
  method AddC(r8: nat, y: nat, ghost r5: nat, base: nat, ghost total: nat) returns (r8': nat, ca: nat)
    requires r8 < base && y < base
    requires total == r8 + base * r5 + y
    ensures r8' == total % base && ca <= 1 && r5 + ca == total / base
  {
    CoreSplit(total, r8, r5, y, base);
    r8', ca := Low(r8 + y, base), Flag(r8 + y, base);
  }

  /** mullw, mulhwu, adde: the running carry r5 + ca joins the product. */
  method MultiplyAdde(x: nat, r5: nat, r6: nat, ca: nat, base: nat) returns (r8: nat, r9: nat, ca': nat)
    requires x < base && r6 < base && r5 + ca < base
    ensures r8 < base && r9 + ca' < base
    ensures r8 + base * (r9 + ca') == x * r6 + (r5 + ca)
  {
    LaneBound(x, 0, r6, r5 + ca, base);
    r8, r9 := WideMultiply(x, r6, base);
    HighHalfPlusBit(r8, r9, r5 + ca, base);
    r8, ca' := Low(r8 + r5 + ca, base), Flag(r8 + r5 + ca, base);
  }

  /** addze: add the carry flag, and set it again. */
  method AddZe(r9: nat, ca: nat, base: nat) returns (r5: nat, ca': nat)
    requires r9 + ca < base
    ensures r5 == r9 + ca && ca' == 0
  {
    r5, ca' := Low(r9 + ca, base), Flag(r9 + ca, base);
  }

  /** Registers r3-r9 and the carry flag CA. r3 and r4 are pointers in limbs into s and d; they
      run one limb behind, as the update-form loads and stores need. */
  class PowerPc {
    const s: array<nat>
    const d: array<nat>
    const base: nat
    var r3: int
    var r4: int
    var r5: nat
    var r6: nat
    var ca: nat

    constructor (s: array<nat>, d: array<nat>, base: nat)
      ensures this.s == s && this.d == d && this.base == base
    {
      this.s, this.d, this.base := s, d, base;
    }

    /** The machine after k cores of a row that started at si and di with carry c. */
    ghost predicate AfterCores(si: nat, di: nat, src: seq<nat>, dst: seq<nat>, b: nat, c: nat, k: nat)
      reads this
      requires k <= |src| && |src| == |dst| && base > 0
    {
      && r3 == si + k - 1 && r4 == di + k - 1 && r6 == b
      && ca <= 1
      && r5 + ca == Carry(src, dst, b, c, base, k)
    }

    /** MULADDC_INIT: addic clears CA. */
    method Init(si: nat, di: nat, b: nat, c: nat)
      modifies this
      ensures r3 == si - 1 && r4 == di - 1 && r5 == c && r6 == b && ca == 0
    {
      r3, r4, r5, r6 := si, di, c, b;
      r3 := r3 - 1;
      r4 := r4 - 1;
      ca := 0;
    }

    /** MULADDC_CORE: lwzu, mullw, mulhwu, adde, lwz, addze, addc, stwu. */
    method Core(ghost si: nat, ghost di: nat, ghost src: seq<nat>, ghost dst: seq<nat>, ghost b: nat, ghost c: nat,
                ghost k: nat)
      requires s != d && base > 0
      requires |src| == |dst| && k < |src|
      requires si + |src| <= s.Length && di + |src| <= d.Length
      requires IsLimbs(src, base) && IsLimbs(dst, base) && b < base && c < base
      requires AfterCores(si, di, src, dst, b, c, k)
      requires s[si + k] == src[k] && d[di + k] == dst[k]
      modifies this, d
      ensures AfterCores(si, di, src, dst, b, c, k + 1)
      ensures d[di + k] == Out(src, dst, b, c, base, k)
      ensures forall j :: 0 <= j < d.Length && j != di + k ==> d[j] == old(d[j])
    {
      CarryBound(src, dst, b, c, base, k);
      r3 := r3 + 1;
      var r7 := s[r3];
      var r8: nat;
      r8, r5, ca := ArithmeticOfCore(r7, d[r4 + 1], r5, r6, ca, base);
      r4 := r4 + 1;
      d[r4] := r8;
    }

    /** MULADDC_STOP: the pending CA is folded into r5. */
    method Stop() returns (c: nat, dPtr: int, sPtr: int)
      requires r5 + ca < base
      modifies this
      ensures c == old(r5 + ca) && dPtr == old(r4) + 1 && sPtr == old(r3) + 1
    {
      r5, ca := Low(r5 + ca, base), Flag(r5 + ca, base);
      r4 := r4 + 1;
      r3 := r3 + 1;
      c, dPtr, sPtr := r5, r4, r3;
    }

    /** INIT, n times CORE, STOP. */
    method RunRow(n: nat, si: nat, di: nat, b: nat, c: nat) returns (cOut: nat, dPtr: int, sPtr: int)
      requires s != d && base > 0
      requires si + n <= s.Length && di + n <= d.Length
      requires IsLimbs(s[..], base) && IsLimbs(d[..], base) && b < base && c < base
      modifies this, d
      ensures RowStored(old(d[..]), d[..], di, s[si..si + n], b, c, base)
      ensures cOut == Carry(s[si..si + n], old(d[di..di + n]), b, c, base, n) < base
      ensures dPtr == di + n && sPtr == si + n
      // the contract in numbers
      ensures Val(d[di..di + n], base) + Pow(base, n) * cOut
           == old(Val(d[di..di + n], base)) + b * Val(s[si..si + n], base) + c
    {
      ghost var src, dst := s[si..si + n], d[di..di + n];
      ghost var before := d[..];
      Init(si, di, b, c);
      for k := 0 to n
        invariant AfterCores(si, di, src, dst, b, c, k)
        invariant d.Length == |before|
        invariant forall j :: 0 <= j < d.Length && !(di <= j < di + k) ==> d[j] == before[j]
        invariant forall j :: di <= j < di + k ==> d[j] == Row(src, dst, b, c, base)[j - di]
      {
        Core(si, di, src, dst, b, c, k);
      }
      CarryBound(src, dst, b, c, base, n);
      cOut, dPtr, sPtr := Stop();
      assert dst == before[di..di + n];
      StoredRowValue(before, d[..], di, src, b, c, base);
      assert d[di..di + n] == d[..][di..di + n];
    }
  }

  // ---------------------------------------------------------------- SSE2

  /** paddq on a 64-bit lane, which holds a double limb. */
  method Paddq(x: nat, y: nat, lane: nat) returns (z: nat)
    requires x + y < lane
    ensures z == x + y
  {
    DivModUnique(x + y, lane, 0, x + y);
    z := (x + y) % lane;
  }

  /** pmuludq: a lane product leaves room for two limbs. */
  method Pmuludq(mm0: nat, x: nat, base: nat, lane: nat) returns (mm: nat)
    requires x < base && mm0 < base && lane == base * base
    ensures mm == x * mm0
    ensures mm + (base - 1) + (base - 1) < lane
  {
    LaneBound(x, base - 1, mm0, base - 1, base);
    mm := x * mm0;
  }

  /** movd and psrlq: the low limb of the lane is stored, the high one stays as carry. */
  method StoreShift(mm1: nat, base: nat, ghost s: nat, ghost d: nat, ghost b: nat, ghost c: nat)
    returns (low: nat, mm1': nat)
    requires s < base && d < base && b < base && c < base
    requires mm1 == s * b + d + c
    ensures low == (s * b + d + c) % base && mm1' == (s * b + d + c) / base < base
  {
    StepBound(s, d, b, c, base);
    low := mm1 % base;
    mm1' := mm1 / base;
  }

  /** MULADDC_HUIT on eight source limbs and eight memory cells: loads, products and additions
      are interleaved, every lane sum fits, and each cell is loaded before it is overwritten. */
  method HuitRegisters(s0: nat, s1: nat, s2: nat, s3: nat, s4: nat, s5: nat, s6: nat, s7: nat,
                       d0: nat, d1: nat, d2: nat, d3: nat, d4: nat, d5: nat, d6: nat, d7: nat,
                       b: nat, c: nat, base: nat)
    returns (m0: nat, m1: nat, m2: nat, m3: nat, m4: nat, m5: nat, m6: nat, m7: nat,
             ecx: nat, ghost c1: nat, ghost c2: nat, ghost c3: nat, ghost c4: nat, ghost c5: nat, ghost c6: nat,
             ghost c7: nat)
    requires b < base && c < base
    requires s0 < base && d0 < base
    requires s1 < base && d1 < base
    requires s2 < base && d2 < base
    requires s3 < base && d3 < base
    requires s4 < base && d4 < base
    requires s5 < base && d5 < base
    requires s6 < base && d6 < base
    requires s7 < base && d7 < base
    ensures m0 == (s0 * b + d0 + c) % base && c1 == (s0 * b + d0 + c) / base
    ensures m1 == (s1 * b + d1 + c1) % base && c2 == (s1 * b + d1 + c1) / base
    ensures m2 == (s2 * b + d2 + c2) % base && c3 == (s2 * b + d2 + c2) / base
    ensures m3 == (s3 * b + d3 + c3) % base && c4 == (s3 * b + d3 + c3) / base
    ensures m4 == (s4 * b + d4 + c4) % base && c5 == (s4 * b + d4 + c4) / base
    ensures m5 == (s5 * b + d5 + c5) % base && c6 == (s5 * b + d5 + c5) / base
    ensures m6 == (s6 * b + d6 + c6) % base && c7 == (s6 * b + d6 + c6) / base
    ensures m7 == (s7 * b + d7 + c7) % base && ecx == (s7 * b + d7 + c7) / base
  {
    var lane := base * base;
    m0, m1, m2, m3, m4, m5, m6, m7 := d0, d1, d2, d3, d4, d5, d6, d7;
    var mm0, mm1, mm2, mm3, mm4, mm5, mm6, mm7: nat;
    mm1 := c;
    mm0 := b;
    mm3 := m0;
    mm1 := Paddq(mm1, mm3, lane);
    mm2 := Pmuludq(mm0, s0, base, lane);
    mm4 := Pmuludq(mm0, s1, base, lane);
    mm6 := Pmuludq(mm0, s2, base, lane);
    mm7 := Pmuludq(mm0, s3, base, lane);
    mm1 := Paddq(mm1, mm2, lane);
    mm3 := m1;
    mm3 := Paddq(mm3, mm4, lane);
    mm5 := m2;
    mm5 := Paddq(mm5, mm6, lane);
    mm4 := m3;
    mm7 := Paddq(mm7, mm4, lane);
    m0, mm1 := StoreShift(mm1, base, s0, d0, b, c);
    mm2 := Pmuludq(mm0, s4, base, lane);
    mm4 := Pmuludq(mm0, s5, base, lane);
    c1 := mm1;
    mm1 := Paddq(mm1, mm3, lane);
    mm6 := Pmuludq(mm0, s6, base, lane);
    m1, mm1 := StoreShift(mm1, base, s1, d1, b, c1);
    mm3 := Pmuludq(mm0, s7, base, lane);
    c2 := mm1;
    mm1 := Paddq(mm1, mm5, lane);
    mm5 := m4;
    mm2 := Paddq(mm2, mm5, lane);
    m2, mm1 := StoreShift(mm1, base, s2, d2, b, c2);
    c3 := mm1;
    mm1 := Paddq(mm1, mm7, lane);
    mm5 := m5;
    mm4 := Paddq(mm4, mm5, lane);
    m3, mm1 := StoreShift(mm1, base, s3, d3, b, c3);
    c4 := mm1;
    mm1 := Paddq(mm1, mm2, lane);
    mm5 := m6;
    mm6 := Paddq(mm6, mm5, lane);
    m4, mm1 := StoreShift(mm1, base, s4, d4, b, c4);
    c5 := mm1;
    mm1 := Paddq(mm1, mm4, lane);
    mm5 := m7;
    mm3 := Paddq(mm3, mm5, lane);
    m5, mm1 := StoreShift(mm1, base, s5, d5, b, c5);
    c6 := mm1;
    mm1 := Paddq(mm1, mm6, lane);
    m6, mm1 := StoreShift(mm1, base, s6, d6, b, c6);
    c7 := mm1;
    mm1 := Paddq(mm1, mm3, lane);
    m7, mm1 := StoreShift(mm1, base, s7, d7, b, c7);
    ecx := mm1;
  }

  /** The block as eight consecutive cores. */
  method HuitLanes(s: seq<nat>, m: seq<nat>, b: nat, c: nat, base: nat) returns (out: seq<nat>, ecx: nat)
    requires |s| == |m| == 8 && IsLimbs(s, base) && IsLimbs(m, base) && b < base && c < base
    ensures out == Row(s, m, b, c, base)
    ensures ecx == Carry(s, m, b, c, base, 8)
  {
    var m0, m1, m2, m3, m4, m5, m6, m7, cx, c1, c2, c3, c4, c5, c6, c7 :=
      HuitRegisters(s[0], s[1], s[2], s[3], s[4], s[5], s[6], s[7],
                    m[0], m[1], m[2], m[3], m[4], m[5], m[6], m[7], b, c, base);
    ecx := cx;
    out := [m0, m1, m2, m3, m4, m5, m6, m7];
    Chain8(s, m, b, base, [c, c1, c2, c3, c4, c5, c6, c7, ecx], out);
  }

  /** Eight carries that follow from each other are the carries of the row. */
  lemma Chain8(s: seq<nat>, m: seq<nat>, b: nat, base: nat, cs: seq<nat>, out: seq<nat>)
    requires |s| == |m| == |out| == 8 && |cs| == 9 && base > 0
    requires forall k :: 0 <= k < 8 ==> cs[k + 1] == (s[k] * b + m[k] + cs[k]) / base
    requires forall k :: 0 <= k < 8 ==> out[k] == (s[k] * b + m[k] + cs[k]) % base
    ensures out == Row(s, m, b, cs[0], base) && cs[8] == Carry(s, m, b, cs[0], base, 8)
  {
    forall k | 0 <= k <= 8 ensures cs[k] == Carry(s, m, b, cs[0], base, k) {
      ChainAt(s, m, b, base, cs, k);
    }
  }

  lemma {:induction false} ChainAt(s: seq<nat>, m: seq<nat>, b: nat, base: nat, cs: seq<nat>, k: nat)
    requires |s| == |m| == 8 && |cs| == 9 && base > 0 && k <= 8
    requires forall k :: 0 <= k < 8 ==> cs[k + 1] == (s[k] * b + m[k] + cs[k]) / base
    ensures cs[k] == Carry(s, m, b, cs[0], base, k)
  {
    if k > 0 {
      ChainAt(s, m, b, base, cs, k - 1);
      assert cs[(k - 1) + 1] == cs[k];
    }
  }

  /** The same block on the vectors: it is eight consecutive cores. */
  method Huit(s: array<nat>, si: nat, d: array<nat>, di: nat, b: nat, c: nat, base: nat)
    returns (cOut: nat, dPtr: nat, sPtr: nat)
    requires s != d && base > 0
    requires si + 8 <= s.Length && di + 8 <= d.Length
    requires IsLimbs(s[..], base) && IsLimbs(d[..], base) && b < base && c < base
    modifies d
    ensures RowStored(old(d[..]), d[..], di, s[si..si + 8], b, c, base)
    ensures cOut == Carry(s[si..si + 8], old(d[di..di + 8]), b, c, base, 8) < base
    ensures dPtr == di + 8 && sPtr == si + 8
  {
    ghost var src, dst, before := s[si..si + 8], d[di..di + 8], d[..];
    assert before[di..di + 8] == dst;
    var out, ecx := HuitLanes(s[si..si + 8], d[di..di + 8], b, c, base);
    for k := 0 to 8
      invariant forall j :: di <= j < di + k ==> d[j] == out[j - di]
      invariant forall j :: 0 <= j < d.Length && !(di <= j < di + k) ==> d[j] == old(d[j])
    {
      d[di + k] := out[k];
    }
    CarryBound(src, dst, b, c, base, 8);
    StoredByCells(before, d[..], di, src, b, c, base);
    cOut, dPtr, sPtr := ecx, di + 8, si + 8;
  }
}

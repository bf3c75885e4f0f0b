/** The limb-vector helpers of bignum.c: accumulate a row, subtract a vector, compare. */
module MpiRows {
  import opened Arith
  import opened Limbs
  import opened MulAdd
  import opened MulAddAsm
  import opened Sequences

  // ---------------------------------------------------------------- reasoning about one pass

  /** t is t0 after k limbs of "add b * s", with c still to be added at place k. */
  ghost predicate Adding(t0: seq<nat>, t: seq<nat>, s: seq<nat>, b: nat, base: nat, k: nat, c: nat)
  {
    && |t| == |t0| && k <= |s| && k <= |t| && c < base
    && IsLimbs(t, base)
    && (forall j :: k <= j < |t| ==> t[j] == t0[j])
    && Val(t, base) + Pow(base, k) * c == Val(t0, base) + b * Val(s[..k], base)
  }

  lemma AddingStep(t0: seq<nat>, t: seq<nat>, s: seq<nat>, b: nat, base: nat, k: nat, c: nat, x: nat, c': nat)
    requires Adding(t0, t, s, b, base, k, c) && k < |s| && k < |t|
    requires IsLimbs(s, base) && b < base
    requires x == (s[k] * b + t[k] + c) % base && c' == (s[k] * b + t[k] + c) / base
    ensures Adding(t0, t[k := x], s, b, base, k + 1, c')
  {
    ValUpdate(t, k, x, base);
    ValPrefixNext(s, k, base);
    StepValue(s[k], t[k], b, c, base, Pow(base, k));
    MulDistrib(b, Val(s[..k], base), Pow(base, k) * s[k]);
    StepBound(s[k], t[k], b, c, base);
    DivModFacts(s[k] * b + t[k] + c, base);
  }

  /** t is a vector with c still to be added at place k; together they denote total. */
  ghost predicate Carrying(t: seq<nat>, base: nat, k: nat, c: nat, total: nat)
  {
    && k <= |t| && c < base
    && IsLimbs(t, base)
    && Val(t, base) + Pow(base, k) * c == total
  }

  /** A carry that would leave the vector contradicts the number fitting it. */
  lemma CarryStays(t: seq<nat>, base: nat, k: nat, c: nat, total: nat)
    requires Carrying(t, base, k, c, total) && total < Pow(base, |t|) && c > 0
    ensures k < |t|
  {
    if k == |t| {
      MulMonotone(1, c, Pow(base, k));
    }
  }

  lemma CarryingStep(t: seq<nat>, base: nat, k: nat, c: nat, total: nat)
    requires Carrying(t, base, k, c, total) && k < |t| && base > 1
    ensures Carrying(t[k := WrapAdd(t[k], c, base)], base, k + 1, Bit(WrapAdd(t[k], c, base) < c), total)
  {
    var x := WrapAdd(t[k], c, base);
    WrapAddCarry(t[k], c, base);
    ValUpdate(t, k, x, base);
    CarryValue(Pow(base, k), x, Bit(x < c), t[k], c, base);
  }

  lemma CarryValue(p: nat, x: nat, k: nat, y: nat, c: nat, base: nat)
    requires y + c == x + base * k
    ensures p * x + (base * p) * k == p * y + p * c
  {
    assert (base * p) * k == p * (base * k);
    MulDistrib(p, x, base * k);
    MulDistrib(p, y, c);
  }

  /** t is t0 after k limbs of "subtract s", with c still to be subtracted at place k. */
  ghost predicate Subtracting(t0: seq<nat>, t: seq<nat>, s: seq<nat>, base: nat, k: nat, c: nat)
  {
    && |t| == |t0| && k <= |s| && k <= |t| && c <= 1
    && IsLimbs(t, base)
    && (forall j :: k <= j < |t| ==> t[j] == t0[j])
    && Val(t, base) - Pow(base, k) * c == Val(t0, base) - Val(s[..k], base)
  }

  function WrapSub(x: nat, y: nat, base: nat): nat
    requires x < base && y <= base
  {
    if x >= y then x - y else x + base - y
  }

  lemma SubtractingStep(t0: seq<nat>, t: seq<nat>, s: seq<nat>, base: nat, k: nat, c: nat)
    requires Subtracting(t0, t, s, base, k, c) && k < |s| && k < |t| && base > 1
    requires IsLimbs(s, base)
    ensures var t1 := WrapSub(t[k], c, base);
            t1 < base &&
            Subtracting(t0, t[k := WrapSub(t1, s[k], base)], s, base, k + 1, Bit(t1 < s[k]) + Bit(t[k] < c))
  {
    var t1 := WrapSub(t[k], c, base);
    var x, c' := WrapSub(t1, s[k], base), Bit(t1 < s[k]) + Bit(t[k] < c);
    ValUpdate(t, k, x, base);
    ValPrefixNext(s, k, base);
    BorrowValue(Pow(base, k), x, c', t[k], s[k], c, base);
  }

  lemma BorrowValue(p: nat, x: nat, k: nat, y: nat, s: nat, c: nat, base: nat)
    requires x - base * k == y - s - c
    ensures p * x - (base * p) * k == p * y - p * s - p * c
  {
    assert (base * p) * k == p * (base * k);
    assert p * (x - base * k) == p * x - p * (base * k);
    assert p * (y - s - c) == p * y - p * s - p * c;
  }

  ghost predicate Borrowing(t: seq<nat>, base: nat, k: nat, c: nat, total: int)
  {
    && k <= |t| && c <= 1
    && IsLimbs(t, base)
    && Val(t, base) - Pow(base, k) * c == total
  }

  /** A borrow that would leave the vector contradicts the difference being a natural number. */
  lemma BorrowStays(t: seq<nat>, base: nat, k: nat, c: nat, total: int)
    requires Borrowing(t, base, k, c, total) && total >= 0 && c > 0
    ensures k < |t|
  {
    if k == |t| {
      ValBound(t, base);
    }
  }

  lemma BorrowingStep(t: seq<nat>, base: nat, k: nat, c: nat, total: int)
    requires Borrowing(t, base, k, c, total) && k < |t| && base > 1
    ensures Borrowing(t[k := WrapSub(t[k], c, base)], base, k + 1, Bit(t[k] < c), total)
  {
    var x := WrapSub(t[k], c, base);
    ValUpdate(t, k, x, base);
    BorrowValue(Pow(base, k), x, Bit(t[k] < c), t[k], 0, c, base);
  }

  // ---------------------------------------------------------------- mpi_mul_hlp

  /** MULADDC_INIT, n times MULADDC_CORE, MULADDC_STOP, somewhere inside a pass over s. */
  method Cores(n: nat, s: array<nat>, si: nat, d: array<nat>, di: nat, b: nat, c: nat, base: nat, ghost off: nat,
               ghost t0: seq<nat>)
    returns (si': nat, di': nat, c': nat)
    requires s != d && off <= d.Length && di == off + si
    requires si + n <= s.Length && di + n <= d.Length
    requires IsLimbs(s[..], base) && b < base
    requires Adding(t0, d[off..], s[..], b, base, si, c)
    modifies d
    ensures si' == si + n && di' == di + n
    ensures Adding(t0, d[off..], s[..], b, base, si', c')
    ensures d[..off] == old(d[..off])
  {
    si', di', c' := si, di, c;
    for k := 0 to n
      invariant si' == si + k && di' == di + k
      invariant Adding(t0, d[off..], s[..], b, base, si', c')
      invariant d[..off] == old(d[..off])
    {
      ghost var t := d[off..];
      assert t[si'] == d[di'];
      var x, carry := CoreLongLong(s[si'], d[di'], b, c', base);
      AddingStep(t0, t, s[..], b, base, si', c', x, carry);
      d[di'] := x;
      assert d[off..] == t[si' := x];
      c', di', si' := carry, di' + 1, si' + 1;
    }
  }

  /** The unrolled loops of mpi_mul_hlp: blocks of 16 cores, then of 8, then single ones. */
  method AllCores(n: nat, s: array<nat>, d: array<nat>, off: nat, b: nat, base: nat) returns (di: nat, c: nat)
    requires base > 1 && s != d && n <= s.Length && off + n <= d.Length
    requires IsLimbs(s[..], base) && IsLimbs(d[off..], base) && b < base
    modifies d
    ensures di == off + n
    ensures Adding(old(d[off..]), d[off..], s[..], b, base, n, c)
    ensures d[..off] == old(d[..off])
  {
    ghost var t0 := d[off..];
    var i, si := n, 0;
    di, c := off, 0;
    assert s[..][..0] == [];
    while i >= 16
      invariant 0 <= i && si == n - i && di == off + si
      invariant Adding(t0, d[off..], s[..], b, base, si, c) && d[..off] == old(d[..off])
    {
      si, di, c := Cores(16, s, si, d, di, b, c, base, off, t0);
      i := i - 16;
    }
    while i >= 8
      invariant 0 <= i && si == n - i && di == off + si
      invariant Adding(t0, d[off..], s[..], b, base, si, c) && d[..off] == old(d[..off])
    {
      si, di, c := Cores(8, s, si, d, di, b, c, base, off, t0);
      i := i - 8;
    }
    while i > 0
      invariant 0 <= i && si == n - i && di == off + si
      invariant Adding(t0, d[off..], s[..], b, base, si, c) && d[..off] == old(d[..off])
    {
      si, di, c := Cores(1, s, si, d, di, b, c, base, off, t0);
      i := i - 1;
    }
  }

  method RowCores(n: nat, s: array<nat>, d: array<nat>, off: nat, b: nat, base: nat, ghost total: nat)
    returns (di: nat, c: nat)
    requires base > 1 && s != d && n <= s.Length && off + n <= d.Length
    requires IsLimbs(s[..], base) && IsLimbs(d[off..], base) && b < base
    requires total == Val(d[off..], base) + b * Val(s[..n], base)
    modifies d
    ensures di == off + n && Carrying(d[off..], base, n, c, total)
    ensures d[..off] == old(d[..off])
  {
    ghost var t0 := d[off..];
    di, c := AllCores(n, s, d, off, b, base);
    AddingIsCarrying(t0, d[off..], s[..], b, base, n, c, s[..n], total);
  }

  lemma AddingIsCarrying(t0: seq<nat>, t: seq<nat>, s: seq<nat>, b: nat, base: nat, n: nat, c: nat, row: seq<nat>,
                         total: nat)
    requires Adding(t0, t, s, b, base, n, c) && row == s[..n] && total == Val(t0, base) + b * Val(row, base)
    ensures Carrying(t, base, n, c, total)
  {
  }

  lemma LimbsJoined(before: seq<nat>, after: seq<nat>, off: nat, base: nat)
    requires IsLimbs(before, base) && |after| == |before| && off <= |after|
    requires after[..off] == before[..off] && IsLimbs(after[off..], base)
    ensures IsLimbs(after, base)
  {
    assert after == before[..off] + after[off..];
  }

  /** mpi_mul_hlp: add b times the first n limbs of s to the number stored from d + off on. */
  method MulHlp(n: nat, s: array<nat>, d: array<nat>, off: nat, b: nat, base: nat)
    requires base > 1 && s != d && n <= s.Length && off + n < d.Length
    requires IsLimbs(s[..], base) && IsLimbs(d[..], base) && b < base
    requires Val(d[off..], base) + b * Val(s[..n], base) < Pow(base, d.Length - off)
    modifies d
    ensures Val(d[off..], base) == old(Val(d[off..], base)) + b * Val(s[..n], base)
    ensures d[..off] == old(d[..off])
    ensures IsLimbs(d[..], base)
  {
    ghost var before, total := d[..], Val(d[off..], base) + b * Val(s[..n], base);
    var di, c := RowCores(n, s, d, off, b, base, total);
    FinishRow(d, off, di, c, base, before, total);
  }

  /** What is left to do after the last kernel of a row. */
  method FinishRow(d: array<nat>, off: nat, di: nat, c: nat, base: nat, ghost before: seq<nat>, ghost total: nat)
    requires base > 1 && off <= di < d.Length && |before| == d.Length && IsLimbs(before, base)
    requires Carrying(d[off..], base, di - off, c, total) && total < Pow(base, d.Length - off)
    requires d[..off] == before[..off]
    modifies d
    ensures Val(d[off..], base) == total && IsLimbs(d[..], base)
    ensures d[..off] == before[..off]
  {
    Propagate(d, off, di, c, base, total);
    assert d[..][off..] == d[off..] && d[..][..off] == d[..off];
    LimbsJoined(before, d[..], off, base);
  }

  /** The carry out of the row is added to the limbs above it until an addition does not wrap. */
  method Propagate(d: array<nat>, off: nat, di: nat, c: nat, base: nat, ghost total: nat)
    requires base > 1 && off <= di < d.Length
    requires Carrying(d[off..], base, di - off, c, total) && total < Pow(base, d.Length - off)
    modifies d
    ensures Val(d[off..], base) == total && IsLimbs(d[off..], base)
    ensures d[..off] == old(d[..off])
  {
    var di, c := di, c;
    var first := true;
    while first || c != 0
      invariant off <= di <= d.Length && (first ==> di < d.Length)
      invariant Carrying(d[off..], base, di - off, c, total)
      invariant d[..off] == old(d[..off])
      decreases d.Length - di, first
    {
      if c != 0 {
        CarryStays(d[off..], base, di - off, c, total);
      }
      ghost var t := d[off..];
      assert t[di - off] == d[di];
      CarryingStep(t, base, di - off, c, total);
      d[di] := WrapAdd(d[di], c, base);
      assert d[off..] == t[di - off := d[di]];
      c := Bit(d[di] < c);
      di := di + 1;
      first := false;
    }
  }

  // ---------------------------------------------------------------- mpi_mul_hlp over MULADDC_HUIT

  lemma SplicedNext(t: seq<nat>, k: nat, row: seq<nat>, m: nat)
    requires k + |row| <= |t| && 0 < m <= |row|
    ensures Spliced(t, k, row[..m - 1])[k + m - 1] == t[k + m - 1]
    ensures Spliced(t, k, row[..m - 1])[k + m - 1 := row[m - 1]] == Spliced(t, k, row[..m])
  {
  }

  /** A row stored by any kernel advances the pass like single cores do. */
  lemma {:induction false} RowAdvances(t0: seq<nat>, t: seq<nat>, s: seq<nat>, b: nat, base: nat, k: nat, c: nat,
                                       seg: seq<nat>, dst: seq<nat>, m: nat)
    requires Adding(t0, t, s, b, base, k, c) && IsLimbs(s, base) && b < base
    requires k + |seg| <= |s| && k + |seg| <= |t| && m <= |seg|
    requires seg == s[k..k + |seg|] && dst == t[k..k + |seg|]
    ensures Adding(t0, Spliced(t, k, Row(seg, dst, b, c, base)[..m]), s, b, base, k + m, Carry(seg, dst, b, c, base, m))
  {
    var row := Row(seg, dst, b, c, base);
    if m == 0 {
      assert Spliced(t, k, row[..0]) == t;
    } else {
      RowAdvances(t0, t, s, b, base, k, c, seg, dst, m - 1);
      assert t[k + m - 1] == dst[m - 1] && s[k + m - 1] == seg[m - 1];
      RowCell(seg, dst, b, c, base, m - 1);
      SplicedStep(t0, t, s, b, base, k, row, m, Carry(seg, dst, b, c, base, m - 1), Carry(seg, dst, b, c, base, m));
    }
  }

  /** One more cell of a row, spliced in. */
  lemma SplicedStep(t0: seq<nat>, t: seq<nat>, s: seq<nat>, b: nat, base: nat, k: nat, row: seq<nat>, m: nat, c: nat,
                    c': nat)
    requires k + |row| <= |t| && k + |row| <= |s| && 0 < m <= |row| && IsLimbs(s, base) && b < base
    requires Adding(t0, Spliced(t, k, row[..m - 1]), s, b, base, k + m - 1, c)
    requires row[m - 1] == (s[k + m - 1] * b + t[k + m - 1] + c) % base
    requires c' == (s[k + m - 1] * b + t[k + m - 1] + c) / base
    ensures Adding(t0, Spliced(t, k, row[..m]), s, b, base, k + m, c')
  {
    SplicedNext(t, k, row, m);
    AddingStep(t0, Spliced(t, k, row[..m - 1]), s, b, base, k + m - 1, c, row[m - 1], c');
  }

  lemma RowCell(s: seq<nat>, d: seq<nat>, b: nat, c: nat, base: nat, k: nat)
    requires k < |s| && |s| == |d| && base > 0
    ensures Row(s, d, b, c, base)[k] == (s[k] * b + d[k] + Carry(s, d, b, c, base, k)) % base
    ensures Carry(s, d, b, c, base, k + 1) == (s[k] * b + d[k] + Carry(s, d, b, c, base, k)) / base
  {
  }

  lemma WholeRowAdvances(t0: seq<nat>, t: seq<nat>, s: seq<nat>, b: nat, base: nat, k: nat, c: nat, n: nat)
    requires Adding(t0, t, s, b, base, k, c) && k + n <= |s| && k + n <= |t|
    requires IsLimbs(s, base) && b < base
    ensures Adding(t0, Spliced(t, k, Row(s[k..k + n], t[k..k + n], b, c, base)), s, b, base, k + n,
                   Carry(s[k..k + n], t[k..k + n], b, c, base, n))
  {
    RowAdvances(t0, t, s, b, base, k, c, s[k..k + n], t[k..k + n], n);
    var row := Row(s[k..k + n], t[k..k + n], b, c, base);
    assert row[..n] == row;
  }

  lemma SpliceSuffix(before: seq<nat>, after: seq<nat>, off: nat, di: nat, s: seq<nat>, b: nat, c: nat, base: nat)
    requires off <= di && di + |s| <= |before| && base > 0 && RowStored(before, after, di, s, b, c, base)
    ensures after[off..] == Spliced(before[off..], di - off, Row(s, before[di..di + |s|], b, c, base))
    ensures after[..off] == before[..off]
  {
    assert after == after[..di] + after[di..di + |s|] + after[di + |s|..];
    assert after[..off] == after[..di][..off] && before[..off] == before[..di][..off];
  }

  lemma BlockAdvances(t: seq<nat>, t': seq<nat>, s: seq<nat>, si: nat, b: nat, c: nat, base: nat, t0: seq<nat>,
                      seg: seq<nat>, dst: seq<nat>)
    requires si + 8 <= |s| && si + 8 <= |t| && base > 0 && IsLimbs(s, base) && b < base
    requires seg == s[si..si + 8] && dst == t[si..si + 8]
    requires Adding(t0, t, s, b, base, si, c)
    requires t' == Spliced(t, si, Row(seg, dst, b, c, base))
    ensures Adding(t0, t', s, b, base, si + 8, Carry(seg, dst, b, c, base, 8))
  {
    WholeRowAdvances(t0, t, s, b, base, si, c, 8);
  }

  lemma StoredBlockAdvances(before: seq<nat>, after: seq<nat>, off: nat, di: nat, s: seq<nat>, si: nat, b: nat, c: nat,
                            base: nat, t0: seq<nat>, seg: seq<nat>, dst: seq<nat>)
    requires di == off + si && si + 8 <= |s| && di + 8 <= |before| && base > 0 && IsLimbs(s, base) && b < base
    requires seg == s[si..si + 8] && dst == before[di..di + 8]
    requires Adding(t0, before[off..], s, b, base, si, c) && RowStored(before, after, di, seg, b, c, base)
    ensures Adding(t0, after[off..], s, b, base, si + 8, Carry(seg, dst, b, c, base, 8))
    ensures after[..off] == before[..off]
  {
    SpliceSuffix(before, after, off, di, seg, b, c, base);
    assert before[off..][si..si + 8] == dst;
    BlockAdvances(before[off..], after[off..], s, si, b, c, base, t0, seg, dst);
  }

  /** One MULADDC_HUIT block inside a pass over s. */
  method HuitInPass(s: array<nat>, si: nat, d: array<nat>, di: nat, b: nat, c: nat, base: nat, ghost off: nat,
                    ghost t0: seq<nat>)
    returns (c': nat)
    requires s != d && off <= d.Length && di == off + si && base > 1
    requires si + 8 <= s.Length && di + 8 <= d.Length
    requires IsLimbs(s[..], base) && IsLimbs(d[..], base) && b < base
    requires Adding(t0, d[off..], s[..], b, base, si, c)
    modifies d
    ensures Adding(t0, d[off..], s[..], b, base, si + 8, c')
    ensures d[..off] == old(d[..off]) && IsLimbs(d[..], base)
  {
    ghost var before, seg, dst := d[..], s[si..si + 8], d[di..di + 8];
    assert before[off..] == d[off..] && dst == before[di..di + 8] && s[..][si..si + 8] == seg;
    var dPtr, sPtr;
    c', dPtr, sPtr := Huit(s, si, d, di, b, c, base);
    StoredBlockAdvances(before, d[..], off, di, s[..], si, b, c, base, t0, seg, dst);
    assert d[..][off..] == d[off..] && d[..][..off] == d[..off] && before[..off] == old(d[..off]);
    LimbsJoined(before, d[..], off, base);
  }

  /** mpi_mul_hlp when MULADDC_HUIT is defined: blocks of eight, then single cores. Its contract is
      that of MulHlp. */
  method MulHlpHuit(n: nat, s: array<nat>, d: array<nat>, off: nat, b: nat, base: nat)
    requires base > 1 && s != d && n <= s.Length && off + n < d.Length
    requires IsLimbs(s[..], base) && IsLimbs(d[..], base) && b < base
    requires Val(d[off..], base) + b * Val(s[..n], base) < Pow(base, d.Length - off)
    modifies d
    ensures Val(d[off..], base) == old(Val(d[off..], base)) + b * Val(s[..n], base)
    ensures d[..off] == old(d[..off])
    ensures IsLimbs(d[..], base)
  {
    ghost var before, total := d[..], Val(d[off..], base) + b * Val(s[..n], base);
    var di, c := RowHuit(n, s, d, off, b, base, total);
    FinishRow(d, off, di, c, base, before, total);
  }

  method RowHuit(n: nat, s: array<nat>, d: array<nat>, off: nat, b: nat, base: nat, ghost total: nat)
    returns (di: nat, c: nat)
    requires base > 1 && s != d && n <= s.Length && off + n <= d.Length
    requires IsLimbs(s[..], base) && IsLimbs(d[..], base) && b < base
    requires total == Val(d[off..], base) + b * Val(s[..n], base)
    modifies d
    ensures di == off + n && Carrying(d[off..], base, n, c, total)
    ensures d[..off] == old(d[..off])
  {
    ghost var t0 := d[off..];
    di, c := AllHuit(n, s, d, off, b, base);
    AddingIsCarrying(t0, d[off..], s[..], b, base, n, c, s[..n], total);
  }

  method AllHuit(n: nat, s: array<nat>, d: array<nat>, off: nat, b: nat, base: nat) returns (di: nat, c: nat)
    requires base > 1 && s != d && n <= s.Length && off + n <= d.Length
    requires IsLimbs(s[..], base) && IsLimbs(d[..], base) && b < base
    modifies d
    ensures di == off + n
    ensures Adding(old(d[off..]), d[off..], s[..], b, base, n, c)
    ensures d[..off] == old(d[..off])
  {
    ghost var t0 := d[off..];
    var i, si := n, 0;
    di, c := off, 0;
    assert s[..][..0] == [];
    while i >= 8
      invariant 0 <= i && si == n - i && di == off + si && IsLimbs(d[..], base)
      invariant Adding(t0, d[off..], s[..], b, base, si, c) && d[..off] == old(d[..off])
    {
      c := HuitInPass(s, si, d, di, b, c, base, off, t0);
      si, di, i := si + 8, di + 8, i - 8;
    }
    while i > 0
      invariant 0 <= i && si == n - i && di == off + si
      invariant Adding(t0, d[off..], s[..], b, base, si, c) && d[..off] == old(d[..off])
    {
      si, di, c := Cores(1, s, si, d, di, b, c, base, off, t0);
      i := i - 1;
    }
  }

  // ---------------------------------------------------------------- mpi_sub_hlp

  /** mpi_sub_hlp: subtract the first n limbs of s from d. */
  method SubHlp(n: nat, s: array<nat>, d: array<nat>, base: nat)
    requires base > 1 && s != d && n <= s.Length && n <= d.Length
    requires IsLimbs(s[..], base) && IsLimbs(d[..], base)
    requires Val(s[..n], base) <= Val(d[..], base)
    modifies d
    ensures Val(d[..], base) == old(Val(d[..], base)) - Val(s[..n], base)
    ensures IsLimbs(d[..], base)
  {
    ghost var t0 := d[..];
    var c: nat := 0;
    assert s[..][..0] == [];
    for i := 0 to n
      invariant Subtracting(t0, d[..], s[..], base, i, c)
    {
      ghost var t := d[..];
      SubtractingStep(t0, t, s[..], base, i, c);
      var z := Bit(d[i] < c);
      d[i] := WrapSub(d[i], c, base);
      c := Bit(d[i] < s[i]) + z;
      d[i] := WrapSub(d[i], s[i], base);
      assert d[..] == t[i := d[i]];
    }
    assert s[..][..n] == s[..n];
    var i := n;
    ghost var total := Val(t0, base) - Val(s[..n], base);
    while c != 0
      invariant i <= d.Length && Borrowing(d[..], base, i, c, total)
      decreases d.Length - i
    {
      BorrowStays(d[..], base, i, c, total);
      ghost var t := d[..];
      BorrowingStep(t, base, i, c, total);
      var z := Bit(d[i] < c);
      d[i] := WrapSub(d[i], c, base);
      assert d[..] == t[i := d[i]];
      c := z;
      i := i + 1;
    }
  }

  // ---------------------------------------------------------------- mbedtls_mpi_cmp_abs

  function Sign(x: int): int { if x < 0 then -1 else if x > 0 then 1 else 0 }

  lemma TopLimb(s: seq<nat>, k: nat, base: nat)
    requires k < |s| && s[k] > 0
    ensures Val(s, base) >= Pow(base, k)
  {
    ValSplit(s, k, base);
    assert s[k..][0] == s[k];
    MulMonotone(0, Val(s[k..][1..], base), base);
    MulMonotone(1, Val(s[k..], base), Pow(base, k));
  }

  /** High limbs of a small number are zero. */
  lemma SmallHasZeros(t: seq<nat>, k: nat, base: nat)
    requires k <= |t| && base > 0 && Val(t, base) < Pow(base, k)
    ensures forall j :: k <= j < |t| ==> t[j] == 0
  {
    forall j | k <= j < |t| ensures t[j] == 0 {
      if t[j] > 0 {
        TopLimb(t, j, base);
        PowMonotone(base, k, j);
      }
    }
  }

  /** Number of limbs without the leading zero ones. */
  function SigLimbs(x: seq<nat>): (i: nat)
    ensures i <= |x|
    ensures forall j :: i <= j < |x| ==> x[j] == 0
    ensures i > 0 ==> x[i - 1] != 0
  {
    if x == [] || x[|x| - 1] != 0 then |x| else SigLimbs(x[..|x| - 1])
  }

  /** The loops that look for the top nonzero limb. */
  method Significant(x: array<nat>) returns (i: nat)
    ensures i == SigLimbs(x[..])
    ensures i <= x.Length
    ensures forall j :: i <= j < x.Length ==> x[j] == 0
    ensures i > 0 ==> x[i - 1] != 0
  {
    i := x.Length;
    while i > 0
      invariant i <= x.Length
      invariant forall j :: i <= j < x.Length ==> x[j] == 0
    {
      if x[i - 1] != 0 { break; }
      i := i - 1;
    }
  }

  lemma LongerIsGreater(x: seq<nat>, i: nat, y: seq<nat>, j: nat, base: nat)
    requires j < i <= |x| && j <= |y| && x[i - 1] != 0 && base > 0
    requires forall k :: j <= k < |y| ==> y[k] == 0
    requires IsLimbs(y, base)
    ensures Val(x, base) > Val(y, base)
  {
    TopLimb(x, i - 1, base);
    ValTrim(y, j, base);
    ValBound(y[..j], base);
    PowMonotone(base, j, i - 1);
  }

  lemma PrefixLess(x: seq<nat>, y: seq<nat>, n: nat, k: nat, base: nat)
    requires k < n <= |x| && n <= |y|
    requires IsLimbs(x, base) && IsLimbs(y, base)
    requires forall j :: n <= j < |x| ==> x[j] == 0
    requires forall j :: n <= j < |y| ==> y[j] == 0
    requires forall j :: k < j < n ==> x[j] == y[j]
    requires x[k] < y[k]
    ensures Val(x, base) < Val(y, base)
  {
    ValTrim(x, n, base);
    ValTrim(y, n, base);
    assert x[..n][k + 1..] == y[..n][k + 1..];
    ValLess(x[..n], y[..n], k, base);
  }

  /** mbedtls_mpi_cmp_abs: the sign of the difference of the two magnitudes. */
  method CmpAbs(x: array<nat>, y: array<nat>, base: nat) returns (r: int)
    requires base > 0 && IsLimbs(x[..], base) && IsLimbs(y[..], base)
    ensures r == Sign(Val(x[..], base) - Val(y[..], base))
  {
    var i := Significant(x);
    var j := Significant(y);
    if i == 0 && j == 0 {
      ValZeros(x[..], base);
      ValZeros(y[..], base);
      return 0;
    }
    if i > j {
      LongerIsGreater(x[..], i, y[..], j, base);
      return 1;
    }
    if j > i {
      LongerIsGreater(y[..], j, x[..], i, base);
      return -1;
    }
    r := ComparePrefixes(x, y, i, base);
  }

  /** Numbers of the same number of limbs: the top one in which they differ decides. */
  method ComparePrefixes(x: array<nat>, y: array<nat>, n: nat, base: nat) returns (r: int)
    requires base > 0 && IsLimbs(x[..], base) && IsLimbs(y[..], base) && n <= x.Length && n <= y.Length
    requires forall j :: n <= j < x.Length ==> x[j] == 0
    requires forall j :: n <= j < y.Length ==> y[j] == 0
    ensures r == Sign(Val(x[..], base) - Val(y[..], base))
  {
    var i := n;
    while i > 0
      invariant 0 <= i <= n
      invariant forall k :: i <= k < n ==> x[k] == y[k]
    {
      if x[i - 1] > y[i - 1] {
        PrefixLess(y[..], x[..], n, i - 1, base);
        return 1;
      }
      if x[i - 1] < y[i - 1] {
        PrefixLess(x[..], y[..], n, i - 1, base);
        return -1;
      }
      i := i - 1;
    }
    SamePrefix(x[..], y[..], n, base);
    r := 0;
  }

  lemma SamePrefix(x: seq<nat>, y: seq<nat>, n: nat, base: nat)
    requires n <= |x| && n <= |y| && forall k :: 0 <= k < n ==> x[k] == y[k]
    requires forall j :: n <= j < |x| ==> x[j] == 0
    requires forall j :: n <= j < |y| ==> y[j] == 0
    ensures Val(x, base) == Val(y, base)
  {
    ValTrim(x, n, base);
    ValTrim(y, n, base);
    assert x[..n] == y[..n];
  }
}

/** struct mbedtls_mpi and baseline multiplication, X = A * B, over any limb base. */
module Mpi {
  import opened Arith
  import opened Limbs
  import opened MpiRows

  const MAX_LIMBS: nat := 10000
  const ALLOC_FAILED: int := -16

  class Mpi {
    var s: int           // sign, 1 or -1
    var p: array<nat>    // limbs, least significant first; the limb count n is p.Length

    ghost predicate Valid(base: nat)
      reads this, p
    {
      (s == 1 || s == -1) && IsLimbs(p[..], base)
    }

    ghost function Magnitude(base: nat): nat
      reads this, p
    {
      Val(p[..], base)
    }

    ghost function Value(base: nat): int
      reads this, p
    {
      s * Magnitude(base)
    }

    /** mbedtls_mpi_init. */
    constructor ()
      ensures s == 1 && p.Length == 0 && fresh(p)
    {
      s := 1;
      p := new nat[0];
    }

    /** mbedtls_mpi_grow: at least n limbs, same number. */
    method Grow(n: nat, base: nat, reliable: bool) returns (ret: int)
      requires IsLimbs(p[..], base) && base > 0
      modifies this
      ensures ret == 0 || ret == ALLOC_FAILED
      ensures n > MAX_LIMBS ==> ret != 0
      ensures n <= MAX_LIMBS && (reliable || n <= old(p.Length)) ==> ret == 0
      ensures ret != 0 ==> p == old(p)
      ensures ret == 0 ==> p.Length == Max(old(p.Length), n)
      ensures p == old(p) || fresh(p)
      ensures n <= old(p.Length) ==> p == old(p)
      ensures s == old(s) && IsLimbs(p[..], base) && Magnitude(base) == old(Magnitude(base))
    {
      if n > MAX_LIMBS {
        return ALLOC_FAILED;
      }
      if p.Length < n {
        var q := Calloc(n, reliable);
        if q == null {
          return ALLOC_FAILED;
        }
        CopyNumber(q, p, p.Length, base);
        p := q;
      }
      ret := 0;
    }

    /** The loop that finds the top nonzero limb. */
    method Trimmed(base: nat) returns (i: nat)
      ensures i == SigLimbs(p[..]) && Val(p[..i], base) == Magnitude(base)
    {
      i := Significant(p);
      ValTrim(p[..], i, base);
      assert p[..][..i] == p[..i];
    }

    /** mbedtls_mpi_lset( X, 0 ). */
    method SetZero(base: nat, reliable: bool) returns (ret: int)
      requires base > 0 && IsLimbs(p[..], base)
      modifies this, p
      ensures ret == 0 || ret == ALLOC_FAILED
      ensures reliable || old(p.Length) > 0 ==> ret == 0
      ensures ret != 0 ==> p == old(p) && p[..] == old(p[..]) && s == old(s)
      ensures p == old(p) || fresh(p)
      ensures old(p.Length) > 0 ==> p == old(p)
      ensures ret == 0 ==> p.Length == Max(old(p.Length), 1)
      ensures ret == 0 ==> s == 1 && forall i :: 0 <= i < p.Length ==> p[i] == 0
    {
      ret := Grow(1, base, reliable);
      if ret != 0 { return; }
      var q := p;
      for i := 0 to q.Length
        invariant p == q
        invariant forall j :: 0 <= j < i ==> q[j] == 0
      {
        q[i] := 0;
      }
      s := 1;
    }

    /** mbedtls_mpi_copy: leading zero limbs are not copied, and a number without limbs is freed.
        A failure has already taken over the sign. */
    method CopyFrom(y: Mpi, base: nat, reliable: bool) returns (ret: int)
      requires base > 0 && Valid(base) && y.Valid(base) && (y != this ==> y.p != p)
      modifies this, p
      ensures ret == 0 || ret == ALLOC_FAILED
      ensures y != this && CopiedLimbs(old(y.p[..])) > Max(old(p.Length), MAX_LIMBS) ==> ret != 0
      ensures y == this || CopiedLimbs(old(y.p[..])) <= old(p.Length) ==> ret == 0
      ensures reliable && CopiedLimbs(old(y.p[..])) <= MAX_LIMBS ==> ret == 0
      ensures Valid(base) && (p == old(p) || fresh(p))
      ensures y == this || 0 < CopiedLimbs(old(y.p[..])) <= old(p.Length) ==> p == old(p)
      ensures ret == 0 ==> Magnitude(base) == old(y.Magnitude(base)) && SigLimbs(p[..]) == SigLimbs(old(y.p[..]))
      ensures ret == 0 && y != this ==>
        p.Length == (if y.p.Length == 0 then 0 else Max(old(p.Length), CopiedLimbs(y.p[..])))
      ensures s == (if y == this || y.p.Length > 0 then old(y.s) else 1)
      ensures ret != 0 ==> p == old(p) && p[..] == old(p[..])
    {
      ret := 0;
      if this == y { return; }
      if y.p.Length == 0 {
        s, p := 1, new nat[0];
        return;
      }
      var i := CopyCount(y.p);
      s := y.s;
      if p.Length < i {
        ret := Grow(i, base, reliable);
        if ret != 0 { return; }
      }
      CopyNumber(p, y.p, i, base);
    }
  }

  /** mbedtls_calloc: cleared memory or null. It may fail at any call, unless the heap is reliable. */
  method Calloc(n: nat, reliable: bool) returns (q: array?<nat>)
    ensures reliable ==> q != null
    ensures q != null ==> fresh(q) && q.Length == n && forall i :: 0 <= i < n ==> q[i] == 0
  {
    var fails: bool := *;
    if fails && !reliable {
      return null;
    }
    q := new nat[n](i => 0);
  }

  function Max(a: nat, b: nat): nat { if a < b then b else a }

  /** The limbs mbedtls_mpi_copy copies: up to the top nonzero one, but at least one if any. */
  function CopiedLimbs(y: seq<nat>): (i: nat)
    ensures i <= |y|
    ensures y != [] ==> i > 0
  {
    if y == [] then 0 else Max(SigLimbs(y), 1)
  }

  /** The loop of mbedtls_mpi_copy. */
  method CopyCount(y: array<nat>) returns (i: nat)
    requires y.Length > 0
    ensures 0 < i == CopiedLimbs(y[..])
    ensures forall k :: i <= k < y.Length ==> y[k] == 0
  {
    i := y.Length - 1;
    while i > 0 && y[i] == 0
      invariant 0 <= i < y.Length && forall k :: i < k < y.Length ==> y[k] == 0
    {
      i := i - 1;
    }
    i := i + 1;
    CopiedIs(y[..], i);
  }

  lemma CopiedIs(y: seq<nat>, i: nat)
    requires 0 < i <= |y| && (i == 1 || y[i - 1] != 0)
    requires forall k :: i <= k < |y| ==> y[k] == 0
    ensures CopiedLimbs(y) == i
  {
    var n := SigLimbs(y);
    assert i > 1 ==> y[i - 1] != 0;
    if n > 0 {
      assert y[n - 1] != 0;
    }
  }

  lemma SigBelow(x: seq<nat>, y: seq<nat>, i: nat)
    requires i <= |x| && i <= |y| && x[..i] == y[..i]
    requires forall k :: i <= k < |x| ==> x[k] == 0
    ensures SigLimbs(x) <= SigLimbs(y)
  {
    var n := SigLimbs(x);
    if n > 0 {
      assert x[n - 1] != 0;
      assert x[..i][n - 1] == y[..i][n - 1];
    }
  }

  /** The memset of the upper limbs and the memcpy of the lower ones. */
  method CopyLimbs(q: array<nat>, src: array<nat>, i: nat)
    requires q != src && i <= q.Length && i <= src.Length
    modifies q
    ensures q[..i] == src[..i]
    ensures forall k :: i <= k < q.Length ==> q[k] == 0
  {
    for k := i to q.Length
      invariant forall l :: i <= l < k ==> q[l] == 0
    {
      q[k] := 0;
    }
    for k := 0 to i
      invariant forall l :: 0 <= l < k ==> q[l] == src[l]
      invariant forall l :: i <= l < q.Length ==> q[l] == 0
    {
      q[k] := src[k];
    }
  }

  method CopyNumber(q: array<nat>, src: array<nat>, i: nat, base: nat)
    requires q != src && i <= q.Length && i <= src.Length && base > 0 && IsLimbs(src[..], base)
    requires forall k :: i <= k < src.Length ==> src[k] == 0
    modifies q
    ensures IsLimbs(q[..], base) && Val(q[..], base) == Val(src[..], base)
    ensures SigLimbs(q[..]) == SigLimbs(src[..])
  {
    CopyLimbs(q, src, i);
    SameNumber(q[..], src[..], i, base);
    SigBelow(q[..], src[..], i);
    SigBelow(src[..], q[..], i);
  }

  lemma SameNumber(x: seq<nat>, y: seq<nat>, i: nat, base: nat)
    requires i <= |x| && i <= |y| && x[..i] == y[..i] && base > 0 && IsLimbs(y, base)
    requires forall k :: i <= k < |x| ==> x[k] == 0
    requires forall k :: i <= k < |y| ==> y[k] == 0
    ensures Val(x, base) == Val(y, base) && IsLimbs(x, base)
  {
    ValTrim(x, i, base);
    ValTrim(y, i, base);
    forall k | 0 <= k < |x| ensures x[k] < base {
      if k < i {
        assert x[k] == x[..i][k] == y[..i][k];
      }
    }
  }

  /** One more row: X holds a * (the limbs of b above j), shifted by j. */
  lemma RowShift(x: seq<nat>, j: nat, rows: nat, base: nat)
    requires 0 < j <= |x| && x[j - 1] == 0
    requires Val(x[j..], base) == rows
    ensures Val(x[j - 1..], base) == base * rows
  {
    assert x[j - 1..][1..] == x[j..];
  }

  lemma NextRow(a: nat, b: seq<nat>, j: nat, jj: nat, base: nat)
    requires 0 < j <= jj <= |b|
    ensures base * (a * Val(b[j..jj], base)) + b[j - 1] * a == a * Val(b[j - 1..jj], base)
  {
    assert b[j - 1..jj][1..] == b[j..jj];
    var v := Val(b[j..jj], base);
    assert base * (a * v) == a * (base * v);
    MulDistrib(a, b[j - 1], base * v);
  }

  /** A product of an i-limb and a k-limb number fits any vector of at least i + k limbs. */
  lemma RowFits(a: seq<nat>, b: seq<nat>, len: nat, base: nat)
    requires IsLimbs(a, base) && IsLimbs(b, base) && |a| + |b| <= len && base > 0
    ensures Val(a, base) * Val(b, base) < Pow(base, len)
  {
    ValBound(a, base);
    ValBound(b, base);
    ProductBound(Val(a, base), Val(b, base), Pow(base, |a|), Pow(base, |b|));
    PowAdd(base, |a|, |b|);
    PowMonotone(base, |a| + |b|, len);
  }

  /** X becomes the first i limbs of a times the first jj limbs of b, a row at a time from the top. */
  method MulRows(x: array<nat>, a: array<nat>, i: nat, b: array<nat>, jj: nat, base: nat)
    requires base > 1 && x != a && x != b && i <= a.Length && jj <= b.Length && i + jj <= x.Length
    requires IsLimbs(a[..], base) && IsLimbs(b[..], base)
    requires forall k :: 0 <= k < x.Length ==> x[k] == 0
    modifies x
    ensures Val(x[..], base) == Val(a[..i], base) * Val(b[..jj], base)
    ensures IsLimbs(x[..], base)
  {
    ghost var va := Val(a[..i], base);
    var j := jj;
    ValZeros(x[j..], base);
    assert b[j..jj] == [];
    while j > 0
      invariant 0 <= j <= jj
      invariant forall k :: 0 <= k < j ==> x[k] == 0
      invariant IsLimbs(x[..], base)
      invariant Val(x[j..], base) == va * Val(b[j..jj], base)
    {
      RowShift(x[..], j, va * Val(b[j..jj], base), base);
      assert x[..][j..] == x[j..] && x[..][j - 1..] == x[j - 1..];
      NextRow(va, b[..], j, jj, base);
      assert b[..][j..jj] == b[j..jj] && b[..][j - 1..jj] == b[j - 1..jj];
      RowFits(a[..i], b[j - 1..jj], x.Length - (j - 1), base);
      ghost var low := x[..j - 1];
      MulHlp(i, a, x, j - 1, b[j - 1], base);
      forall k | 0 <= k < j - 1 ensures x[k] == 0 {
        assert x[..j - 1][k] == low[k];
      }
      j := j - 1;
    }
    assert x[0..] == x[..] && b[0..jj] == b[..jj];
  }

  /** The limbs a product is given. */
  ghost function ProductLimbs(a: Mpi, b: Mpi): nat
    reads a, a.p, b, b.p
  {
    SigLimbs(a.p[..]) + SigLimbs(b.p[..])
  }

  /** The body of the multiplication, X distinct from both factors. */
  method MulInto(x: Mpi, a: Mpi, b: Mpi, base: nat, reliable: bool) returns (ret: int)
    requires base > 1 && x.Valid(base) && a.Valid(base) && b.Valid(base)
    requires x != a && x != b && x.p != a.p && x.p != b.p
    modifies x, x.p
    ensures ret == 0 || ret == ALLOC_FAILED
    ensures x.Valid(base) && (x.p == old(x.p) || fresh(x.p)) && x.p.Length >= old(x.p.Length)
    ensures x.Value(base) == (if ret == 0 then a.Value(base) * b.Value(base) else old(x.Value(base)))
    ensures ret == 0 ==> x.s == a.s * b.s
    ensures ProductLimbs(a, b) > MAX_LIMBS ==> ret != 0
    ensures reliable && ProductLimbs(a, b) <= MAX_LIMBS ==> ret == 0
  {
    var i := a.Trimmed(base);
    var j := b.Trimmed(base);
    ret := x.Grow(i + j, base, reliable);
    if ret != 0 { return; }
    ret := FillProduct(x, a, i, b, j, base, reliable);
  }

  /** The product, into an X that has been grown. */
  method FillProduct(x: Mpi, a: Mpi, i: nat, b: Mpi, j: nat, base: nat, reliable: bool) returns (ret: int)
    requires base > 1 && x.Valid(base) && a.Valid(base) && b.Valid(base)
    requires x != a && x != b && x.p != a.p && x.p != b.p && i + j <= x.p.Length
    requires i <= a.p.Length && Val(a.p[..i], base) == a.Magnitude(base)
    requires j <= b.p.Length && Val(b.p[..j], base) == b.Magnitude(base)
    modifies x, x.p
    ensures ret == 0 || ret == ALLOC_FAILED
    ensures reliable ==> ret == 0
    ensures x.Valid(base) && (x.p == old(x.p) || fresh(x.p)) && x.p.Length >= old(x.p.Length)
    ensures x.Value(base) == (if ret == 0 then a.Value(base) * b.Value(base) else old(x.Value(base)))
    ensures ret == 0 ==> x.s == a.s * b.s
  {
    ret := x.SetZero(base, reliable);
    if ret != 0 { return; }
    MulRows(x.p, a.p, i, b.p, j, base);
    SetSign(x, a, b, base);
  }

  /** The sign of a product whose magnitude is already there. */
  method SetSign(x: Mpi, a: Mpi, b: Mpi, base: nat)
    requires x != a && x != b && x.p != a.p && x.p != b.p
    requires x.Magnitude(base) == a.Magnitude(base) * b.Magnitude(base)
    modifies x`s
    ensures x.s == a.s * b.s && x.Value(base) == a.Value(base) * b.Value(base)
  {
    x.s := a.s * b.s;
    SignedProduct(a.s, a.Magnitude(base), b.s, b.Magnitude(base));
  }

  /** mbedtls_mpi_mul_mpi: exact for all signs, sizes, zero operands and every aliasing of X with
      A and B; it fails for want of memory only, and then leaves X as it was. */
  method MulMpi(x: Mpi, a: Mpi, b: Mpi, base: nat, reliable: bool) returns (ret: int)
    requires base > 1 && x.Valid(base) && a.Valid(base) && b.Valid(base)
    requires x != a ==> x.p != a.p
    requires x != b ==> x.p != b.p
    modifies x, x.p
    ensures ret == 0 || ret == ALLOC_FAILED
    ensures x.Valid(base) && (x.p == old(x.p) || fresh(x.p)) && x.p.Length >= old(x.p.Length)
    ensures x.Value(base) == (if ret == 0 then old(a.Value(base)) * old(b.Value(base)) else old(x.Value(base)))
    ensures ret == 0 && old(a.p.Length) > 0 && old(b.p.Length) > 0 ==> x.s == old(a.s) * old(b.s)
    ensures old(ProductLimbs(a, b)) > MAX_LIMBS ==> ret != 0
    ensures reliable && old(ProductLimbs(a, b)) <= MAX_LIMBS ==> ret == 0
  {
    var ta, tb;
    ret, ta, tb := UnaliasedFactors(x, a, b, base, reliable);
    if ret != 0 { return; }
    ret := MulInto(x, ta, tb, base, reliable);
  }

  /** Both factors, neither of them X. */
  method UnaliasedFactors(x: Mpi, a: Mpi, b: Mpi, base: nat, reliable: bool) returns (ret: int, ta: Mpi, tb: Mpi)
    requires base > 1 && a.Valid(base) && b.Valid(base)
    requires x != a ==> x.p != a.p
    requires x != b ==> x.p != b.p
    ensures ret == 0 || ret == ALLOC_FAILED
    ensures ret == 0 ==> ta.Valid(base) && tb.Valid(base) && ProductLimbs(ta, tb) == ProductLimbs(a, b)
    ensures ret == 0 ==> ta.Value(base) == a.Value(base) && tb.Value(base) == b.Value(base)
    ensures ret == 0 ==> (a.p.Length > 0 ==> ta.s == a.s) && (b.p.Length > 0 ==> tb.s == b.s)
    ensures ret == 0 ==> x != ta && x.p != ta.p && x != tb && x.p != tb.p
    ensures ret != 0 ==> !reliable || ProductLimbs(a, b) > MAX_LIMBS
  {
    tb := b;
    ret, ta := Unaliased(x, a, base, reliable);
    if ret != 0 { return; }
    ret, tb := Unaliased(x, b, base, reliable);
  }

  /** A factor that is X itself is replaced by a copy. */
  method Unaliased(x: Mpi, a: Mpi, base: nat, reliable: bool) returns (ret: int, t: Mpi)
    requires base > 1 && a.Valid(base)
    ensures ret == 0 || ret == ALLOC_FAILED
    ensures ret == 0 ==> t.Valid(base) && t.Value(base) == a.Value(base) && t.Magnitude(base) == a.Magnitude(base)
    ensures ret == 0 && a.p.Length > 0 ==> t.s == a.s
    ensures ret == 0 ==> SigLimbs(t.p[..]) == SigLimbs(a.p[..])
    ensures ret == 0 ==> if x == a then fresh(t) && fresh(t.p) else t == a
    ensures ret != 0 ==> !reliable || SigLimbs(a.p[..]) > MAX_LIMBS
  {
    t, ret := a, 0;
    if x == a {
      t := new Mpi();
      ret := t.CopyFrom(a, base, reliable);
    }
  }

  lemma SignedProduct(s: int, x: int, t: int, y: int)
    ensures (s * t) * (x * y) == (s * x) * (t * y)
  {
  }
}

/** Sliding-window exponentiation, X = A^E mod N (mbedtls_mpi_exp_mod), on limb vectors: every
    product is a call of mpi_montmul, whose contract is all that is known of it. */
module ExpMod {
  import opened Arith
  import opened Limbs
  import opened MpiRows
  import opened Mpi
  import opened MpiArith
  import opened MpiShift
  import opened MpiDivide
  import opened Montgomery
  import opened MontForm

  // ---------------------------------------------------------------- one product

  /** What every mpi_montmul of one exponentiation shares: the modulus, minus its inverse, the
      scratch vector and the limb base. */
  datatype Machine = Machine(N: array<nat>, mm: nat, T: array<nat>, base: nat)

  /** The machine works modulo g.nv with R = g.r. */
  ghost predicate Ready(k: Machine, g: Ring)
    reads k.N
  {
    && k.base > 1 && 0 < k.N.Length && k.N != k.T && 2 * k.N.Length + 2 <= k.T.Length
    && IsLimbs(k.N[..], k.base) && Congruent(k.mm * k.N[0], -1, k.base)
    && g.Valid() && g.nv == Val(k.N[..], k.base) && g.r == Pow(k.base, k.N.Length)
  }

  /** x is a residue vector of the machine, and denotes v. */
  ghost predicate Holds(k: Machine, g: Ring, x: array<nat>, v: nat)
    reads x
  {
    && k.N.Length + 1 <= x.Length && x != k.N && x != k.T
    && IsLimbs(x[..], k.base) && Val(x[..], k.base) == v < g.nv
  }

  lemma ResidueOperands(u: nat, v: nat, nv: nat, r: nat)
    requires u < nv < r && v < r
    ensures Operands(u, v, nv, r)
  {
    MulMonotone(u, nv, v);
    MulMonotone(v + 1, r, nv);
    MulDistrib(nv, v, 1);
  }

  /** mpi_montmul on residues never refuses, and is the Montgomery product. b may be x itself. */
  method MulMod(x: array<nat>, b: array<nat>, k: Machine, ghost g: Ring, ghost u: nat, ghost v: nat)
    requires Ready(k, g) && Holds(k, g, x, u)
    requires b != k.T && 0 < b.Length && IsLimbs(b[..], k.base) && Val(b[..], k.base) == v < g.r
    modifies x, k.T
    ensures Holds(k, g, x, g.Mul(u, v))
  {
    ValBound(k.N[..], k.base);
    ResidueOperands(u, v, g.nv, g.r);
    var ret := MontMul(x, b, k.N, k.mm, k.T, k.base);
    MontIsUnique(Val(x[..], k.base), u, v, g.nv, g.r, g.rinv);
  }

  /** The product of two powers. */
  method MulPowers(x: array<nat>, b: array<nat>, k: Machine, ghost g: Ring, ghost e: nat, ghost f: nat)
    requires Ready(k, g) && Holds(k, g, x, g.Form(e)) && Holds(k, g, b, g.Form(f))
    modifies x, k.T
    ensures Holds(k, g, x, g.Form(e + f))
  {
    ValBound(k.N[..], k.base);
    FormMul(g, e, f);
    MulMod(x, b, k, g, g.Form(e), g.Form(f));
  }

  /** count Montgomery squarings. */
  method SquareTimes(x: array<nat>, count: nat, k: Machine, ghost g: Ring, ghost q: nat)
    requires Ready(k, g) && Holds(k, g, x, g.Form(q))
    modifies x, k.T
    ensures Holds(k, g, x, g.Form(q * Pow2(count)))
  {
    for i := 0 to count
      invariant Holds(k, g, x, g.Form(q * Pow2(i)))
    {
      DoubleScaled(q, Pow2(i));
      MulPowers(x, x, k, g, q * Pow2(i), q * Pow2(i));
    }
  }

  // ---------------------------------------------------------------- the table of powers

  /** W[1] and W[2^(wsize-1)] .. W[2^wsize - 1] hold the powers of A their indices say. */
  ghost predicate Table(W: seq<array<nat>>, k: Machine, g: Ring, wsize: nat)
    requires g.nv > 0
    reads W
  {
    && 1 <= wsize && Pow2(wsize) <= |W| && 1 < |W|
    && Holds(k, g, W[1], g.Form(1))
    && forall i :: Pow2(wsize - 1) <= i < Pow2(wsize) ==> Holds(k, g, W[i], g.Form(i))
  }

  /** A table entry: grown to one limb more than the modulus, then a copy of another entry. */
  method Duplicate(src: array<nat>, k: Machine, ghost g: Ring, ghost v: nat, reliable: bool)
    returns (ret: int, q: array<nat>)
    requires Ready(k, g) && Holds(k, g, src, v)
    ensures ret == 0 || ret == ALLOC_FAILED
    ensures reliable && k.N.Length + 1 <= MAX_LIMBS ==> ret == 0
    ensures ret == 0 ==> fresh(q) && Holds(k, g, q, v)
  {
    var m := new Mpi();
    var y := new Mpi();
    y.p := src;
    q := m.p;
    ret := m.Grow(k.N.Length + 1, k.base, reliable);
    if ret != 0 { return; }
    ValBound(k.N[..], k.base);
    SmallCopied(src[..], k.N.Length, k.base);
    ret := m.CopyFrom(y, k.base, reliable);
    q := m.p;
  }

  /** The precomputed powers. */
  method BuildTable(w1: array<nat>, wsize: nat, cap: nat, k: Machine, ghost g: Ring, reliable: bool)
    returns (ret: int, W: seq<array<nat>>)
    requires Ready(k, g) && 1 <= wsize <= cap <= MAX_WINDOW && Holds(k, g, w1, g.Form(1))
    modifies k.T
    ensures ret == 0 || ret == ALLOC_FAILED
    ensures reliable && k.N.Length + 1 <= MAX_LIMBS ==> ret == 0
    ensures ret == 0 ==> Table(W, k, g, wsize)
    ensures forall i :: 0 <= i < |W| ==> W[i] == w1 || fresh(W[i])
  {
    PowersUpTo6(wsize);
    PowersUpTo6(cap);
    PowMonotone(2, wsize, cap);
    ret := 0;
    var none := new nat[0];
    W := seq(2 * Pow2(cap), i => none)[1 := w1];
    if wsize > 1 {
      var j := Pow2(wsize - 1);
      var q;
      ret, q := Duplicate(w1, k, g, g.Form(1), reliable);
      if ret != 0 { return; }
      SquareTimes(q, wsize - 1, k, g, 1);
      ret, W := FillTable(W[j := q], j, w1, k, g, reliable);
    }
  }

  /** The entries above j, each from the one below it. */
  method FillTable(W0: seq<array<nat>>, j: nat, w1: array<nat>, k: Machine, ghost g: Ring, reliable: bool)
    returns (ret: int, W: seq<array<nat>>)
    requires Ready(k, g) && 1 < j && 2 * j <= |W0| && W0[1] == w1
    requires Holds(k, g, w1, g.Form(1)) && Holds(k, g, W0[j], g.Form(j))
    modifies k.T
    ensures ret == 0 || ret == ALLOC_FAILED
    ensures reliable && k.N.Length + 1 <= MAX_LIMBS ==> ret == 0
    ensures |W| == |W0| && W[1] == w1 && forall i :: 0 <= i < |W| ==> W[i] == W0[i] || fresh(W[i])
    ensures ret == 0 ==> forall i :: j <= i < 2 * j ==> Holds(k, g, W[i], g.Form(i))
  {
    W, ret := W0, 0;
    for i := j + 1 to 2 * j
      invariant ret == 0 && |W| == |W0| && W[1] == w1
      invariant forall l :: 0 <= l < |W| ==> W[l] == W0[l] || fresh(W[l])
      invariant forall l :: j <= l < i ==> Holds(k, g, W[l], g.Form(l))
    {
      var q;
      ret, q := Duplicate(W[i - 1], k, g, g.Form(i - 1), reliable);
      if ret != 0 { return; }
      MulPowers(q, w1, k, g, i - 1, 1);
      W := W[i := q];
    }
  }

  // ---------------------------------------------------------------- the scan

  /** A full window is used: X is squared wsize times and multiplied by the window's power. */
  method FlushWindow(x: array<nat>, wbits: nat, wsize: nat, W: seq<array<nat>>, k: Machine, ghost g: Ring,
                     ghost p: nat, ghost q: nat, ghost v: nat)
    requires Ready(k, g) && Table(W, k, g, wsize) && x !in W && k.T !in W
    requires Window(p, q, v, wsize, wbits, wsize, 2) && Holds(k, g, x, g.Form(q))
    modifies x, k.T
    ensures Holds(k, g, x, g.Form(p))
  {
    FullWindow(p, q, v, wbits, wsize);
    var b := W[wbits];
    assert b in W && Holds(k, g, b, g.Form(v));
    UseWindow(x, b, wsize, k, g, q, v);
  }

  method UseWindow(x: array<nat>, b: array<nat>, wsize: nat, k: Machine, ghost g: Ring, ghost q: nat, ghost v: nat)
    requires Ready(k, g) && Holds(k, g, x, g.Form(q)) && Holds(k, g, b, g.Form(v)) && b != x
    modifies x, k.T
    ensures Holds(k, g, x, g.Form(q * Pow2(wsize) + v))
  {
    SquareTimes(x, wsize, k, g, q);
    MulPowers(x, b, k, g, q * Pow2(wsize), v);
  }

  /** The remaining bits, one at a time. */
  method Tail(x: array<nat>, nbits: nat, wbits: nat, wsize: nat, w1: array<nat>, k: Machine, ghost g: Ring,
              ghost p: nat, ghost q: nat, ghost w: nat)
    requires Ready(k, g) && Holds(k, g, w1, g.Form(1)) && w1 != x
    requires exists state :: Window(p, q, w, nbits, wbits, wsize, state)
    requires Holds(k, g, x, g.Form(q))
    modifies x, k.T
    ensures Holds(k, g, x, g.Form(p))
  {
    var wb := wbits;
    PowPositive(2, nbits);
    DivModUnique(w, Pow2(nbits), 0, w);
    assert Pow2(0) == 1;
    ghost var e := q;
    for i := 0 to nbits
      invariant Pow2(nbits - i) > 0
      invariant wb == w * Pow2(wsize - nbits + i)
      invariant e == q * Pow2(i) + w / Pow2(nbits - i)
      invariant Holds(k, g, x, g.Form(e)) && Holds(k, g, w1, g.Form(1))
    {
      TailRound(w, nbits, wsize, i);
      MulPowers(x, x, k, g, e, e);
      TailScaled(w, q, nbits, wsize, i);
      wb := wb * 2;
      e := e + e;
      if (wb / Pow2(wsize)) % 2 != 0 {
        MulPowers(x, w1, k, g, e, 1);
        e := e + 1;
      }
    }
  }

  /** The bit loop: X becomes A^E in Montgomery form. */
  method Scan(x: array<nat>, E: seq<nat>, bits: nat, wsize: nat, W: seq<array<nat>>, k: Machine, ghost g: Ring)
    requires Ready(k, g) && Table(W, k, g, wsize) && x !in W && k.T !in W
    requires Holds(k, g, x, g.Form(0))
    requires bits > 0 && IsLimbs(E, Pow2(bits))
    modifies x, k.T
    ensures Holds(k, g, x, g.Form(Val(E, Pow2(bits))))
  {
    var nblimbs: nat, bufsize: nat, nbits: nat, wbits: nat, state: nat := |E|, 0, 0, 0, 0;
    ghost var p: nat, q: nat, v: nat := 0, 0, 0;
    assert E[|E|..] == [] && Pow2(0) == 1;
    while true
      invariant nblimbs <= |E| && bufsize < bits && nbits < wsize
      invariant nblimbs == |E| ==> bufsize == 0
      invariant p == Consumed(E, bits, nblimbs, bufsize)
      invariant bufsize == 0 ==> p == Val(E[nblimbs..], Pow2(bits))
      invariant Window(p, q, v, nbits, wbits, wsize, state)
      invariant Holds(k, g, x, g.Form(q)) && Table(W, k, g, wsize)
      decreases nblimbs, bufsize
    {
      if bufsize == 0 {
        if nblimbs == 0 { break; }
        nblimbs := nblimbs - 1;
        bufsize := bits;
        NextLimb(E, bits, nblimbs);
      }
      bufsize := bufsize - 1;
      var ei := (E[nblimbs] / Pow2(bufsize)) % 2;
      ConsumeBit(E, bits, nblimbs, bufsize);
      NextLimb(E, bits, nblimbs);
      nbits, wbits, state, p, q, v := OneBit(x, ei, nbits, wbits, state, wsize, W, k, g, p, q, v);
    }
    assert E[0..] == E;
    Tail(x, nbits, wbits, wsize, W[1], k, g, p, q, v);
  }

  /** The loop body once the bit ei is known. */
  method OneBit(x: array<nat>, ei: nat, nbits: nat, wbits: nat, state: nat, wsize: nat, W: seq<array<nat>>, k: Machine,
                ghost g: Ring, ghost p: nat, ghost q: nat, ghost v: nat)
    returns (nbits': nat, wbits': nat, state': nat, ghost p': nat, ghost q': nat, ghost v': nat)
    requires Ready(k, g) && Table(W, k, g, wsize) && x !in W && k.T !in W
    requires Holds(k, g, x, g.Form(q))
    requires ei <= 1 && nbits < wsize && Window(p, q, v, nbits, wbits, wsize, state)
    modifies x, k.T
    ensures p' == 2 * p + ei && nbits' < wsize
    ensures Window(p', q', v', nbits', wbits', wsize, state') && Holds(k, g, x, g.Form(q'))
  {
    nbits', wbits', state', p', q', v' := nbits, wbits, state, 2 * p + ei, q, v;
    if ei == 0 && state == 0 {
      ShiftOut(p, q, v, wbits, wsize, state);
      return;
    }
    if ei == 0 && state == 1 {
      ShiftOut(p, q, v, wbits, wsize, state);
      MulPowers(x, x, k, g, q, q);
      q', v' := q + q, 0;
      return;
    }
    nbits', wbits', state', q', v' := TakeBit(x, ei, nbits, wbits, state, wsize, W, k, g, p, q, v);
  }

  /** A bit that joins the window, which is used when it is full. */
  method TakeBit(x: array<nat>, ei: nat, nbits: nat, wbits: nat, state: nat, wsize: nat, W: seq<array<nat>>, k: Machine,
                 ghost g: Ring, ghost p: nat, ghost q: nat, ghost v: nat)
    returns (nbits': nat, wbits': nat, state': nat, ghost q': nat, ghost v': nat)
    requires Ready(k, g) && Table(W, k, g, wsize) && x !in W && k.T !in W
    requires Holds(k, g, x, g.Form(q))
    requires ei <= 1 && nbits < wsize && Window(p, q, v, nbits, wbits, wsize, state)
    requires state <= 1 ==> ei == 1
    modifies x, k.T
    ensures nbits' < wsize && Holds(k, g, x, g.Form(q'))
    ensures Window(2 * p + ei, q', v', nbits', wbits', wsize, state')
  {
    AddBit(p, q, v, nbits, wbits, wsize, state, ei);
    q', v' := q, 2 * v + ei;
    state' := 2;
    nbits' := nbits + 1;
    wbits' := wbits + ei * Pow2(wsize - nbits');
    if nbits' == wsize {
      FlushWindow(x, wbits', wsize, W, k, g, 2 * p + ei, q, v');
      state', nbits', wbits' := state' - 1, 0, 0;
      q', v' := 2 * p + ei, 0;
      EmptyWindow(q', wsize);
    }
  }

  // ---------------------------------------------------------------- R^2 and A mod N

  /** mbedtls_mpi_lset( X, 1 ) and mbedtls_mpi_shift_l by 2 * n limbs. */
  method ShiftedOne(n: nat, bits: nat, base: nat, reliable: bool) returns (ret: int, r: Mpi)
    requires bits > 1 && base == Pow2(bits) && base > 1
    ensures fresh(r) && fresh(r.p) && r.Valid(base)
    ensures ret == 0 || ret == ALLOC_FAILED
    ensures reliable && n + 1 <= MAX_LIMBS ==> ret == 0
    ensures ret == 0 ==> r.s == 1 && r.p.Length == n + 1 && r.Magnitude(base) == Pow(base, n)
  {
    r := new Mpi();
    ret := r.SetZero(base, reliable);
    if ret != 0 { return; }
    r.p[0] := 1;
    assert r.p[..] == [1];
    ValOne(1, base);
    BitLenIs(1, 1);
    OneLimbMore(n, bits);
    PowOfBase(bits, n);
    ret := ShiftL(r, n * bits, bits, base, reliable);
  }

  lemma OneLimbMore(n: nat, bits: nat)
    requires bits > 1
    ensures LimbsFor(1 + n * bits, bits) == n + 1
    ensures Pow2(0) == 1 && Pow2(1) == 2
  {
    DivModUnique(1 + n * bits, bits, n, 1);
  }

  /** R^2 mod N as the helper number caches it. */
  ghost predicate Cached(rr: Mpi, n: Mpi, base: nat)
    reads rr, rr.p, n, n.p
  {
    rr.p.Length > 0 && n.Magnitude(base) > 0 ==>
      rr.s == 1 && rr.Magnitude(base) == Pow(base, 2 * n.p.Length) % n.Magnitude(base)
  }

  /** The helper number: taken from _RR if that has been used before, otherwise computed, and left
      there if there is one. */
  method SquareOfR(rr: Mpi?, n: Mpi, bits: nat, base: nat, reliable: bool) returns (ret: int, r2: Mpi)
    requires bits > 1 && base == Pow2(bits) && base > 3
    requires n.Valid(base) && n.s == 1 && n.Magnitude(base) > 0 && n.p.Length > 0
    requires rr != null ==> rr != n && rr.Valid(base) && Cached(rr, n, base)
    modifies if rr == null then {} else {rr}
    ensures ret == 0 || ret == ALLOC_FAILED
    ensures reliable && 2 * n.p.Length + 5 <= MAX_LIMBS ==> ret == 0
    ensures rr != null ==> rr.Valid(base) && Cached(rr, n, base) && (rr.p == old(rr.p) || fresh(rr.p))
    ensures fresh(r2) && r2.Valid(base) && (fresh(r2.p) || (rr != null && r2.p == old(rr.p)))
    ensures ret == 0 ==>
      r2.s == 1 && r2.p.Length > 0 && r2.Magnitude(base) == Pow(base, 2 * n.p.Length) % n.Magnitude(base)
  {
    if rr == null || rr.p.Length == 0 {
      ret, r2 := ShiftedOne(2 * n.p.Length, bits, base, reliable);
      if ret != 0 { return; }
      ret := ModMpi(r2, r2, n, bits, base, reliable);
      if ret == 0 && rr != null {
        rr.s, rr.p := r2.s, r2.p;
      }
    } else {
      r2 := new Mpi();
      r2.s, r2.p := rr.s, rr.p;
      ret := 0;
    }
  }

  /** The residue of A, into a vector of n + 1 limbs; but an A without limbs frees the vector. */
  method ReduceInto(w: Mpi, a: Mpi, n: Mpi, bits: nat, base: nat, reliable: bool) returns (ret: int)
    requires bits > 1 && base == Pow2(bits) && base > 3
    requires w.Valid(base) && a.Valid(base) && n.Valid(base) && n.s == 1 && n.Magnitude(base) > 0
    requires w != a && w != n && w.p != a.p && w.p != n.p
    requires a.s == 1 && n.p.Length + 1 <= w.p.Length
    modifies w, w.p
    ensures ret == 0 || ret == ALLOC_FAILED
    ensures reliable && a.p.Length + 4 <= MAX_LIMBS ==> ret == 0
    ensures w.Valid(base) && (w.p == old(w.p) || fresh(w.p))
    ensures ret == 0 ==> w.Magnitude(base) == a.Magnitude(base) % n.Magnitude(base)
    ensures ret == 0 ==> (n.p.Length + 1 <= w.p.Length <==> a.p.Length > 0)
  {
    var c := CmpMpi(a, n, base);
    if c >= 0 {
      NonZero(a.p[..], base);
      ret := ModMpi(w, a, n, bits, base, reliable);
    } else {
      ret := w.CopyFrom(a, base, reliable);
      DivModUnique(a.Magnitude(base), n.Magnitude(base), 0, a.Magnitude(base));
    }
  }

  // ---------------------------------------------------------------- mbedtls_mpi_exp_mod

  /** The exponent has a lowest limb, and that is odd. */
  predicate OddExponent(E: seq<nat>) { E != [] && E[0] % 2 != 0 }

  /** What exponentiation leaves, for a base of sign neg and magnitude a. */
  function Power(neg: bool, a: nat, E: seq<nat>, base: nat, n: nat): int
    requires n > 0
  {
    var m := Pow(a, Val(E, base)) % n;
    if neg && OddExponent(E) then n - m else m
  }

  /** mpi_montred: a product with the one-limb number 1. */
  method Reduce(x: array<nat>, k: Machine, ghost g: Ring, ghost v: nat)
    requires Ready(k, g) && Holds(k, g, x, (v * g.r) % g.nv)
    modifies x, k.T
    ensures Holds(k, g, x, v % g.nv)
  {
    var one := new nat[1](i => 1);
    ValOne(1, k.base);
    assert one[..] == [1];
    ValBound(k.N[..], k.base);
    MontLeave(v, g.nv, g.r, g.rinv);
    MulMod(x, one, k, g, (v * g.r) % g.nv, 1);
  }

  /** r2 is the helper number R^2 mod N, in a vector of its own. */
  ghost predicate Helper(r2: Mpi, k: Machine, g: Ring)
    requires g.nv > 0
    reads r2, r2.p
  {
    && r2.p != k.T && 0 < r2.p.Length
    && r2.s == 1 && IsLimbs(r2.p[..], k.base) && Val(r2.p[..], k.base) == g.RSquared()
  }

  /** The first table entry becomes A in Montgomery form. */
  method EnterForm(w1: array<nat>, r2: Mpi, k: Machine, ghost g: Ring)
    requires Ready(k, g) && Helper(r2, k, g) && Holds(k, g, w1, g.a % g.nv)
    modifies w1, k.T
    ensures Holds(k, g, w1, g.Form(1))
  {
    ValBound(k.N[..], k.base);
    MontEnter(g.a, g.nv, g.r, g.rinv);
    MulMod(w1, r2.p, k, g, g.a % g.nv, g.RSquared());
  }

  /** X starts as 1 in Montgomery form, which the helper number reduces to. */
  method StartPower(x: Mpi, r2: Mpi, k: Machine, ghost g: Ring) returns (ret: int)
    requires Ready(k, g) && x.Valid(k.base) && x.p != k.N && x.p != k.T && k.N.Length + 1 <= x.p.Length
    requires Helper(r2, k, g) && r2 != x && r2.p != x.p
    modifies x, x.p, k.T
    ensures ret == 0 && x.p == old(x.p) && x.s == 1
    ensures Holds(k, g, x.p, g.Form(0))
  {
    FormZero(g);
    ret := CopyResidue(x, r2, k, g, g.RSquared());
    Reduce(x.p, k, g, g.r);
  }

  /** mbedtls_mpi_copy of a residue into a number that has room for it. */
  method CopyResidue(x: Mpi, y: Mpi, k: Machine, ghost g: Ring, ghost v: nat) returns (ret: int)
    requires Ready(k, g) && x.Valid(k.base) && x.p != k.N && x.p != k.T && k.N.Length + 1 <= x.p.Length
    requires y != x && y.p != x.p && 0 < y.p.Length && y.s == 1
    requires IsLimbs(y.p[..], k.base) && Val(y.p[..], k.base) == v < g.nv
    modifies x, x.p
    ensures ret == 0 && x.p == old(x.p) && x.s == 1
    ensures Holds(k, g, x.p, v)
  {
    ValBound(k.N[..], k.base);
    SmallCopied(y.p[..], k.N.Length, k.base);
    ret := x.CopyFrom(y, k.base, false);
  }

  /** Into Montgomery form, the table, the scan, and out of Montgomery form. */
  method RaiseMagnitude(x: Mpi, w1: array<nat>, r2: Mpi, E: seq<nat>, bits: nat, wsize: nat, cap: nat, k: Machine,
                        ghost g: Ring, reliable: bool)
    returns (ret: int)
    requires Ready(k, g) && bits > 0 && k.base == Pow2(bits) && IsLimbs(E, k.base) && 1 <= wsize <= cap <= MAX_WINDOW
    requires x.Valid(k.base) && x.p != k.N && x.p != k.T && k.N.Length + 1 <= x.p.Length
    requires Helper(r2, k, g) && r2 != x && r2.p != x.p
    requires Holds(k, g, w1, g.a % g.nv) && w1 != x.p && w1 != r2.p
    modifies x, x.p, w1, k.T
    ensures ret == 0 || ret == ALLOC_FAILED
    ensures reliable && k.N.Length + 1 <= MAX_LIMBS ==> ret == 0
    ensures x.Valid(k.base) && x.p == old(x.p) && x.s == 1
    ensures ret == 0 ==> Holds(k, g, x.p, Pow(g.a, Val(E, k.base)) % g.nv)
  {
    EnterForm(w1, r2, k, g);
    ret := StartPower(x, r2, k, g);
    var W;
    ret, W := BuildTable(w1, wsize, cap, k, g, reliable);
    if ret != 0 { return; }
    ScanAndReduce(x.p, E, bits, wsize, W, k, g);
  }

  method ScanAndReduce(x: array<nat>, E: seq<nat>, bits: nat, wsize: nat, W: seq<array<nat>>, k: Machine, ghost g: Ring)
    requires Ready(k, g) && Table(W, k, g, wsize) && x !in W && k.T !in W
    requires Holds(k, g, x, g.Form(0))
    requires bits > 0 && IsLimbs(E, Pow2(bits))
    modifies x, k.T
    ensures Holds(k, g, x, Pow(g.a, Val(E, Pow2(bits))) % g.nv)
  {
    Scan(x, E, bits, wsize, W, k, g);
    Reduce(x, k, g, Pow(g.a, Val(E, Pow2(bits))));
  }

  /** The sum of N and -X. */
  method SubtractFrom(x: Mpi, n: Mpi, base: nat, reliable: bool) returns (ret: int)
    requires base > 1 && x.Valid(base) && n.Valid(base) && n.s == 1
    requires x != n && x.p != n.p && 0 < n.p.Length <= x.p.Length && x.Magnitude(base) < n.Magnitude(base)
    modifies x, x.p
    ensures ret == 0 || ret == ALLOC_FAILED
    ensures reliable && n.p.Length <= MAX_LIMBS ==> ret == 0
    ensures x.Valid(base) && x.p == old(x.p)
    ensures ret == 0 ==> x.s == 1 && x.Magnitude(base) == n.Magnitude(base) - old(x.Magnitude(base))
  {
    ValBound(n.p[..], base);
    SmallCopied(x.p[..], n.p.Length, base);
    x.s := -1;
    ret := AddMpi(x, n, x, base, reliable, n.p.Length + 1);
  }

  /** Vectors of the exponentiation: W[1] and T, and A itself or, when negative, its magnitude. */
  method Temporaries(a: Mpi, n: Mpi, base: nat, reliable: bool) returns (ret: int, w: Mpi, T: Mpi, b: Mpi)
    requires base > 1 && a.Valid(base) && n.Valid(base) && a.p.Length > 0
    ensures ret == 0 || ret == ALLOC_FAILED
    ensures reliable && 2 * n.p.Length + 2 <= MAX_LIMBS && a.p.Length <= MAX_LIMBS ==> ret == 0
    ensures 2 * n.p.Length + 2 > MAX_LIMBS ==> ret != 0
    ensures ret == 0 ==>
      && fresh(w) && fresh(w.p) && fresh(T) && fresh(T.p) && w.p != T.p && w != T
      && w.Valid(base) && w.p.Length == n.p.Length + 1 && T.p.Length == 2 * n.p.Length + 2
      && b.Valid(base) && b.s == 1 && b.Magnitude(base) == a.Magnitude(base)
      && b.p.Length > 0 && b.p.Length <= a.p.Length
      && b != w && b.p != w.p && b.p != T.p && (b == a || (fresh(b) && fresh(b.p)))
  {
    b := a;
    w := new Mpi();
    T := new Mpi();
    ret := w.Grow(n.p.Length + 1, base, reliable);
    if ret != 0 { return; }
    ret := T.Grow(2 * (n.p.Length + 1), base, reliable);
    if ret != 0 { return; }
    if a.s == -1 {
      b := new Mpi();
      ret := b.CopyFrom(a, base, reliable);
      b.s := 1;
    }
  }

  /** From the vectors to A^E for the magnitude of A. */
  method PowerOfMagnitude(x: Mpi, w: Mpi, b: Mpi, T: Mpi, r2: Mpi, E: seq<nat>, n: Mpi, mm: nat, bits: nat,
                          wsize: nat, cap: nat, base: nat, reliable: bool)
    returns (ret: int)
    requires base > 3 && bits > 1 && base == Pow2(bits) && 1 <= wsize <= cap <= MAX_WINDOW && IsLimbs(E, base)
    requires x.Valid(base) && w.Valid(base) && b.Valid(base) && n.Valid(base) && r2.Valid(base)
    requires b.s == 1 && b.p.Length > 0
    requires n.s == 1 && n.Magnitude(base) > 0 && n.p.Length > 0 && Congruent(mm * n.p[0], -1, base)
    requires r2.s == 1 && r2.p.Length > 0 && r2.Magnitude(base) == Pow(base, 2 * n.p.Length) % n.Magnitude(base)
    requires n.p.Length < x.p.Length && n.p.Length < w.p.Length && 2 * n.p.Length + 2 <= T.p.Length
    requires x != w && x != n && x != r2 && x.p != w.p && x.p != n.p && x.p != r2.p && x.p != T.p
    requires w != b && w != n && w != r2 && w != T && w.p != b.p && w.p != n.p && w.p != r2.p && w.p != T.p
    requires T.p != n.p && T.p != r2.p && T != x
    modifies x, x.p, w, w.p, T.p
    ensures ret == 0 || ret == ALLOC_FAILED
    ensures reliable && n.p.Length + 1 <= MAX_LIMBS && b.p.Length + 4 <= MAX_LIMBS ==> ret == 0
    ensures x.Valid(base) && x.p == old(x.p)
    ensures ret == 0 ==>
      x.s == 1 && x.Magnitude(base) == Pow(old(b.Magnitude(base)), Val(E, base)) % n.Magnitude(base)
  {
    ghost var rinv := InverseOfR(n.p[..], mm, base, n.p.Length);
    ghost var g := Ring(n.Magnitude(base), Pow(base, n.p.Length), rinv, b.Magnitude(base));
    var k := Machine(n.p, mm, T.p, base);
    PowAdd(base, n.p.Length, n.p.Length);
    ret := ReduceInto(w, b, n, bits, base, reliable);
    if ret != 0 { return; }
    ret := RaiseMagnitude(x, w.p, r2, E, bits, wsize, cap, k, g, reliable);
  }

  /** |A|^E mod N, in an X that has been grown. */
  method RaiseBase(x: Mpi, a: Mpi, E: seq<nat>, n: Mpi, rr: Mpi?, mm: nat, bits: nat, wsize: nat,
                   cap: nat, base: nat, reliable: bool)
    returns (ret: int)
    requires base > 3 && bits > 1 && base == Pow2(bits) && 1 <= wsize <= cap <= MAX_WINDOW && IsLimbs(E, base)
    requires x.Valid(base) && a.Valid(base) && n.Valid(base) && a.p.Length > 0 && n.p.Length < x.p.Length
    requires n.s == 1 && n.Magnitude(base) > 0 && n.p.Length > 0 && Congruent(mm * n.p[0], -1, base)
    requires x != n && x.p != n.p && (x != a ==> x.p != a.p)
    requires rr != null ==> rr != x && rr != a && rr != n && rr.p != x.p && rr.Valid(base) && Cached(rr, n, base)
    modifies x, x.p, if rr == null then {} else {rr}
    ensures ret == 0 || ret == ALLOC_FAILED
    ensures reliable && 2 * n.p.Length + 5 <= MAX_LIMBS && old(a.p.Length) + 4 <= MAX_LIMBS ==> ret == 0
    ensures 2 * n.p.Length + 2 > MAX_LIMBS ==> ret != 0
    ensures x.Valid(base) && x.p == old(x.p)
    ensures rr != null ==> rr.Valid(base) && Cached(rr, n, base) && (rr.p == old(rr.p) || fresh(rr.p))
    ensures ret == 0 ==>
      x.s == 1 && x.Magnitude(base) == Pow(old(a.Magnitude(base)), Val(E, base)) % n.Magnitude(base)
  {
    var w, T, b;
    ret, w, T, b := Temporaries(a, n, base, reliable);
    if ret != 0 { return; }
    ret := RaiseWith(x, w, T, b, E, n, rr, mm, bits, wsize, cap, base, reliable);
  }

  /** The same, with the vectors at hand. */
  method RaiseWith(x: Mpi, w: Mpi, T: Mpi, b: Mpi, E: seq<nat>, n: Mpi, rr: Mpi?, mm: nat, bits: nat, wsize: nat,
                   cap: nat, base: nat, reliable: bool)
    returns (ret: int)
    requires base > 3 && bits > 1 && base == Pow2(bits) && 1 <= wsize <= cap <= MAX_WINDOW && IsLimbs(E, base)
    requires x.Valid(base) && w.Valid(base) && b.Valid(base) && n.Valid(base) && b.s == 1 && b.p.Length > 0
    requires n.s == 1 && n.Magnitude(base) > 0 && n.p.Length > 0 && Congruent(mm * n.p[0], -1, base)
    requires n.p.Length < x.p.Length && n.p.Length < w.p.Length && 2 * n.p.Length + 2 <= T.p.Length
    requires x != w && x != n && x.p != w.p && x.p != n.p && x.p != T.p && T != x
    requires w != b && w != n && w != T && w.p != b.p && w.p != n.p && w.p != T.p && T.p != n.p
    requires rr != null ==> rr != x && rr != b && rr != n && rr != w && rr != T && rr.Valid(base) && Cached(rr, n, base)
    requires rr != null ==> rr.p != x.p && rr.p != w.p && rr.p != T.p
    modifies x, x.p, w, w.p, T.p, if rr == null then {} else {rr}
    ensures ret == 0 || ret == ALLOC_FAILED
    ensures reliable && 2 * n.p.Length + 5 <= MAX_LIMBS && b.p.Length + 4 <= MAX_LIMBS ==> ret == 0
    ensures x.Valid(base) && x.p == old(x.p)
    ensures rr != null ==> rr.Valid(base) && Cached(rr, n, base) && (rr.p == old(rr.p) || fresh(rr.p))
    ensures ret == 0 ==>
      x.s == 1 && x.Magnitude(base) == Pow(old(b.Magnitude(base)), Val(E, base)) % n.Magnitude(base)
  {
    var r2;
    ret, r2 := SquareOfR(rr, n, bits, base, reliable);
    if ret != 0 { return; }
    ret := PowerOfMagnitude(x, w, b, T, r2, E, n, mm, bits, wsize, cap, base, reliable);
  }

  /** A^E mod N for A of either sign, in an X that has been grown. */
  method RaiseSigned(x: Mpi, a: Mpi, E: seq<nat>, n: Mpi, rr: Mpi?, mm: nat, bits: nat, wsize: nat, cap: nat,
                      base: nat, reliable: bool)
    returns (ret: int)
    requires base > 3 && bits > 1 && base == Pow2(bits) && 1 <= wsize <= cap <= MAX_WINDOW && IsLimbs(E, base)
    requires x.Valid(base) && a.Valid(base) && n.Valid(base) && a.p.Length > 0 && n.p.Length < x.p.Length
    requires n.s == 1 && n.Magnitude(base) > 0 && n.p.Length > 0 && Congruent(mm * n.p[0], -1, base)
    requires x != n && x.p != n.p && (x != a ==> x.p != a.p)
    requires rr != null ==> rr != x && rr != a && rr != n && rr.p != x.p && rr.Valid(base) && Cached(rr, n, base)
    modifies x, x.p, if rr == null then {} else {rr}
    ensures ret == 0 || ret == ALLOC_FAILED
    ensures reliable && 2 * n.p.Length + 5 <= MAX_LIMBS && old(a.p.Length) + 4 <= MAX_LIMBS ==> ret == 0
    ensures 2 * n.p.Length + 2 > MAX_LIMBS ==> ret != 0
    ensures x.Valid(base) && (rr != null ==> rr.Valid(base) && Cached(rr, n, base))
    ensures ret == 0 ==>
      x.Value(base) == Power(old(a.s) == -1, old(a.Magnitude(base)), E, base, n.Magnitude(base))
  {
    var neg := a.s == -1;
    ghost var av := a.Magnitude(base);
    ret := RaiseBase(x, a, E, n, rr, mm, bits, wsize, cap, base, reliable);
    if ret != 0 { return; }
    ret := Correct(x, n, neg, E, base, av, reliable);
  }

  /** The exponentiation once its arguments have been accepted. */
  method Exponentiate(x: Mpi, a: Mpi, E: seq<nat>, n: Mpi, rr: Mpi?, mm: nat, bits: nat, wsize: nat, cap: nat,
                      base: nat, reliable: bool)
    returns (ret: int)
    requires base > 3 && bits > 1 && base == Pow2(bits) && 1 <= wsize <= cap <= MAX_WINDOW && IsLimbs(E, base)
    requires x.Valid(base) && a.Valid(base) && n.Valid(base) && a.p.Length > 0
    requires n.s == 1 && n.Magnitude(base) > 0 && n.p.Length > 0 && Congruent(mm * n.p[0], -1, base)
    requires x != n && x.p != n.p && (x != a ==> x.p != a.p)
    requires rr != null ==> rr != x && rr != a && rr != n && rr.p != x.p && rr.Valid(base) && Cached(rr, n, base)
    modifies x, x.p, if rr == null then {} else {rr}
    ensures ret == 0 || ret == ALLOC_FAILED
    ensures reliable && 2 * n.p.Length + 5 <= MAX_LIMBS && old(a.p.Length) + 4 <= MAX_LIMBS ==> ret == 0
    ensures 2 * n.p.Length + 2 > MAX_LIMBS ==> ret != 0
    ensures x.Valid(base) && (rr != null ==> rr.Valid(base) && Cached(rr, n, base))
    ensures ret == 0 ==>
      x.Value(base) == Power(old(a.s) == -1, old(a.Magnitude(base)), E, base, n.Magnitude(base))
  {
    ret := x.Grow(n.p.Length + 1, base, reliable);
    if ret != 0 { return; }
    ret := RaiseSigned(x, a, E, n, rr, mm, bits, wsize, cap, base, reliable);
  }

  /** The correction for a negative A. */
  method Correct(x: Mpi, n: Mpi, neg: bool, E: seq<nat>, base: nat, ghost av: nat, reliable: bool) returns (ret: int)
    requires base > 1 && x.Valid(base) && n.Valid(base) && n.s == 1
    requires x != n && x.p != n.p && 0 < n.p.Length <= x.p.Length && n.Magnitude(base) > 0
    requires x.s == 1 && x.Magnitude(base) == Pow(av, Val(E, base)) % n.Magnitude(base)
    modifies x, x.p
    ensures ret == 0 || ret == ALLOC_FAILED
    ensures reliable && n.p.Length <= MAX_LIMBS ==> ret == 0
    ensures x.Valid(base)
    ensures ret == 0 ==> x.Value(base) == Power(neg, av, E, base, n.Magnitude(base))
  {
    ret := 0;
    if neg && OddExponent(E) {
      ret := SubtractFrom(x, n, base, reliable);
    }
  }

  /** mbedtls_mpi_exp_mod, for limbs of 4 * 2^t bits and a configured window of cap bits. X may be
      A. rr is the helper number _RR, or null. */
  method ExpMod(x: Mpi, a: Mpi, e: Mpi, n: Mpi, rr: Mpi?, t: nat, cap: nat, base: nat, reliable: bool)
    returns (ret: int)
    requires t >= 1 && base == Modulus(t) && 1 <= cap <= MAX_WINDOW
    requires x.Valid(base) && a.Valid(base) && e.Valid(base) && n.Valid(base) && a.p.Length > 0
    requires x != e && x != n && x.p != e.p && x.p != n.p && (x != a ==> x.p != a.p)
    requires rr != null ==> rr != x && rr != a && rr != n && rr != e && rr.p != x.p
    requires rr != null ==> rr.Valid(base) && Cached(rr, n, base)
    modifies x, x.p, if rr == null then {} else {rr}
    ensures ret == 0 || ret == ALLOC_FAILED || ret == BAD_INPUT_DATA
    ensures ret == BAD_INPUT_DATA <==> n.Value(base) <= 0 || n.Value(base) % 2 == 0 || e.Value(base) < 0
    ensures ret == BAD_INPUT_DATA ==> x.Value(base) == old(x.Value(base))
    ensures reliable && 2 * n.p.Length + 5 <= MAX_LIMBS && old(a.p.Length) + 4 <= MAX_LIMBS ==> ret != ALLOC_FAILED
    ensures ret == 0 ==> 2 * n.p.Length + 2 <= MAX_LIMBS
    ensures x.Valid(base) && (rr != null ==> rr.Valid(base) && Cached(rr, n, base))
    ensures ret == 0 ==> n.Magnitude(base) > 0
    ensures ret == 0 ==>
      x.Value(base) == Power(old(a.s) == -1, old(a.Magnitude(base)), e.p[..], base, n.Magnitude(base))
  {
    var ok := Accepts(e, n, t, base);
    if !ok {
      return BAD_INPUT_DATA;
    }
    BaseFacts(t);
    var mm := MontgInit(n.p[0], t);
    var ebits := BitLength(e, Bits(t), base);
    ret := Exponentiate(x, a, e.p[..], n, rr, mm, Bits(t), WindowSize(ebits, cap), cap, base, reliable);
  }

  /** The tests of N and E. */
  method Accepts(e: Mpi, n: Mpi, t: nat, base: nat) returns (ok: bool)
    requires t >= 1 && base == Modulus(t) && e.Valid(base) && n.Valid(base)
    ensures ok <==> n.Value(base) > 0 && n.Value(base) % 2 != 0 && e.Value(base) >= 0
    ensures ok ==> n.s == 1 && n.Magnitude(base) > 0 && n.p.Length > 0 && n.p[0] % 2 == 1 && n.p[0] < base
  {
    BaseFacts(t);
    var c := CompareZero(n, base);
    if c > 0 {
      ModulusHasLimbs(n.p[..], base);
      ParityOfVal(n.p[..], Bits(t));
    }
    if c <= 0 || n.p[0] % 2 == 0 {
      return false;
    }
    assert n.p[..][0] == n.p[0];
    c := CompareZero(e, base);
    ok := c >= 0;
  }

  lemma BaseFacts(t: nat)
    requires t >= 1
    ensures Bits(t) > 1 && Modulus(t) == Pow2(Bits(t)) > 3
  {
    PowPositive(2, t);
    PowMonotone(2, 2, Bits(t));
    assert Pow2(2) == 4;
  }

  lemma ModulusHasLimbs(n: seq<nat>, base: nat)
    requires Val(n, base) > 0
    ensures n != []
  {
  }

  // ---------------------------------------------------------------- what the result means

  lemma NegatedProduct(a: int, b: int)
    ensures (0 - a) * b == 0 - a * b
    ensures (0 - a) * (0 - b) == a * b
  {
  }

  lemma {:induction false} PowNegated(a: nat, e: nat)
    ensures IntPow(0 - a, e) == (if e % 2 == 1 then 0 - Pow(a, e) else Pow(a, e))
  {
    if e > 0 {
      PowNegated(a, e - 1);
      NegatedProduct(a, Pow(a, e - 1));
      assert e % 2 == 1 <==> (e - 1) % 2 == 0;
    }
  }

  function IntPow(b: int, e: nat): int
  {
    if e == 0 then 1 else b * IntPow(b, e - 1)
  }

  lemma ParityOfVal(E: seq<nat>, bits: nat)
    requires bits > 0
    ensures Val(E, Pow2(bits)) % 2 == (if OddExponent(E) then 1 else 0)
  {
    if E != [] {
      var h, v := Pow2(bits - 1), Val(E[1..], Pow2(bits));
      EvenShift(h, v);
      ModOfMultiple(E[0], h * v, 2);
    }
  }

  lemma EvenShift(h: int, v: int)
    ensures (2 * h) * v == (h * v) * 2
  {
  }

  /** What exponentiation is for: the residue of A^E for signed A. A negative A with an odd E
      leaves N itself instead of 0, and only then is the result not the reduced residue. */
  lemma ExpModResidue(neg: bool, a: nat, E: seq<nat>, bits: nat, n: nat)
    requires bits > 0 && n > 0
    ensures var x, power := Power(neg, a, E, Pow2(bits), n), SignedPower(neg, a, E, bits);
            && Congruent(x, power, n)
            && (x == power % n <==> !(neg && OddExponent(E) && power % n == 0))
  {
    var e := Val(E, Pow2(bits));
    ParityOfVal(E, bits);
    PowNegated(a, e);
    PowSame(a, e);
    var pw := Pow(a, e);
    var m := pw % n;
    DivModFacts(pw, n);
    if neg && OddExponent(E) {
      assert 0 - pw == (0 - pw / n) * n - m;
      if m == 0 {
        DivModUnique(0 - pw, n, 0 - pw / n, 0);
      } else {
        DivModUnique(0 - pw, n, 0 - pw / n - 1, n - m);
      }
      CongruentBy(n - m, 0 - pw, n, pw / n + 1);
    } else {
      CongruentMod(pw, n);
    }
  }

  function SignedPower(neg: bool, a: nat, E: seq<nat>, bits: nat): int
  {
    IntPow(if neg then 0 - a else a, Val(E, Pow2(bits)))
  }

  lemma SignedPowerZero(neg: bool, a: nat, E: seq<nat>, bits: nat, n: nat)
    requires bits > 0 && n > 0
    ensures SignedPower(neg, a, E, bits) % n == 0 <==> Pow(a, Val(E, Pow2(bits))) % n == 0
  {
    var e := Val(E, Pow2(bits));
    PowNegated(a, e);
    PowSame(a, e);
    NegatedMultiple(Pow(a, e), n);
  }

  lemma NegatedMultiple(x: int, n: nat)
    requires n > 0
    ensures x % n == 0 <==> (0 - x) % n == 0
  {
    DivModFacts(x, n);
    DivModFacts(0 - x, n);
    if x % n == 0 {
      DivModUnique(0 - x, n, 0 - x / n, 0);
    }
    if (0 - x) % n == 0 {
      DivModUnique(x, n, 0 - (0 - x) / n, 0);
    }
  }

  /** A base that is invertible modulo N > 1 always gives the reduced residue. */
  lemma InvertibleBaseIsReduced(neg: bool, a: nat, inv: nat, E: seq<nat>, bits: nat, n: nat)
    requires bits > 0 && n > 1 && Congruent(a * inv, 1, n)
    ensures Power(neg, a, E, Pow2(bits), n) == SignedPower(neg, a, E, bits) % n
  {
    var e := Val(E, Pow2(bits));
    ExpModResidue(neg, a, E, bits, n);
    SignedPowerZero(neg, a, E, bits, n);
    InverseOfPower(a, inv, n, e);
    if Pow(a, e) % n == 0 {
      CongruentMod(Pow(a, e), n);
      CongruentScale(Pow(a, e) % n, Pow(a, e), Pow(inv, e), n);
      CongruentTrans(0, Pow(a, e) * Pow(inv, e), 1, n);
      CongruentIffSameMod(0, 1, n);
      DivModUnique(1, n, 0, 1);
      DivModUnique(0, n, 0, 0);
      assert false;
    }
  }

  /** A negative multiple of N, raised to an odd power, leaves N where the residue is 0. */
  lemma MultipleOfModulusLeavesIt(a: nat, E: seq<nat>, bits: nat, n: nat)
    requires bits > 0 && n > 0 && a % n == 0 && OddExponent(E)
    ensures Power(true, a, E, Pow2(bits), n) == n
    ensures SignedPower(true, a, E, bits) % n == 0
  {
    var e := Val(E, Pow2(bits));
    ParityOfVal(E, bits);
    CongruentMod(a, n);
    CongruentScale(0, a, Pow(a, e - 1), n);
    CongruentIffSameMod(0, Pow(a, e), n);
    DivModUnique(0, n, 0, 0);
    SignedPowerZero(true, a, E, bits, n);
  }

  /** (-3)^1 mod 3, for limbs of any size. */
  lemma MinusThreeModThree(bits: nat)
    requires bits > 0
    ensures Power(true, 3, [1], Pow2(bits), 3) == 3 && SignedPower(true, 3, [1], bits) % 3 == 0
  {
    MultipleOfModulusLeavesIt(3, [1], bits, 3);
  }

  lemma {:induction false} PowSame(a: nat, e: nat)
    ensures IntPow(a, e) == Pow(a, e)
  {
    if e > 0 {
      PowSame(a, e - 1);
    }
  }
}

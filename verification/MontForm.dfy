/** The arithmetic behind sliding-window exponentiation: Montgomery products as a function, powers
    in Montgomery form, the exponent's bits and the window that holds some of them. */
module MontForm {
  import opened Arith
  import opened Limbs
  import opened Montgomery

  // ---------------------------------------------------------------- Montgomery products as a function

  /** The Montgomery product, for a given inverse of R. */
  function Mont(a: nat, b: nat, nv: nat, rinv: nat): nat
    requires nv > 0
  {
    (a * b * rinv) % nv
  }

  /** base^n has an inverse modulo N whenever mm is minus the inverse of N's low limb. */
  lemma InverseOfR(N: seq<nat>, mm: nat, base: nat, n: nat) returns (rinv: nat)
    requires base > 1 && N != [] && Val(N, base) > 0
    requires Congruent(mm * N[0], -1, base)
    ensures Congruent(Pow(base, n) * rinv, 1, Val(N, base))
  {
    var nv := Val(N, base);
    LowLimb(N, base);
    CongruentRefl(mm, base);
    CongruentMul(mm, mm, nv, N[0], base);
    CongruentTrans(mm * nv, mm * N[0], -1, base);
    var k :| mm * nv == -1 + Scaled(k, base);
    assert k > 0 by {
      if k <= 0 { MulMonotone(k, 0, base); MulMonotone(0, mm, nv); }
    }
    CongruentBy(base * k, 1, nv, mm);
    InverseOfPower(base, k, nv, n);
    rinv := Pow(k, n);
  }

  lemma {:induction false} InverseOfPower(base: nat, k: nat, nv: nat, n: nat)
    requires Congruent(base * k, 1, nv)
    ensures Congruent(Pow(base, n) * Pow(k, n), 1, nv)
  {
    if n == 0 {
      CongruentRefl(1, nv);
    } else {
      InverseOfPower(base, k, nv, n - 1);
      var p, q := Pow(base, n - 1), Pow(k, n - 1);
      CongruentMul(base * k, 1, p * q, 1, nv);
      assert (base * k) * (p * q) == (base * p) * (k * q) by {
        MulAssoc(base, k, p * q);
        MulAssoc(base, p, k * q);
        assert k * (p * q) == p * (k * q);
      }
    }
  }

  /** Multiplying by R and then by its inverse changes nothing modulo N. */
  lemma CancelR(x: int, r: nat, rinv: nat, nv: nat)
    requires Congruent(r * rinv, 1, nv)
    ensures Congruent((x * r) * rinv, x, nv)
  {
    CongruentRefl(x, nv);
    CongruentMul(x, x, r * rinv, 1, nv);
    MulAssoc(x, r, rinv);
  }

  /** The result mpi_montmul is proved to leave is exactly this function's value. */
  lemma MontIsUnique(x: nat, a: nat, b: nat, nv: nat, r: nat, rinv: nat)
    requires nv > 0 && Congruent(r * rinv, 1, nv)
    requires IsMontProduct(x, a, b, nv, r)
    ensures x == Mont(a, b, nv, rinv)
  {
    CongruentRefl(rinv, nv);
    CongruentMul(x * r, a * b, rinv, rinv, nv);
    CancelR(x, r, rinv, nv);
    CongruentSym(x * r * rinv, x, nv);
    CongruentTrans(x, x * r * rinv, a * b * rinv, nv);
    CongruentIffSameMod(x, a * b * rinv, nv);
    DivModUnique(x, nv, 0, x);
  }

  /** a^e in Montgomery form. */
  function Rep(a: nat, e: nat, nv: nat, r: nat): nat
    requires nv > 0
  {
    (Pow(a, e) * r) % nv
  }

  /** Products of numbers in Montgomery form add exponents. */
  lemma MontRep(a: nat, e: nat, f: nat, nv: nat, r: nat, rinv: nat)
    requires nv > 0 && Congruent(r * rinv, 1, nv)
    ensures Mont(Rep(a, e, nv, r), Rep(a, f, nv, r), nv, rinv) == Rep(a, e + f, nv, r)
  {
    PowAdd(a, e, f);
    MontOfReduced(Pow(a, e) * r, Pow(a, f) * r, nv, rinv);
    FourFactors(Pow(a, e), r, Pow(a, f), r);
    CancelProduct((Pow(a, e) * r) * (Pow(a, f) * r), (Pow(a, e) * Pow(a, f)) * r, r, rinv, nv);
  }

  lemma CancelProduct(p: nat, x: nat, r: nat, rinv: nat, nv: nat)
    requires nv > 0 && Congruent(r * rinv, 1, nv) && p == x * r
    ensures (p * rinv) % nv == x % nv
  {
    CancelR(x, r, rinv, nv);
    CongruentIffSameMod(p * rinv, x, nv);
  }

  lemma FourFactors(x: int, r: int, y: int, s: int)
    ensures (x * r) * (y * s) == ((x * y) * r) * s
  {
  }

  /** Reducing the operands does not change a Montgomery product. */
  lemma MontOfReduced(x: nat, y: nat, nv: nat, rinv: nat)
    requires nv > 0
    ensures Mont(x % nv, y % nv, nv, rinv) == ((x * y) * rinv) % nv
  {
    CongruentMod(x, nv);
    CongruentMod(y, nv);
    CongruentMul(x % nv, x, y % nv, y, nv);
    CongruentRefl(rinv, nv);
    CongruentMul((x % nv) * (y % nv), x * y, rinv, rinv, nv);
    CongruentIffSameMod((x % nv) * (y % nv) * rinv, (x * y) * rinv, nv);
  }

  /** A product with R^2 puts a number into Montgomery form. */
  lemma MontEnter(a: nat, nv: nat, r: nat, rinv: nat)
    requires nv > 0 && Congruent(r * rinv, 1, nv)
    ensures Mont(a % nv, (r * r) % nv, nv, rinv) == Rep(a, 1, nv, r)
  {
    MontOfReduced(a, r * r, nv, rinv);
    assert Pow(a, 1) == a;
    MulAssoc(a, r, r);
    CancelR(a * r, r, rinv, nv);
    CongruentIffSameMod((a * (r * r)) * rinv, a * r, nv);
  }

  /** mpi_montred: R^2 becomes R, and a number leaves Montgomery form. */
  lemma MontLeave(x: nat, nv: nat, r: nat, rinv: nat)
    requires nv > 0 && Congruent(r * rinv, 1, nv)
    ensures Mont((x * r) % nv, 1, nv, rinv) == x % nv
  {
    CongruentMod(x * r, nv);
    CongruentRefl(rinv, nv);
    CongruentMul((x * r) % nv, x * r, rinv, rinv, nv);
    CancelR(x, r, rinv, nv);
    CongruentTrans((x * r) % nv * rinv, x * r * rinv, x, nv);
    assert ((x * r) % nv) * 1 * rinv == (x * r) % nv * rinv;
    CongruentIffSameMod((x * r) % nv * rinv, x, nv);
  }

  // ---------------------------------------------------------------- the exponent's bits

  lemma HalveTwice(x: nat, b: nat)
    ensures Pow2(b) > 0
    ensures Pow2(b + 1) == 2 * Pow2(b)
    ensures x / Pow2(b) == 2 * (x / Pow2(b + 1)) + (x / Pow2(b)) % 2
  {
    PowPositive(2, b);
    var p := Pow2(b);
    var y := x / p;
    DivModFacts(x, p);
    DivModFacts(y, 2);
    var low := x % p + p * (y % 2);
    assert x == (y / 2) * (2 * p) + low;
    assert low < 2 * p by { MulMonotone(y % 2, 1, p); }
    DivModUnique(x, 2 * p, y / 2, low);
  }

  /** The bits consumed when bufsize bits of limb k are left, read as a number. */
  function Consumed(E: seq<nat>, bits: nat, k: nat, bufsize: nat): nat
    requires k <= |E| && bufsize <= bits
  {
    if k == |E| then 0
    else Val(E[k + 1..], Pow2(bits)) * Pow2(bits - bufsize) + E[k] / Pow2(bufsize)
  }

  lemma ConsumeBit(E: seq<nat>, bits: nat, k: nat, bufsize: nat)
    requires k < |E| && bufsize < bits
    ensures Pow2(bufsize) > 0
    ensures Consumed(E, bits, k, bufsize) == 2 * Consumed(E, bits, k, bufsize + 1) + (E[k] / Pow2(bufsize)) % 2
  {
    HalveTwice(E[k], bufsize);
    var v := Val(E[k + 1..], Pow2(bits));
    assert Pow2(bits - bufsize) == 2 * Pow2(bits - bufsize - 1);
    PowPositive(2, bufsize + 1);
    assert v * (2 * Pow2(bits - bufsize - 1)) == 2 * (v * Pow2(bits - bufsize - 1));
  }

  /** Going to the next limb consumes nothing. */
  lemma NextLimb(E: seq<nat>, bits: nat, k: nat)
    requires k < |E| && IsLimbs(E, Pow2(bits))
    ensures Consumed(E, bits, k, bits) == Val(E[k + 1..], Pow2(bits))
    ensures Consumed(E, bits, k, 0) == Val(E[k..], Pow2(bits))
  {
    PowPositive(2, bits);
    DivModUnique(E[k], Pow2(bits), 0, E[k]);
    assert E[k..][1..] == E[k + 1..];
    assert Pow2(0) == 1;
  }

  // ---------------------------------------------------------------- the window

  const MAX_WINDOW: nat := 6

  /** The window size for an exponent, capped by the configured MBEDTLS_MPI_WINDOW_SIZE. */
  function WindowSize(bitlen: nat, cap: nat): (w: nat)
    requires 1 <= cap <= MAX_WINDOW
    ensures 1 <= w <= cap
  {
    var w :=
      if bitlen > 671 then 6
      else if bitlen > 239 then 5
      else if bitlen > 79 then 4
      else if bitlen > 23 then 3
      else 1;
    if w > cap then cap else w
  }

  /** The numbers an exponentiation works with: modulus, R and its inverse, base number. */
  datatype Ring = Ring(nv: nat, r: nat, rinv: nat, a: nat)
  {
    ghost predicate Valid() { nv > 0 && Congruent(r * rinv, 1, nv) }
    function Mul(x: nat, y: nat): nat requires nv > 0 { Mont(x, y, nv, rinv) }
    function Form(e: nat): nat requires nv > 0 { Rep(a, e, nv, r) }
    function RSquared(): nat requires nv > 0 { (r * r) % nv }
  }

  lemma FormZero(g: Ring)
    requires g.nv > 0
    ensures g.Form(0) == g.r % g.nv && g.RSquared() < g.nv
  {
    assert Pow(g.a, 0) == 1;
  }

  lemma FormMul(g: Ring, e: nat, f: nat)
    requires g.Valid()
    ensures g.Mul(g.Form(e), g.Form(f)) == g.Form(e + f)
  {
    MontRep(g.a, e, f, g.nv, g.r, g.rinv);
  }

  lemma DoubleScaled(q: nat, p: nat)
    ensures q * p + q * p == q * (2 * p)
  {
  }

  lemma PowersUpTo6(w: nat)
    requires 1 <= w <= MAX_WINDOW
    ensures Pow2(w) == 2 * Pow2(w - 1) <= 64 && Pow2(w - 1) >= 1
    ensures w > 1 ==> Pow2(w - 1) >= 2
    ensures w == 1 ==> Pow2(w) == 2 && Pow2(w - 1) == 1
  {
    assert Pow2(0) == 1 && Pow2(1) == 2 && Pow2(2) == 4 && Pow2(3) == 8;
    assert Pow2(4) == 16 && Pow2(5) == 32 && Pow2(6) == 64;
  }

  /** The scanner between two bits: p is the exponent consumed so far, q the part already in X,
      w the bits held in the window, left-aligned in wbits. */
  ghost predicate Window(p: nat, q: nat, w: nat, nbits: nat, wbits: nat, wsize: nat, state: nat)
  {
    && nbits <= wsize && state <= 2
    && (state == 0 ==> p == 0)
    && (state <= 1 <==> nbits == 0)
    && p == q * Pow2(nbits) + w
    && w < Pow2(nbits) && (nbits > 0 ==> Pow2(nbits - 1) <= w)
    && wbits == w * Pow2(wsize - nbits)
  }

  /** A zero outside a window doubles the exponent. */
  lemma ShiftOut(p: nat, q: nat, w: nat, wbits: nat, wsize: nat, state: nat)
    requires Window(p, q, w, 0, wbits, wsize, state)
    ensures w == 0 && wbits == 0 && p == q
    ensures Window(2 * p, 2 * p, 0, 0, 0, wsize, state)
    ensures 2 * p == p + p
  {
    assert Pow2(0) == 1;
  }

  /** A bit that joins the window: the first one must be a one. */
  lemma AddBit(p: nat, q: nat, w: nat, nbits: nat, wbits: nat, wsize: nat, state: nat, ei: nat)
    requires Window(p, q, w, nbits, wbits, wsize, state) && nbits < wsize && ei <= 1
    requires state <= 1 ==> ei == 1
    ensures Window(2 * p + ei, q, 2 * w + ei, nbits + 1, wbits + ei * Pow2(wsize - (nbits + 1)), wsize, 2)
  {
    assert Pow2(0) == 1;
    var h := Pow2(wsize - nbits - 1);
    assert Pow2(wsize - nbits) == 2 * h;
    assert w * (2 * h) + ei * h == (2 * w + ei) * h;
    DoubleScaled(q, Pow2(nbits));
  }

  /** The i-th round of the remaining bits brings in the next held bit. */
  lemma TailRound(w: nat, nbits: nat, wsize: nat, i: nat)
    requires i < nbits <= wsize
    ensures Pow2(nbits - i) > 0 && Pow2(nbits - i - 1) > 0 && Pow2(wsize) > 0
    ensures w / Pow2(nbits - i - 1) == 2 * (w / Pow2(nbits - i)) + (w / Pow2(nbits - i - 1)) % 2
    ensures (w * Pow2(wsize - nbits + i + 1)) / Pow2(wsize) == w / Pow2(nbits - i - 1)
  {
    HalveTwice(w, nbits - i - 1);
    PowPositive(2, nbits - i);
    PowPositive(2, wsize);
    var s, k := Pow2(wsize - nbits + i + 1), Pow2(nbits - i - 1);
    PowAdd(2, wsize - nbits + i + 1, nbits - i - 1);
    PowPositive(2, wsize - nbits + i + 1);
    ScaledQuotient(w, s, k);
  }

  lemma TailScaled(w: nat, q: nat, nbits: nat, wsize: nat, i: nat)
    requires i < nbits <= wsize
    ensures (w * Pow2(wsize - nbits + i)) * 2 == w * Pow2(wsize - nbits + i + 1)
    ensures 2 * (q * Pow2(i)) == q * Pow2(i + 1)
  {
    DoubleScaled(w, Pow2(wsize - nbits + i));
    DoubleScaled(q, Pow2(i));
  }

  /** A full window is used as it is held: an index into the upper half of the table. */
  lemma FullWindow(p: nat, q: nat, v: nat, wbits: nat, wsize: nat)
    requires Window(p, q, v, wsize, wbits, wsize, 2)
    ensures wsize > 0 && wbits == v && Pow2(wsize - 1) <= v < Pow2(wsize) && p == q * Pow2(wsize) + v
  {
    assert Pow2(0) == 1;
  }

  lemma ScaledQuotient(w: nat, s: nat, k: nat)
    requires s > 0 && k > 0
    ensures s * k > 0 && (w * s) / (s * k) == w / k
  {
    MulPositive(s, k);
    DivModFacts(w, k);
    var q, m := w / k, w % k;
    assert w * s == q * (s * k) + m * s;
    MulMonotone(m + 1, k, s);
    DivModUnique(w * s, s * k, q, m * s);
  }

  lemma EmptyWindow(p: nat, wsize: nat)
    ensures Window(p, p, 0, 0, 0, wsize, 1)
  {
    assert Pow2(0) == 1;
  }
}

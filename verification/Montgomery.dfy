/** Montgomery initialisation, multiplication and reduction (mpi_montg_init, mpi_montmul,
    mpi_montred), limb by limb. */
module Montgomery {
  import opened Arith
  import opened Limbs
  import opened MpiRows

  // ---------------------------------------------------------------- mpi_montg_init

  /** Precision, in bits, after t Newton steps: 4, 8, 16, ... */
  function Bits(t: nat): nat { 4 * Pow2(t) }

  function Modulus(t: nat): nat { Pow2(Bits(t)) }

  lemma ModulusSquares(t: nat)
    ensures Modulus(t + 1) == Modulus(t) * Modulus(t)
  {
    assert Bits(t + 1) == Bits(t) + Bits(t);
    PowAdd(2, Bits(t), Bits(t));
  }

  lemma ModulusDivides(t: nat, u: nat) returns (k: nat)
    requires t <= u
    ensures Modulus(u) == k * Modulus(t)
  {
    PowMonotone(2, t, u);
    PowAdd(2, Bits(u) - Bits(t), Bits(t));
    k := Pow2(Bits(u) - Bits(t));
  }

  /** Newton's step doubles the precision of an inverse. */
  lemma NewtonStep(m: int, x: int, p: int)
    requires Congruent(m * x, 1, p)
    ensures Congruent(m * (x * (2 - m * x)), 1, p * p)
  {
    var k :| m * x == 1 + Scaled(k, p);
    var e := k * p;
    assert m * (x * (2 - m * x)) == (m * x) * (2 - m * x);
    assert (1 + e) * (1 - e) == 1 - e * e;
    assert e * e == (k * k) * (p * p);
    CongruentBy(m * (x * (2 - m * x)), 1, p * p, -(k * k));
  }

  /** Reducing a factor modulo a multiple of p does not change a product modulo p. */
  lemma ReduceFactor(m: int, x: int, p: nat, base: nat, k: int)
    requires base == k * p && base > 0
    ensures Congruent(m * (x % base), m * x, p)
  {
    DivModFacts(x, base);
    var q := x / base;
    assert m * (x % base) == m * x - m * (q * base);
    assert m * (q * (k * p)) == (m * q * k) * p;
    CongruentBy(m * (x % base), m * x, p, -(m * q * k));
  }

  /** The start value: the limb, plus eight when its third bit would be wrong. */
  function Seed(m0: nat): nat
  {
    m0 + (if ((m0 + 2) / 4) % 2 == 1 then 8 else 0)
  }

  /** The seed's correction depends on the last hexadecimal digit only, and inverts it. */
  lemma SeedDigit(r: nat)
    requires r < 16 && r % 2 == 1
    ensures Congruent(r * Seed(r), 1, 16)
  {
    var e := if r == 1 then 0 else if r == 3 then 2 else if r == 5 then 4 else if r == 7 then 3
             else if r == 9 then 5 else if r == 11 then 13 else if r == 13 then 17 else 14;
    CongruentBy(r * Seed(r), 1, 16, e);
  }

  lemma SeedShift(m0: nat, q: nat, r: nat)
    requires m0 == 16 * q + r && r < 16
    ensures Seed(m0) == 16 * q + Seed(r)
  {
    DivModUnique(m0 + 2, 4, 4 * q + (r + 2) / 4, (r + 2) % 4);
    ModOfMultiple((r + 2) / 4, 2 * q, 2);
  }

  lemma SameDigits(q: int, r: int, s: int)
    ensures Congruent((16 * q + r) * (16 * q + s), r * s, 16)
  {
    CongruentBy(16 * q + r, r, 16, q);
    CongruentBy(16 * q + s, s, 16, q);
    CongruentMul(16 * q + r, r, 16 * q + s, s, 16);
  }

  /** The seed inverts every odd m0 modulo 16. */
  lemma SeedInverts(m0: nat, q: nat, r: nat)
    requires m0 == 16 * q + r && r < 16 && r % 2 == 1
    ensures Congruent(m0 * Seed(m0), 1, 16)
  {
    SeedShift(m0, q, r);
    SeedDigit(r);
    SameDigits(q, r, Seed(r));
    CongruentTrans(m0 * Seed(m0), r * Seed(r), 1, 16);
  }

  lemma FirstModulus()
    ensures Modulus(0) == 16
  {
    assert Pow2(0) == 1 && Pow2(1) == 2 && Pow2(2) == 4 && Pow2(4) == 16;
  }

  lemma ReducedInverse(m: int, x: int, p: nat, base: nat, k: int)
    requires base == k * p && base > 0 && Congruent(m * x, 1, p)
    ensures Congruent(m * (x % base), 1, p)
  {
    ReduceFactor(m, x, p, base, k);
    CongruentTrans(m * (x % base), m * x, 1, p);
  }

  lemma SeedReduced(m0: nat, t: nat)
    requires m0 % 2 == 1
    ensures Congruent(m0 * (Seed(m0) % Modulus(t)), 1, Modulus(0))
  {
    FirstModulus();
    var k := ModulusDivides(0, t);
    SeedInverts(m0, m0 / 16, m0 % 16);
    ReducedInverse(m0, Seed(m0), Modulus(0), Modulus(t), k);
  }

  /** mpi_montg_init for limbs of 4 * 2^t bits: mm is minus the inverse of the low limb. */
  method MontgInit(m0: nat, t: nat) returns (mm: nat)
    requires t >= 1 && m0 < Modulus(t) && m0 % 2 == 1
    ensures mm < Modulus(t)
    ensures Congruent(mm * m0, -1, Modulus(t))
  {
    SeedReduced(m0, t);
    var base := Modulus(t);
    var x := Seed(m0) % base;
    var i := Bits(t);
    ghost var done := 0;
    while i >= 8
      invariant 0 <= done <= t && i == Bits(t - done)
      invariant 0 <= x && Congruent(m0 * x, 1, Modulus(done))
      decreases t - done
    {
      BitsHalve(t - done);
      NewtonRound(m0, x, done, t);
      x := (x * ((2 - m0 * x) % base)) % base;
      i := i / 2;
      done := done + 1;
    }
    BitsHalve(t - done);
    NegatedInverse(m0, x, base);
    mm := (-x) % base;
  }

  /** The counter is at least eight exactly while precision is missing; halving it counts the rounds. */
  lemma BitsHalve(t: nat)
    ensures Bits(t) >= 8 <==> t >= 1
    ensures t >= 1 ==> Bits(t) / 2 == Bits(t - 1)
    ensures t == 0 ==> Bits(t) == 4
  {
    if t >= 1 {
      PowPositive(2, t - 1);
    }
  }

  lemma NewtonRound(m0: nat, x: nat, done: nat, t: nat)
    requires done < t && Congruent(m0 * x, 1, Modulus(done))
    ensures Modulus(t) > 0
    ensures Congruent(m0 * ((x * ((2 - m0 * x) % Modulus(t))) % Modulus(t)), 1, Modulus(done + 1))
  {
    var base, p := Modulus(t), Modulus(done + 1);
    PowPositive(2, Bits(t));
    ModulusSquares(done);
    NewtonStep(m0, x, Modulus(done));
    var k := ModulusDivides(done + 1, t);
    ReduceBoth(m0, x, 2 - m0 * x, p, base, k);
    CongruentTrans(m0 * ((x * ((2 - m0 * x) % base)) % base), m0 * (x * (2 - m0 * x)), 1, p);
  }

  lemma ReduceBoth(m: int, x: int, y: int, p: nat, base: nat, k: int)
    requires base == k * p && base > 0
    ensures Congruent(m * ((x * (y % base)) % base), m * (x * y), p)
  {
    var z := y % base;
    ReduceFactor(m, x * z, p, base, k);
    ReduceFactor(m * x, y, p, base, k);
    MulAssoc(m, x, z);
    MulAssoc(m, x, y);
    CongruentTrans(m * ((x * z) % base), m * (x * z), m * (x * y), p);
  }

  lemma NegatedInverse(m0: int, x: int, base: nat)
    requires base > 0 && Congruent(m0 * x, 1, base)
    ensures Congruent(((-x) % base) * m0, -1, base)
  {
    ReduceFactor(m0, -x, base, base, 1);
    assert m0 * ((-x) % base) == ((-x) % base) * m0;
    var k :| m0 * x == 1 + Scaled(k, base);
    assert m0 * (-x) == -(m0 * x);
    CongruentBy(m0 * (-x), -1, base, -k);
    CongruentTrans(((-x) % base) * m0, m0 * (-x), -1, base);
  }

  // ---------------------------------------------------------------- mpi_montmul

  lemma LowLimb(s: seq<nat>, base: nat)
    requires s != []
    ensures Congruent(Val(s, base), s[0], base)
  {
    CongruentBy(Val(s, base), s[0], base, Val(s[1..], base));
  }

  lemma FirstTerms(t: int, d0: int, u0: int, bv: int, b0: int, base: nat)
    requires Congruent(t, d0, base) && Congruent(bv, b0, base)
    ensures Congruent(t + u0 * bv, d0 + u0 * b0, base)
  {
    CongruentRefl(u0, base);
    CongruentMul(u0, u0, bv, b0, base);
    CongruentAdd(t, d0, u0 * bv, u0 * b0, base);
  }

  lemma LastTerm(x: int, nv: int, n0: int, mm: int, base: nat)
    requires base > 0 && Congruent(nv, n0, base) && Congruent(mm * n0, -1, base)
    ensures Congruent(((x * mm) % base) * nv, x * -1, base)
  {
    CongruentMod(x * mm, base);
    CongruentMul((x * mm) % base, x * mm, nv, n0, base);
    MulAssoc(x, mm, n0);
    CongruentRefl(x, base);
    CongruentMul(x, x, mm * n0, -1, base);
    CongruentTrans(((x * mm) % base) * nv, x * (mm * n0), x * -1, base);
  }

  /** u1 is chosen so that T + u0 * B + u1 * N is divisible by the base. */
  lemma RowDivides(t: int, d0: int, u0: int, bv: int, b0: int, nv: int, n0: int, mm: int, base: nat)
    requires base > 0
    requires Congruent(t, d0, base) && Congruent(bv, b0, base) && Congruent(nv, n0, base)
    requires Congruent(mm * n0, -1, base)
    ensures (t + u0 * bv + (((d0 + u0 * b0) * mm) % base) * nv) % base == 0
  {
    var x := d0 + u0 * b0;
    FirstTerms(t, d0, u0, bv, b0, base);
    LastTerm(x, nv, n0, mm, base);
    CongruentAdd(t + u0 * bv, x, ((x * mm) % base) * nv, x * -1, base);
    CongruentIffSameMod(t + u0 * bv + ((x * mm) % base) * nv, 0, base);
    DivModUnique(0, base, 0, 0);
  }

  /** The window value after i rows: what T, shifted by i limbs, has accumulated. */
  ghost predicate RowsDone(t: nat, a: seq<nat>, i: nat, u: nat, bv: nat, nv: nat, base: nat)
    requires i <= |a|
  {
    && u < Pow(base, i)
    && t * Pow(base, i) == Val(a[..i], base) * bv + u * nv
  }

  lemma RowsBound(t: nat, a: seq<nat>, i: nat, u: nat, bv: nat, nv: nat, base: nat)
    requires i <= |a| && RowsDone(t, a, i, u, bv, nv, base) && IsLimbs(a, base)
    requires base > 0 && nv > 0
    ensures t < bv + nv
  {
    assert IsLimbs(a[..i], base);
    ValBound(a[..i], base);
    RowsBoundAlgebra(t, Val(a[..i], base), u, bv, nv, Pow(base, i));
  }

  lemma RowsBoundAlgebra(t: nat, a: nat, u: nat, bv: nat, nv: nat, p: nat)
    requires a < p && u < p && nv > 0 && t * p == a * bv + u * nv
    ensures t < bv + nv
  {
    MulMonotone(a, p, bv);
    MulMonotone(u + 1, p, nv);
    MulDistrib(p, bv, nv);
    if t >= bv + nv {
      MulMonotone(bv + nv, t, p);
    }
  }

  lemma RowsNext(t: nat, t': nat, a: seq<nat>, i: nat, u: nat, u1: nat, bv: nat, nv: nat, base: nat)
    requires i < |a| && RowsDone(t, a, i, u, bv, nv, base) && u1 < base
    requires t' * base == t + a[i] * bv + u1 * nv
    ensures RowsDone(t', a, i + 1, u + Pow(base, i) * u1, bv, nv, base)
  {
    var p := Pow(base, i);
    ValPrefixNext(a, i, base);
    RowsNextAlgebra(t, t', Val(a[..i], base), a[i], u, u1, bv, nv, p, base);
    ScaledRoom(u, u1, p, base);
  }

  lemma ScaledRoom(u: nat, u1: nat, p: nat, base: nat)
    requires u < p && u1 < base
    ensures u + p * u1 < base * p
  {
    MulMonotone(u1, base - 1, p);
  }

  lemma RowsNextAlgebra(t: int, t': int, a: int, x: int, u: int, u1: int, bv: int, nv: int, p: int, base: int)
    requires t * p == a * bv + u * nv
    requires t' * base == t + x * bv + u1 * nv
    ensures t' * (base * p) == (a + p * x) * bv + (u + p * u1) * nv
  {
    calc {
      t' * (base * p);
      { MulAssoc(t', base, p); }
      (t + x * bv + u1 * nv) * p;
      { Spread(t, x * bv, u1 * nv, p); }
      a * bv + u * nv + (x * bv) * p + (u1 * nv) * p;
      { Regroup(a, x, bv, p); Regroup(u, u1, nv, p); }
      (a + p * x) * bv + (u + p * u1) * nv;
    }
  }

  lemma Spread(x: int, y: int, z: int, p: int)
    ensures (x + y + z) * p == x * p + y * p + z * p
  {
  }

  lemma Regroup(a: int, x: int, v: int, p: int)
    ensures a * v + (x * v) * p == (a + p * x) * v
  {
  }

  /** What one row leaves room for: the window never needs more than n + 2 limbs. */
  lemma WindowFits(t: nat, u0: nat, bv: nat, u1: nat, nv: nat, n: nat, len: nat, base: nat)
    requires base > 1 && t < bv + nv && u0 < base && u1 < base
    requires bv < Pow(base, n) && nv < Pow(base, n) && n + 2 <= len
    ensures t + u0 * bv + u1 * nv < Pow(base, n + 2) <= Pow(base, len)
    ensures bv + nv < Pow(base, n + 1)
    ensures t + u0 * bv <= t + u0 * bv + u1 * nv
  {
    RowSize(t, u0, bv, u1, nv, base);
    MulMonotone(2, base, Pow(base, n));
    assert bv + nv < Pow(base, n + 1);
    MulMonotone(bv + nv, Pow(base, n + 1), base);
    PowMonotone(base, n + 2, len);
  }

  lemma RowSize(t: nat, u0: nat, bv: nat, u1: nat, nv: nat, base: nat)
    requires t < bv + nv && u0 < base && u1 < base
    ensures t + u0 * bv + u1 * nv < base * (bv + nv)
    ensures 0 <= u1 * nv
  {
    MulMonotone(u0, base - 1, bv);
    MulMonotone(u1, base - 1, nv);
    MulDistrib(base, bv, nv);
  }

  /** One row on the window that starts at T + i: two multiples are added, one limb is divided off. */
  method MontRow(T: array<nat>, i: nat, u0: nat, B: array<nat>, m: nat, N: array<nat>, mm: nat, base: nat)
    returns (ghost u1: nat)
    requires base > 1 && T != B && T != N && 0 < B.Length && 0 < N.Length && m <= B.Length && m <= N.Length
    requires i + N.Length + 3 <= T.Length
    requires IsLimbs(T[..], base) && IsLimbs(B[..], base) && IsLimbs(N[..], base) && u0 < base
    requires Val(B[..m], base) == Val(B[..], base) < Pow(base, N.Length)
    requires Congruent(mm * N[0], -1, base)
    requires Val(T[i..], base) < Val(B[..], base) + Val(N[..], base)
    modifies T
    ensures IsLimbs(T[..], base) && u1 < base
    ensures Val(T[i + 1..], base) * base
         == old(Val(T[i..], base)) + u0 * Val(B[..], base) + u1 * Val(N[..], base)
  {
    var n := N.Length;
    ghost var t, bv, nv := Val(T[i..], base), Val(B[..], base), Val(N[..], base);
    var u := ((T[i] + u0 * B[0]) * mm) % base;
    u1 := u;
    ValBound(N[..], base);
    WindowFits(t, u0, bv, u, nv, n, T.Length - i, base);
    assert T[i..][0] == T[i] && N[..n] == N[..];
    LowLimb(T[i..], base);
    LowLimb(B[..], base);
    LowLimb(N[..], base);
    RowDivides(t, T[i], u0, bv, B[0], nv, N[0], mm, base);
    MulHlp(m, B, T, i, u0, base);
    MulHlp(n, N, T, i, u, base);
    Advance(T, i, n, u0, t + u0 * bv + u * nv, base);
  }

  lemma ExactQuotient(total: nat, low: nat, rest: nat, base: nat)
    requires base > 0 && total % base == 0 && low < base && total == low + base * rest
    ensures low == 0 && rest * base == total
  {
    DivModUnique(total, base, rest, low);
  }

  lemma QuotientSmall(rest: nat, base: nat, n: nat)
    requires base > 0 && rest * base < Pow(base, n + 2)
    ensures rest < Pow(base, n + 1)
  {
    assert Pow(base, n + 2) == base * Pow(base, n + 1);
    if rest >= Pow(base, n + 1) {
      MulMonotone(Pow(base, n + 1), rest, base);
    }
  }

  /** The highest index row i stores to. */
  function HighestStore(i: nat, n: nat): nat { i + 1 + (n + 1) }

  /** Every row stores inside T exactly when T has 2n + 2 limbs; the guard of mpi_montmul asks for
      n + 1 only. */
  lemma ScratchSize(n: nat, len: nat)
    requires n > 0
    ensures (forall i: nat :: i < n ==> HighestStore(i, n) < len) <==> 2 * n + 2 <= len
  {
    assert HighestStore(n - 1, n) == 2 * n + 1;
  }

  /** The window moves up one limb. Its low limb was zero and gets the digit of A instead; the limb
      that enters at its top is cleared. */
  method Advance(T: array<nat>, i: nat, n: nat, u0: nat, ghost total: nat, base: nat)
    requires base > 1 && i + n + 3 <= T.Length && IsLimbs(T[..], base) && u0 < base
    requires Val(T[i..], base) == total && total % base == 0 && total < Pow(base, n + 2)
    modifies T
    ensures IsLimbs(T[..], base)
    ensures Val(T[i + 1..], base) * base == total
  {
    assert T[i..][1..] == T[i + 1..];
    ghost var window := T[i + 1..];
    ExactQuotient(total, T[i], Val(window, base), base);
    QuotientSmall(Val(window, base), base, n);
    SmallHasZeros(window, n + 1, base);
    assert window[n + 1] == T[HighestStore(i, n)];
    T[i] := u0;
    T[HighestStore(i, n)] := 0;
    assert T[i + 1..] == window;
  }

  /** The two numbers montmul needs: A and B are n-limb residues small enough that T ends below
      2N, which one subtraction then reduces. */
  lemma FinalRange(t: nat, a: nat, u: nat, bv: nat, nv: nat, r: nat)
    requires t * r == a * bv + u * nv && u < r && a * bv < nv * r && nv > 0
    ensures t < 2 * nv
  {
    MulMonotone(u + 1, r, nv);
    if t >= 2 * nv {
      MulMonotone(2 * nv, t, r);
    }
  }

  lemma FinalResidue(t: nat, ab: int, u: nat, nv: nat, r: nat, k: nat)
    requires t * r == ab + u * nv
    ensures Congruent((t - k * nv) * r, ab, nv)
  {
    assert (t - k * nv) * r == t * r - (k * r) * nv;
    CongruentBy((t - k * nv) * r, ab, nv, u - k * r);
  }

  /** The n rows of mpi_montmul over a cleared T. The ghost result u collects the u1 digits. */
  method MontRows(A: array<nat>, B: array<nat>, m: nat, N: array<nat>, mm: nat, T: array<nat>, base: nat)
    returns (ghost u: nat)
    requires base > 1 && T != A && T != B && T != N && 0 < B.Length && 0 < N.Length
    requires m <= B.Length && m <= N.Length <= A.Length && 2 * N.Length + 2 <= T.Length
    requires IsLimbs(A[..], base) && IsLimbs(B[..], base) && IsLimbs(N[..], base)
    requires Val(B[..m], base) == Val(B[..], base) < Pow(base, N.Length)
    requires Val(N[..], base) > 0 && Congruent(mm * N[0], -1, base)
    requires forall k :: 0 <= k < T.Length ==> T[k] == 0
    modifies T
    ensures IsLimbs(T[..], base)
    ensures RowsDone(Val(T[N.Length..], base), A[..], N.Length, u, Val(B[..], base), Val(N[..], base), base)
  {
    ghost var bv, nv := Val(B[..], base), Val(N[..], base);
    var n := N.Length;
    u := 0;
    ValZeros(T[0..], base);
    assert A[..][..0] == [];
    for i := 0 to n
      invariant IsLimbs(T[..], base)
      invariant RowsDone(Val(T[i..], base), A[..], i, u, bv, nv, base)
    {
      ghost var t := Val(T[i..], base);
      RowsBound(t, A[..], i, u, bv, nv, base);
      var u0 := A[i];
      ghost var u1 := MontRow(T, i, u0, B, m, N, mm, base);
      RowsNext(t, Val(T[i + 1..], base), A[..], i, u, u1, bv, nv, base);
      u := u + Pow(base, i) * u1;
    }
  }

  /** What mpi_montmul asks of its numbers: n-limb residues whose product stays below N * R. */
  predicate Operands(a: nat, b: nat, nv: nat, r: nat)
  {
    && nv > 0 && a < r && b < r
    && a * b < nv * r
  }

  /** x is the Montgomery product of a and b modulo nv: reduced, and x * R = a * b modulo nv. */
  ghost predicate IsMontProduct(x: nat, a: nat, b: nat, nv: nat, r: nat)
  {
    x < nv && Congruent(x * r, a * b, nv)
  }

  /** Everything up to the copy: the window ends with t, where t * R = a * b + u * N. */
  method MontAccumulate(A: array<nat>, B: array<nat>, N: array<nat>, mm: nat, T: array<nat>, base: nat)
    returns (ghost u: nat)
    requires base > 1 && T != A && T != B && T != N && 0 < B.Length && 0 < N.Length
    requires N.Length + 1 <= A.Length && 2 * N.Length + 2 <= T.Length
    requires IsLimbs(A[..], base) && IsLimbs(B[..], base) && IsLimbs(N[..], base)
    requires Congruent(mm * N[0], -1, base)
    requires Operands(Val(A[..], base), Val(B[..], base), Val(N[..], base), Pow(base, N.Length))
    modifies T
    ensures IsLimbs(T[..], base)
    ensures Val(T[N.Length..], base) < 2 * Val(N[..], base)
    ensures Val(T[N.Length..], base) * Pow(base, N.Length)
         == Val(A[..], base) * Val(B[..], base) + u * Val(N[..], base)
  {
    Clear(T);
    var n := N.Length;
    var m := if B.Length < n then B.Length else n;
    SmallHasZeros(A[..], n, base);
    ValTrim(A[..], n, base);
    ValBound(B[..], base);
    SmallHasZeros(B[..], m, base);
    ValTrim(B[..], m, base);
    assert B[..][..m] == B[..m];
    u := MontRows(A, B, m, N, mm, T, base);
    FinalRange(Val(T[n..], base), Val(A[..], base), u, Val(B[..], base), Val(N[..], base), Pow(base, n));
  }

  /** Copy the window to A and reduce it. */
  method MontFinish(A: array<nat>, N: array<nat>, T: array<nat>, base: nat, ghost ab: nat, ghost u: nat)
    requires base > 1 && T != A && T != N && A != N
    requires N.Length + 1 <= A.Length && 2 * N.Length + 2 <= T.Length
    requires IsLimbs(N[..], base) && IsLimbs(T[..], base)
    requires forall k :: N.Length <= k < A.Length ==> A[k] == 0
    requires Val(T[N.Length..], base) < 2 * Val(N[..], base)
    requires Val(T[N.Length..], base) * Pow(base, N.Length) == ab + u * Val(N[..], base)
    modifies A, T
    ensures IsLimbs(A[..], base) && Val(A[..], base) < Val(N[..], base)
    ensures Congruent(Val(A[..], base) * Pow(base, N.Length), ab, Val(N[..], base))
  {
    ghost var nv, t := Val(N[..], base), Val(T[N.Length..], base);
    ValBound(N[..], base);
    MulMonotone(2, base, Pow(base, N.Length));
    CopyWindow(A, T, N.Length, base);
    ReduceOnce(A, N, T, base);
    FinalResidue(t, ab, u, nv, Pow(base, N.Length), if t >= nv then 1 else 0);
  }

  /** mpi_montmul: A = A * B * R^-1 mod N with R = base^n. B may be A itself. The comparison's
      other branch subtracts the new A from T only to take the same time; it stays inside T. */
  method MontMul(A: array<nat>, B: array<nat>, N: array<nat>, mm: nat, T: array<nat>, base: nat) returns (ret: int)
    requires base > 1 && T != A && T != B && T != N && A != N && 0 < B.Length && 0 < N.Length
    requires N.Length + 1 <= A.Length
    requires T.Length < N.Length + 1 || 2 * N.Length + 2 <= T.Length
    requires IsLimbs(A[..], base) && IsLimbs(B[..], base) && IsLimbs(N[..], base)
    requires Congruent(mm * N[0], -1, base)
    requires Operands(Val(A[..], base), Val(B[..], base), Val(N[..], base), Pow(base, N.Length))
    modifies A, T
    ensures ret == (if T.Length < N.Length + 1 then BAD_INPUT_DATA else 0)
    ensures ret != 0 ==> A[..] == old(A[..])
    ensures IsLimbs(A[..], base)
    ensures ret == 0 ==> IsMontProduct(Val(A[..], base), old(Val(A[..], base)), old(Val(B[..], base)),
                                       Val(N[..], base), Pow(base, N.Length))
  {
    if T.Length < N.Length + 1 {
      return BAD_INPUT_DATA;
    }
    ghost var u := MontAccumulate(A, B, N, mm, T, base);
    SmallHasZeros(A[..], N.Length, base);
    MontFinish(A, N, T, base, Val(A[..], base) * Val(B[..], base), u);
    ret := 0;
  }

  const BAD_INPUT_DATA: int := -4

  /** The window's n + 1 limbs are copied to A. */
  method CopyWindow(A: array<nat>, T: array<nat>, n: nat, base: nat)
    requires base > 0 && A != T && n + 1 <= A.Length && 2 * n + 1 <= T.Length
    requires IsLimbs(T[..], base)
    requires forall k :: n <= k < A.Length ==> A[k] == 0
    requires Val(T[n..], base) < Pow(base, n + 1)
    modifies A
    ensures IsLimbs(A[..], base) && Val(A[..], base) == Val(T[n..], base)
  {
    for k := 0 to n + 1
      invariant forall j :: 0 <= j < k ==> A[j] == T[n + j]
      invariant forall j :: n + 1 <= j < A.Length ==> A[j] == 0
    {
      A[k] := T[n + k];
    }
    SmallHasZeros(T[n..], n + 1, base);
    ValTrim(T[n..], n + 1, base);
    ValTrim(A[..], n + 1, base);
    assert A[..][..n + 1] == T[n..][..n + 1];
  }

  /** The closing comparison of mpi_montmul with both of its subtractions. */
  method ReduceOnce(A: array<nat>, N: array<nat>, T: array<nat>, base: nat)
    requires base > 1 && A != N && T != A && T != N && N.Length <= A.Length && N.Length <= T.Length
    requires IsLimbs(A[..], base) && IsLimbs(N[..], base) && IsLimbs(T[..], base)
    requires Val(A[..], base) == Val(T[N.Length..], base)
    modifies A, T
    ensures IsLimbs(A[..], base)
    ensures old(Val(A[..], base)) >= Val(N[..], base) ==> Val(A[..], base) == old(Val(A[..], base)) - Val(N[..], base)
    ensures old(Val(A[..], base)) < Val(N[..], base) ==> A[..] == old(A[..])
  {
    var n := N.Length;
    assert N[..n] == N[..];
    var c := CmpAbs(A, N, base);
    if c >= 0 {
      SubHlp(n, N, A, base);
    } else {
      DummyFits(A[..], T[..], n, base);
      assert A[..][..n] == A[..n] && T[..][n..] == T[n..];
      SubHlp(n, A, T, base);
    }
  }

  lemma DummyFits(a: seq<nat>, t: seq<nat>, n: nat, base: nat)
    requires base > 0 && n <= |a| && n <= |t|
    requires Val(a, base) == Val(t[n..], base)
    ensures Val(a[..n], base) <= Val(t, base)
  {
    PowPositive(base, n);
    PartSmaller(a, n, base);
    ValSplit(t, n, base);
    MulMonotone(1, Pow(base, n), Val(t[n..], base));
  }

  lemma PartSmaller(a: seq<nat>, n: nat, base: nat)
    requires n <= |a|
    ensures Val(a[..n], base) <= Val(a, base)
  {
    ValSplit(a, n, base);
    MulMonotone(0, Val(a[n..], base), Pow(base, n));
  }

  /** T is cleared. */
  method Clear(T: array<nat>)
    modifies T
    ensures forall k :: 0 <= k < T.Length ==> T[k] == 0
  {
    for k := 0 to T.Length
      invariant forall j :: 0 <= j < k ==> T[j] == 0
    {
      T[k] := 0;
    }
  }
}

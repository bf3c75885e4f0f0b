/** 64-bit arithmetic on pairs of 32-bit words: the macros of jslong.h that assign through their
    result operand, which may be one of the other operands, and its comparisons. */
module JsLong {
  import opened Arith
  import opened Platform

  const W: int := T32
  const HALF: int := 0x8000_0000
  const W64: int := 0x1_0000_0000_0000_0000

  type Word = x: int | 0 <= x < 0x1_0000_0000

  /** A 32-bit word read as signed (JSInt32). */
  function Signed(x: Word): int { if x >= HALF then x - W else x }

  /** Wrap an integer to a word. */
  function Wrap(x: int): Word { x % W }

  /** A 64-bit value passed by value. */
  datatype U64 = U64(hi: Word, lo: Word)
  {
    function Value(): (v: int)
      ensures 0 <= v < W64
    {
      hi * W + lo
    }

    /** The same bits as a two's complement number. */
    function SignedValue(): int { Signed(hi) * W + lo }
  }

  /** x is v modulo 2^64: enough to know it up to a multiple and in range. */
  lemma ModW64(x: int, v: int, k: int)
    requires 0 <= v < W64 && x == k * W64 + v
    ensures x % W64 == v
  {
    DivModUnique(x, W64, k, v);
  }

  lemma WrapIs(x: int, k: int)
    requires 0 <= x - k * W < W
    ensures Wrap(x) == x - k * W
  {
    DivModUnique(x, W, k, x - k * W);
  }

  // ---------------------------------------------------------------- assigning macros

  /** A JSInt64 or JSUint64 variable. */
  class Pair {
    var hi: Word
    var lo: Word

    constructor (hi: Word, lo: Word)
      ensures this.hi == hi && this.lo == lo
    {
      this.hi, this.lo := hi, lo;
    }

    function Get(): U64
      reads this
    {
      U64(hi, lo)
    }

    function Value(): int
      reads this
    {
      Get().Value()
    }
  }

  /** JSLL_ADD( r, a, b): r may be a, b or both. */
  method Add(r: Pair, a: Pair, b: Pair)
    modifies r
    ensures r.Value() == (old(a.Value()) + old(b.Value())) % W64
  {
    AddWords(a.hi, a.lo, b.hi, b.lo);
    var t := Wrap(a.lo + b.lo);
    r.hi := Wrap(a.hi + b.hi + (if t < b.lo then 1 else 0));
    r.lo := t;
  }

  /** The carry between the words, recovered by comparing the low sum with one of its terms. */
  lemma AddWords(ah: Word, al: Word, bh: Word, bl: Word)
    ensures var t := Wrap(al + bl);
            (Wrap(ah + bh + (if t < bl then 1 else 0)) * W + t) == (ah * W + al + (bh * W + bl)) % W64
  {
    var c := if al + bl >= W then 1 else 0;
    var d := if ah + bh + c >= W then 1 else 0;
    WrapIs(al + bl, c);
    WrapIs(ah + bh + c, d);
    ModW64(ah * W + al + (bh * W + bl), Wrap(ah + bh + c) * W + Wrap(al + bl), d);
  }

  /** JSLL_SUB( r, a, b). */
  method Sub(r: Pair, a: Pair, b: Pair)
    modifies r
    ensures r.Value() == (old(a.Value()) - old(b.Value())) % W64
  {
    SubWords(a.hi, a.lo, b.hi, b.lo);
    r.hi := Wrap(a.hi - b.hi - (if a.lo < b.lo then 1 else 0));
    r.lo := Wrap(a.lo - b.lo);
  }

  lemma SubWords(ah: Word, al: Word, bh: Word, bl: Word)
    ensures Wrap(ah - bh - (if al < bl then 1 else 0)) * W + Wrap(al - bl) == (ah * W + al - (bh * W + bl)) % W64
  {
    var c := if al < bl then 1 else 0;
    var d := if ah < bh + c then -1 else 0;
    WrapIs(ah - bh - c, d);
    WrapIs(al - bl, -c);
    ModW64(ah * W + al - (bh * W + bl), Wrap(ah - bh - c) * W + Wrap(al - bl), d);
  }

  /** JSLL_NEG( r, a): the borrow is read back from the low word just stored. */
  method Neg(r: Pair, a: Pair)
    modifies r
    ensures r.Value() == (-old(a.Value())) % W64
  {
    NegWords(a.hi, a.lo);
    r.lo := Wrap(-Signed(a.lo));
    r.hi := Wrap(-Signed(a.hi) - (if r.lo != 0 then 1 else 0));
  }

  lemma NegWords(ah: Word, al: Word)
    ensures var t := Wrap(-Signed(al));
            Wrap(-Signed(ah) - (if t != 0 then 1 else 0)) * W + t == (-(ah * W + al)) % W64
  {
    var c := if al != 0 then 1 else 0;
    var d := if ah + c > 0 then -1 else 0;
    WrapIs(-Signed(al), -c + (if al >= HALF then 1 else 0));
    WrapIs(-Signed(ah) - c, d + (if ah >= HALF then 1 else 0));
    ModW64(-(ah * W + al), Wrap(-Signed(ah) - c) * W + Wrap(-Signed(al)), d);
  }

  /** (a+b)-b = a, with the sum kept in a itself. */
  method AddThenSub(a: Pair, b: Pair)
    requires a != b
    modifies a
    ensures a.Value() == old(a.Value()) && b.Value() == old(b.Value())
  {
    ghost var x, y := a.Value(), b.Value();
    Add(a, a, b);
    ghost var s := a.Value();
    Sub(a, a, b);
    DivModFacts(x + y, W64);
    ModW64(s - y, x, -((x + y) / W64));
  }

  /** a + NEG(a) = 0, negating into a separate variable. */
  method AddNegated(a: Pair, t: Pair)
    requires a != t
    modifies a, t
    ensures a.Value() == 0
  {
    ghost var x := a.Value();
    Neg(t, a);
    DivModFacts(-x, W64);
    Add(a, a, t);
    ModW64(x + (-x) % W64, 0, -((-x) / W64));
  }

  /** SUB is ADD of NEG. */
  lemma SubIsAddOfNeg(x: int, y: int)
    ensures (x - y) % W64 == (x + (-y) % W64) % W64
  {
    DivModFacts(-y, W64);
    ModOfMultiple(x + (-y) % W64, (-y) / W64, W64);
  }

  // ---------------------------------------------------------------- conversions and ISHL

  /** JSLL_I2L: the arithmetic shift by 31 fills the high word with the sign. */
  method I2L(l: Pair, i: int)
    requires -HALF <= i < HALF
    modifies l
    ensures l.Value() == i % W64
  {
    l.lo := Wrap(i);
    l.hi := Wrap(i / HALF);
    WrapIs(i, if i < 0 then -1 else 0);
    ModW64(i, l.Value(), if i < 0 then -1 else 0);
  }

  /** JSLL_UI2L. */
  method UI2L(l: Pair, ui: Word)
    modifies l
    ensures l.Value() == ui
  {
    l.lo := ui;
    l.hi := 0;
  }

  /** The pair JSLL_ISHL stores: << multiplies and wraps, >> divides towards minus infinity. */
  function Ishl(a: int, b: nat): U64
    requires b <= 64
  {
    if b != 0 then
      if b < 32 then U64(Wrap(a / Pow2(32 - b)), Wrap(a * Pow2(b % 32)))
      else U64(Wrap(a * Pow2(b % 32)), 0)
    else U64(0, Wrap(a))
  }

  method ISHL(r: Pair, a: int, b: nat)
    requires -HALF <= a < HALF && b <= 64
    modifies r
    ensures r.Get() == Ishl(a, b)
    ensures r.Value() == (a * Pow2(b)) % W64 <==> !(b == 0 && a < 0) && !(b == 64 && a != 0)
  {
    IshlExact(a, b);
    if b != 0 {
      if b < 32 {
        r.lo := Wrap(a * Pow2(b % 32));
        r.hi := Wrap(a / Pow2(32 - b));
      } else {
        r.lo := 0;
        r.hi := Wrap(a * Pow2(b % 32));
      }
    } else {
      r.lo := Wrap(a);
      r.hi := 0;
    }
  }

  lemma WordPowers()
    ensures Pow2(31) == HALF && Pow2(32) == W && Pow2(64) == W64
  {
    assert Pow2(4) == 16;
    Doubling(4, 16);
    Doubling(8, 256);
    Doubling(16, 65536);
    Doubling(32, 0x1_0000_0000);
    assert Pow2(32) == 2 * Pow2(31);
  }

  lemma Doubling(k: nat, p: nat)
    requires Pow2(k) == p
    ensures Pow2(2 * k) == p * p
  {
    PowAdd(2, k, k);
  }

  /** A shift below 32 splits the product between the words. */
  lemma IshlLow(a: int, b: nat)
    requires -HALF <= a < HALF && 0 < b < 32
    ensures Ishl(a, b).Value() == (a * Pow2(b)) % W64
  {
    WordPowers();
    PowAdd(2, b, 32 - b);
    assert b % 32 == b;
    IshlSplit(a, Pow2(b), Pow2(32 - b));
  }

  lemma IshlSplit(a: int, p: nat, s: nat)
    requires -HALF <= a < HALF && p > 0 && s > 0 && p * s == W
    ensures U64(Wrap(a / s), Wrap(a * p)).Value() == (a * p) % W64
  {
    DivModFacts(a, s);
    LowWord(a, p, s, a / s, a % s);
    HighRange(a, s);
    JoinedWords(a * p, a / s, Wrap(a * p));
  }

  /** A signed high part q and a low word m make the product modulo 2^64. */
  lemma JoinedWords(x: int, q: int, m: Word)
    requires x == q * W + m && -HALF <= q < HALF
    ensures U64(Wrap(q), m).Value() == x % W64
  {
    var k := if q < 0 then -1 else 0;
    WrapIs(q, k);
    ModW64(x, U64(Wrap(q), m).Value(), k);
  }

  lemma LowWord(a: int, p: nat, s: nat, q: int, m: int)
    requires p > 0 && p * s == W && a == q * s + m && 0 <= m < s
    ensures a * p == q * W + m * p && 0 <= m * p < W && Wrap(a * p) == m * p
  {
    assert (q * s) * p == q * (p * s);
    MulMonotone(m + 1, s, p);
    DivModUnique(a * p, W, q, m * p);
  }

  lemma HighRange(a: int, s: nat)
    requires -HALF <= a < HALF && s >= 1
    ensures -HALF <= a / s < HALF
  {
    DivModFacts(a, s);
    if a / s >= HALF {
      MulMonotone(HALF, a / s, s);
      MulMonotone(1, s, HALF);
    }
    if a / s < -HALF {
      MulMonotone(a / s, -HALF - 1, s);
      MulMonotone(1, s, HALF + 1);
    }
  }

  /** A shift of 32 to 63 leaves the low word empty. */
  lemma IshlHigh(a: int, b: nat)
    requires 32 <= b < 64
    ensures Ishl(a, b).Value() == (a * Pow2(b)) % W64
  {
    WordPowers();
    var p := Pow2(b - 32);
    assert b % 32 == b - 32;
    PowAdd(2, b - 32, 32);
    MulAssoc(a, p, W);
    DivModFacts(a * p, W);
    ModW64(a * Pow2(b), Wrap(a * p) * W, (a * p) / W);
  }

  /** JSLL_ISHL over its documented range [0..64]: it is a * 2^b modulo 2^64 except that b = 0
      loses the sign of a negative a, and b = 64 shifts by 32 only. */
  lemma IshlExact(a: int, b: nat)
    requires -HALF <= a < HALF && b <= 64
    ensures Ishl(a, b).Value() == (a * Pow2(b)) % W64 <==> !(b == 0 && a < 0) && !(b == 64 && a != 0)
  {
    WordPowers();
    if b == 0 {
      assert Pow2(0) == 1 && a * Pow2(0) == a;
      if a < 0 {
        ModW64(a, a + W64, -1);
        WrapIs(a, -1);
      } else {
        ModW64(a, a, 0);
        WrapIs(a, 0);
      }
    } else if b < 32 {
      IshlLow(a, b);
    } else if b < 64 {
      IshlHigh(a, b);
    } else {
      ModW64(a * W64, 0, a);
      assert b % 32 == 0 && Pow2(0) == 1;
      WrapIs(a, if a < 0 then -1 else 0);
    }
  }

  // ---------------------------------------------------------------- comparisons

  datatype Op = Lt | Gt | Le | Ge | Eq | Ne
  {
    predicate Holds(x: int, y: int)
    {
      match this
      case Lt => x < y
      case Gt => x > y
      case Le => x <= y
      case Ge => x >= y
      case Eq => x == y
      case Ne => x != y
    }

    /** The operator's second character is an equals sign, which the debug build asserts against. */
    predicate HasEquals() { !Lt? && !Gt? }
  }

  /** JSLL_REAL_CMP and JSLL_REAL_UCMP. */
  predicate RealCmp(a: U64, op: Op, b: U64)
  {
    op.Holds(Signed(a.hi), Signed(b.hi)) || (a.hi == b.hi && op.Holds(a.lo, b.lo))
  }

  predicate RealUcmp(a: U64, op: Op, b: U64)
  {
    op.Holds(a.hi, b.hi) || (a.hi == b.hi && op.Holds(a.lo, b.lo))
  }

  /** The word-wise comparison agrees with the 64-bit one except when the operator accepts equal
      high words although the low words do not satisfy it. */
  predicate Misjudged(a: U64, op: Op, b: U64)
  {
    op.Holds(0, 0) && a.hi == b.hi && !op.Holds(a.lo, b.lo)
  }

  lemma CmpExact(a: U64, op: Op, b: U64)
    ensures (RealCmp(a, op, b) <==> op.Holds(a.SignedValue(), b.SignedValue())) <==> !Misjudged(a, op, b)
    ensures (RealUcmp(a, op, b) <==> op.Holds(a.Value(), b.Value())) <==> !Misjudged(a, op, b)
  {
  }

  /** What the debug assertion lets through is always right; of what it stops, only != is. */
  lemma AssertionIsSufficient(a: U64, op: Op, b: U64)
    requires !op.HasEquals() || op.Ne?
    ensures RealCmp(a, op, b) <==> op.Holds(a.SignedValue(), b.SignedValue())
    ensures RealUcmp(a, op, b) <==> op.Holds(a.Value(), b.Value())
  {
    CmpExact(a, op, b);
  }

  lemma LessEqualMisjudges()
    ensures RealCmp(U64(0, 1), Le, U64(0, 0)) && RealUcmp(U64(0, 1), Le, U64(0, 0))
    ensures !(U64(0, 1).SignedValue() <= U64(0, 0).SignedValue())
  {
  }

  /** The strict order, signed and unsigned, is total and transitive. */
  lemma StrictOrder(a: U64, b: U64, c: U64)
    ensures RealCmp(a, Lt, b) || RealCmp(b, Lt, a) || a == b
    ensures !(RealCmp(a, Lt, b) && RealCmp(b, Lt, a))
    ensures RealCmp(a, Lt, b) && RealCmp(b, Lt, c) ==> RealCmp(a, Lt, c)
    ensures RealCmp(a, Gt, b) <==> RealCmp(b, Lt, a)
    ensures RealUcmp(a, Lt, b) || RealUcmp(b, Lt, a) || a == b
    ensures !(RealUcmp(a, Lt, b) && RealUcmp(b, Lt, a))
    ensures RealUcmp(a, Lt, b) && RealUcmp(b, Lt, c) ==> RealUcmp(a, Lt, c)
    ensures RealUcmp(a, Gt, b) <==> RealUcmp(b, Lt, a)
  {
    CmpExact(a, Lt, b);
    CmpExact(b, Lt, a);
    CmpExact(b, Lt, c);
    CmpExact(a, Lt, c);
    CmpExact(a, Gt, b);
  }
}

/** Bitwise operators on natural numbers, and what they mean for masks and shifts. */
module Bits {
  import opened Arith

  function And(a: nat, b: nat): nat
  {
    if a == 0 || b == 0 then 0 else (if a % 2 == 1 && b % 2 == 1 then 1 else 0) + 2 * And(a / 2, b / 2)
  }

  function Or(a: nat, b: nat): nat
  {
    if a == 0 then b else if b == 0 then a
    else (if a % 2 == 1 || b % 2 == 1 then 1 else 0) + 2 * Or(a / 2, b / 2)
  }

  predicate IsPow2(n: nat)
  {
    n == 1 || (n > 1 && n % 2 == 0 && IsPow2(n / 2))
  }

  lemma {:induction false} Pow2IsPow2(k: nat)
    ensures IsPow2(Pow2(k))
  {
    if k > 0 {
      Pow2IsPow2(k - 1);
      assert Pow2(k) == 2 * Pow2(k - 1);
    }
  }

  lemma {:induction false} IsPow2Exponent(n: nat) returns (k: nat)
    requires IsPow2(n)
    ensures n == Pow2(k)
  {
    if n == 1 {
      k := 0;
    } else {
      k := IsPow2Exponent(n / 2);
      k := k + 1;
    }
  }

  /** x mod 2p from the last bit and the rest. */
  lemma ModDoubled(x: nat, p: nat)
    requires p > 0
    ensures x % (2 * p) == x % 2 + 2 * ((x / 2) % p)
  {
    var y := x / 2;
    DivModFacts(x, 2);
    DivModFacts(y, p);
    assert x == (y / p) * (2 * p) + (x % 2 + 2 * (y % p));
    DivModUnique(x, 2 * p, y / p, x % 2 + 2 * (y % p));
  }

  /** And of the last bits and the rest, without the zero cases. */
  lemma AndUnfold(a: nat, b: nat)
    ensures And(a, b) == (if a % 2 == 1 && b % 2 == 1 then 1 else 0) + 2 * And(a / 2, b / 2)
  {
  }

  /** x & (2^k - 1) is x modulo 2^k. */
  lemma {:induction false} AndMask(x: nat, size: nat)
    requires IsPow2(size)
    ensures And(x, size - 1) == x % size
  {
    if size > 1 {
      var half := size / 2;
      assert size == 2 * half;
      AndMask(x / 2, half);
      AndUnfold(x, size - 1);
      assert (size - 1) / 2 == half - 1 && (size - 1) % 2 == 1;
      ModDoubled(x, half);
    }
  }

  lemma {:induction false} AndSelf(x: nat)
    ensures And(x, x) == x
  {
    if x > 0 {
      AndSelf(x / 2);
      AndUnfold(x, x);
    }
  }

  /** datasize & (datasize + 1) is zero exactly for powers of two minus one. */
  lemma {:induction false} AndSuccessor(x: nat)
    ensures And(x, x + 1) == 0 <==> IsPow2(x + 1)
  {
    if x > 0 {
      if x % 2 == 1 {
        AndSuccessor(x / 2);
        assert (x + 1) / 2 == x / 2 + 1;
      } else {
        AndSelf(x / 2);
        assert (x + 1) / 2 == x / 2;
      }
    }
  }

  /** Or of bits that do not overlap is their sum. */
  lemma {:induction false} OrDisjoint(hi: nat, k: nat, lo: nat)
    requires lo < Pow2(k)
    ensures Or(hi * Pow2(k), lo) == hi * Pow2(k) + lo
  {
    if k == 0 {
      assert Pow2(0) == 1;
    } else {
      var p := Pow2(k - 1);
      assert Pow2(k) == 2 * p && hi * Pow2(k) == 2 * (hi * p);
      if hi * Pow2(k) != 0 && lo != 0 {
        OrDisjoint(hi, k - 1, lo / 2);
        assert (hi * Pow2(k)) % 2 == 0 && (hi * Pow2(k)) / 2 == hi * p;
      }
    }
  }
}

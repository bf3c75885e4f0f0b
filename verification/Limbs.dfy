/** Little-endian limb vectors in an arbitrary base, as struct mbedtls_mpi stores magnitudes. */
module Limbs {
  import opened Arith

  /** The number a limb vector denotes, least significant limb first. */
  function Val(s: seq<nat>, base: nat): nat
  {
    if s == [] then 0 else s[0] + base * Val(s[1..], base)
  }

  predicate IsLimbs(s: seq<nat>, base: nat)
  {
    forall i :: 0 <= i < |s| ==> s[i] < base
  }

  lemma {:induction false} ValAppend(s: seq<nat>, t: seq<nat>, base: nat)
    ensures Val(s + t, base) == Val(s, base) + Pow(base, |s|) * Val(t, base)
  {
    if s == [] {
      assert s + t == t;
    } else {
      assert (s + t)[1..] == s[1..] + t;
      ValAppend(s[1..], t, base);
      OneLimbMore(s[0], base, Val(s[1..], base), Pow(base, |s| - 1), Val(t, base));
    }
  }

  lemma OneLimbMore(x: nat, base: nat, low: nat, p: nat, high: nat)
    ensures x + base * (low + p * high) == (x + base * low) + (base * p) * high
  {
    MulDistrib(base, low, p * high);
    MulAssoc(base, p, high);
  }

  lemma ValSplit(s: seq<nat>, k: nat, base: nat)
    requires k <= |s|
    ensures Val(s, base) == Val(s[..k], base) + Pow(base, k) * Val(s[k..], base)
  {
    assert s == s[..k] + s[k..];
    ValAppend(s[..k], s[k..], base);
  }

  lemma ValOne(x: nat, base: nat)
    ensures Val([x], base) == x
  {
    assert [x][1..] == [];
  }

  lemma ValSnoc(s: seq<nat>, x: nat, base: nat)
    ensures Val(s + [x], base) == Val(s, base) + Pow(base, |s|) * x
  {
    ValAppend(s, [x], base);
    ValOne(x, base);
  }

  lemma ValPrefixNext(s: seq<nat>, k: nat, base: nat)
    requires k < |s|
    ensures Val(s[..k + 1], base) == Val(s[..k], base) + Pow(base, k) * s[k]
  {
    assert s[..k + 1] == s[..k] + [s[k]];
    ValSnoc(s[..k], s[k], base);
  }

  lemma {:induction false} ValBound(s: seq<nat>, base: nat)
    requires IsLimbs(s, base)
    ensures Val(s, base) < Pow(base, |s|)
  {
    if s != [] {
      ValBound(s[1..], base);
      MulMonotone(Val(s[1..], base), Pow(base, |s| - 1) - 1, base);
      MulDistrib(base, Pow(base, |s| - 1), -1);
      assert s[0] < base;
    }
  }

  lemma {:induction false} ValZeros(s: seq<nat>, base: nat)
    requires forall i :: 0 <= i < |s| ==> s[i] == 0
    ensures Val(s, base) == 0
  {
    if s != [] {
      ValZeros(s[1..], base);
    }
  }

  /** Storing one limb changes the number by the change of that limb, weighted by its place. */
  lemma ValUpdate(s: seq<nat>, k: nat, x: nat, base: nat)
    requires k < |s|
    ensures Val(s[k := x], base) == Val(s, base) + Pow(base, k) * x - Pow(base, k) * s[k]
  {
    var t := s[k := x];
    ValSplit(s, k, base);
    ValSplit(t, k, base);
    assert t[..k] == s[..k];
    var hi := Val(s[k + 1..], base);
    assert s[k..][1..] == s[k + 1..];
    assert t[k..][1..] == s[k + 1..];
    MulDistrib(Pow(base, k), x, base * hi);
    MulDistrib(Pow(base, k), s[k], base * hi);
  }

  /** Leading zero limbs do not count. */
  lemma ValTrim(s: seq<nat>, k: nat, base: nat)
    requires k <= |s|
    requires forall i :: k <= i < |s| ==> s[i] == 0
    ensures Val(s, base) == Val(s[..k], base)
  {
    ValSplit(s, k, base);
    ValZeros(s[k..], base);
  }

  /** Vectors of equal length order like their numbers: the top differing limb decides. */
  lemma ValLess(s: seq<nat>, t: seq<nat>, k: nat, base: nat)
    requires |s| == |t| && k < |s|
    requires IsLimbs(s, base) && IsLimbs(t, base)
    requires s[k + 1..] == t[k + 1..] && s[k] < t[k]
    ensures Val(s, base) < Val(t, base)
  {
    var p := Pow(base, k);
    ValSplit(s, k + 1, base);
    ValSplit(t, k + 1, base);
    ValPrefixNext(s, k, base);
    ValPrefixNext(t, k, base);
    ValBound(s[..k], base);
    MulMonotone(s[k] + 1, t[k], p);
    MulDistrib(p, s[k], 1);
  }

  /** A bound on a product of two bounded numbers. */
  lemma ProductBound(x: nat, y: nat, p: nat, q: nat)
    requires x < p && y < q
    ensures x * y < p * q
  {
    MulMonotone(x, p - 1, y);
    MulMonotone(y, q - 1, p - 1);
    MulDistrib(p, q, -1);
    assert (p - 1) * (q - 1) == p * q - p - q + 1;
  }
}

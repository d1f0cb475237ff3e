/** Numbers as digits in a base, most significant first, and what leading zeros add. */
module Numerals {
  import opened Arith

  predicate AreDigits(base: nat, ds: seq<nat>) {
    forall i :: 0 <= i < |ds| ==> ds[i] < base
  }

  function Value(base: nat, ds: seq<nat>): nat {
    if ds == [] then 0 else Value(base, ds[..|ds| - 1]) * base + ds[|ds| - 1]
  }

  /** The digits of a number, without leading zeros. */
  function Minimal(base: nat, n: nat): (ds: seq<nat>)
    requires base >= 2
    ensures AreDigits(base, ds) && (n == 0 ==> ds == []) && (n > 0 ==> ds != [] && ds[0] > 0)
    decreases n
  {
    if n == 0 then []
    else
      assert n / base < n by { DivMod(n, base); }
      Minimal(base, n / base) + [n % base]
  }

  lemma DivMod(n: nat, base: nat)
    requires base >= 2
    ensures 0 <= n / base && n == n / base * base + n % base && 0 <= n % base < base
    ensures n > 0 ==> n / base < n
  {
    if n > 0 && n / base >= n {
      MulMono(2, base, n / base);
    }
  }

  lemma {:induction false} ValueOfMinimal(base: nat, n: nat)
    requires base >= 2
    ensures Value(base, Minimal(base, n)) == n
    decreases n
  {
    if n > 0 {
      DivMod(n, base);
      ValueOfMinimal(base, n / base);
      var ds := Minimal(base, n);
      assert ds[..|ds| - 1] == Minimal(base, n / base);
    }
  }

  lemma {:induction false} ValueOfCanonicalIsPositive(base: nat, ds: seq<nat>)
    requires base >= 2 && ds != [] && ds[0] > 0
    ensures Value(base, ds) > 0
  {
    if |ds| > 1 {
      ValueOfCanonicalIsPositive(base, ds[..|ds| - 1]);
      MulMono(1, Value(base, ds[..|ds| - 1]), base);
    }
  }

  /** Digits without a leading zero are the only such digits of their value. */
  lemma {:induction false} MinimalOfValue(base: nat, ds: seq<nat>)
    requires base >= 2 && AreDigits(base, ds) && (ds != [] ==> ds[0] > 0)
    ensures Minimal(base, Value(base, ds)) == ds
  {
    if ds != [] {
      ValueOfCanonicalIsPositive(base, ds);
      MinimalOfValue(base, ds[..|ds| - 1]);
      DivModUnique(Value(base, ds), base, Value(base, ds[..|ds| - 1]), ds[|ds| - 1]);
    }
  }

  lemma {:induction false} ValueCons(base: nat, d: nat, ds: seq<nat>)
    ensures Value(base, [d] + ds) == d * Pow(base, |ds|) + Value(base, ds)
  {
    var all := [d] + ds;
    if ds == [] {
      assert all[..0] == [];
    } else {
      var n := |ds|;
      assert all[..n] == [d] + ds[..n - 1] && all[n] == ds[n - 1];
      ValueCons(base, d, ds[..n - 1]);
      Distribute(d, Pow(base, n - 1), Value(base, ds[..n - 1]), base);
    }
  }

  lemma Distribute(d: nat, p: nat, v: nat, base: nat)
    ensures (d * p + v) * base == d * (base * p) + v * base
  {
    assert (d * p) * base == d * (base * p);
  }

  lemma {:induction false} ValueBound(base: nat, ds: seq<nat>)
    requires base >= 2 && AreDigits(base, ds)
    ensures Value(base, ds) < Pow(base, |ds|)
  {
    if ds != [] {
      var n := |ds|;
      ValueBound(base, ds[..n - 1]);
      MulMono(Value(base, ds[..n - 1]) + 1, Pow(base, n - 1), base);
      assert (Value(base, ds[..n - 1]) + 1) * base == Value(base, ds[..n - 1]) * base + base;
    }
  }

  // Leading zeros

  function LeadingZeros(ds: seq<nat>): (z: nat)
    ensures z <= |ds|
    ensures forall i :: 0 <= i < z ==> ds[i] == 0
    ensures z < |ds| ==> ds[z] > 0
  {
    if ds == [] || ds[0] != 0 then 0 else 1 + LeadingZeros(ds[1..])
  }

  function Zeros(z: nat): (r: seq<nat>)
    ensures |r| == z && forall i :: 0 <= i < z ==> r[i] == 0
  {
    seq(z, _ => 0)
  }

  lemma {:induction false} LeadingZerosOf(z: nat, ds: seq<nat>)
    requires ds != [] ==> ds[0] > 0
    ensures LeadingZeros(Zeros(z) + ds) == z
  {
    if z > 0 {
      assert (Zeros(z) + ds)[1..] == Zeros(z - 1) + ds;
      LeadingZerosOf(z - 1, ds);
    } else {
      assert Zeros(0) + ds == ds;
    }
  }

  lemma {:induction false} ZerosAddNothing(base: nat, z: nat, ds: seq<nat>)
    ensures Value(base, Zeros(z) + ds) == Value(base, ds)
  {
    if z > 0 {
      ZerosAddNothing(base, z - 1, ds);
      assert Zeros(z) + ds == [0] + (Zeros(z - 1) + ds);
      ValueCons(base, 0, Zeros(z - 1) + ds);
    } else {
      assert Zeros(0) + ds == ds;
    }
  }

  /** The same number in another base, with as many leading zeros as before. */
  function Rebase(from: nat, to: nat, ds: seq<nat>): (r: seq<nat>)
    requires from >= 2 && to >= 2
    ensures AreDigits(to, r)
  {
    Zeros(LeadingZeros(ds)) + Minimal(to, Value(from, ds))
  }

  lemma RebaseInverts(from: nat, to: nat, ds: seq<nat>)
    requires from >= 2 && to >= 2 && AreDigits(from, ds)
    ensures Rebase(to, from, Rebase(from, to, ds)) == ds
  {
    var z := LeadingZeros(ds);
    var rest := ds[z..];
    assert ds == Zeros(z) + rest;
    ZerosAddNothing(from, z, rest);
    var n := Value(from, ds);
    LeadingZerosOf(z, Minimal(to, n));
    ZerosAddNothing(to, z, Minimal(to, n));
    ValueOfMinimal(to, n);
    MinimalOfValue(from, rest);
  }

  /** The digits of one number after another's count that many places up. */
  lemma {:induction false} ValueAppend(base: nat, xs: seq<nat>, ys: seq<nat>)
    ensures Value(base, xs + ys) == Value(base, xs) * Pow(base, |ys|) + Value(base, ys)
  {
    if ys == [] {
      assert xs + ys == xs;
    } else {
      var n := |ys| - 1;
      assert (xs + ys)[..|xs + ys| - 1] == xs + ys[..n];
      ValueAppend(base, xs, ys[..n]);
      Distribute(Value(base, xs), Pow(base, n), Value(base, ys[..n]), base);
    }
  }
}

/** Powers, uniqueness of quotient and remainder, and the bit operators of the source. */
module Arith {

  /** The largest 64-bit counter. */
  const U64_MAX: int := 0xffff_ffff_ffff_ffff

  function Pow(b: nat, n: nat): (p: nat)
    ensures b > 0 ==> p > 0
  {
    if n == 0 then 1 else b * Pow(b, n - 1)
  }

  function Pow2(n: nat): (p: nat)
    ensures p > 0
  {
    Pow(2, n)
  }

  lemma MulAssoc(a: int, b: int, c: int)
    ensures a * (b * c) == (a * b) * c
  {
  }

  lemma {:induction false} PowAdd(b: nat, m: nat, n: nat)
    ensures Pow(b, m + n) == Pow(b, m) * Pow(b, n)
  {
    if m > 0 {
      PowAdd(b, m - 1, n);
      MulAssoc(b, Pow(b, m - 1), Pow(b, n));
    }
  }

  lemma {:induction false} Pow2Mono(m: nat, n: nat)
    requires m <= n
    ensures Pow2(m) <= Pow2(n)
  {
    if m < n { Pow2Mono(m, n - 1); }
  }

  /** The powers the wire formats and the tree heights name. */
  lemma PowConstants()
    ensures Pow2(4) == 16 && Pow2(8) == 256 && Pow2(16) == 65536
    ensures Pow(256, 1) == 256 && Pow(256, 2) == 65536
    ensures Pow(256, 4) == 0x1_0000_0000 && Pow(256, 8) == 0x1_0000_0000_0000_0000
  {
    assert Pow2(4) == 16;
    PowAdd(2, 4, 4);
    PowAdd(2, 8, 8);
    assert Pow(256, 1) == 256;
    PowAdd(256, 1, 1);
    PowAdd(256, 2, 2);
    PowAdd(256, 4, 4);
  }

  lemma DivModUnique(a: int, d: int, q: int, r: int)
    requires d > 0 && 0 <= r < d && a == q * d + r
    ensures a / d == q && a % d == r
  {
    var q', r' := a / d, a % d;
    assert a == q' * d + r';
    assert (q - q') * d == r' - r;
    if q > q' {
      assert (q - q') * d >= d by { MulMono(1, q - q', d); }
    } else if q < q' {
      assert (q' - q) * d >= d by { MulMono(1, q' - q, d); }
    }
  }

  lemma MulMono(x: int, y: int, d: int)
    requires x <= y && d >= 0
    ensures x * d <= y * d
  {
  }

  /** Peeling the low bit off a remainder and a quotient by an even modulus. */
  lemma DivModDouble(a: nat, p: nat)
    requires p > 0
    ensures a % (2 * p) == 2 * ((a / 2) % p) + a % 2
    ensures a / (2 * p) == (a / 2) / p
  {
    var q, r := (a / 2) / p, (a / 2) % p;
    assert a == q * (2 * p) + (2 * r + a % 2) by {
      assert a / 2 == q * p + r;
      assert a == 2 * (q * p + r) + a % 2;
      assert 2 * (q * p) == q * (2 * p);
    }
    DivModUnique(a, 2 * p, q, 2 * r + a % 2);
  }

  lemma DivDiv(a: nat, p: nat, q: nat)
    requires p > 0 && q > 0
    ensures p * q > 0 && (a / p) / q == a / (p * q)
  {
    var b := a / p;
    var r := b % q * p + a % p;
    assert a == b * p + a % p;
    assert b == (b / q) * q + b % q;
    assert b * p == (b / q) * (p * q) + b % q * p by {
      assert ((b / q) * q) * p == (b / q) * (p * q);
    }
    assert r < p * q by {
      MulMono(b % q, q - 1, p);
      assert (q - 1) * p == q * p - p;
    }
    DivModUnique(a, p * q, b / q, r);
  }

  /** Adding a multiple of the modulus leaves the remainder. */
  lemma ModIgnoresMultiple(low: nat, rest: nat, k: nat, c: nat)
    requires c > 0
    ensures (low + (k * c) * rest) % c == low % c
  {
    var q, r := low / c, low % c;
    assert (k * c) * rest == (k * rest) * c;
    assert (q + k * rest) * c == q * c + (k * rest) * c;
    DivModUnique(low + (k * c) * rest, c, q + k * rest, r);
  }

  // Bit operators, by their binary digits

  function And(a: nat, b: nat): nat {
    if a == 0 || b == 0 then 0
    else 2 * And(a / 2, b / 2) + (if a % 2 == 1 && b % 2 == 1 then 1 else 0)
  }

  function Or(a: nat, b: nat): nat {
    if a == 0 then b else if b == 0 then a
    else 2 * Or(a / 2, b / 2) + (if a % 2 == 1 || b % 2 == 1 then 1 else 0)
  }

  function Xor(a: nat, b: nat): nat {
    if a == 0 then b else if b == 0 then a
    else 2 * Xor(a / 2, b / 2) + (if a % 2 != b % 2 then 1 else 0)
  }

  function Shl(a: nat, n: nat): nat {
    a * Pow2(n)
  }

  function Shr(a: nat, n: nat): nat {
    a / Pow2(n)
  }

  lemma {:induction false} AndMask(a: nat, n: nat)
    ensures And(a, Pow2(n) - 1) == a % Pow2(n)
  {
    if n > 0 && a > 0 {
      AndMask(a / 2, n - 1);
      DivModDouble(a, Pow2(n - 1));
      assert (Pow2(n) - 1) / 2 == Pow2(n - 1) - 1 && (Pow2(n) - 1) % 2 == 1;
      if n == 1 {
        assert And(a / 2, 0) == 0;
      }
    } else if n == 0 {
      assert a % 1 == 0;
    } else {
      DivModUnique(0, Pow2(n), 0, 0);
    }
  }

  lemma {:induction false} OrDisjoint(a: nat, n: nat, v: nat)
    requires v < Pow2(n)
    ensures Or(Shl(a, n), v) == Shl(a, n) + v
  {
    if n > 0 && a > 0 {
      OrDisjoint(a, n - 1, v / 2);
      assert Shl(a, n) == 2 * Shl(a, n - 1);
      assert Shl(a, n - 1) > 0;
    }
  }

  lemma {:induction false} OrZero(a: nat, b: nat)
    ensures Or(a, b) == 0 <==> a == 0 && b == 0
  {
    if a > 0 && b > 0 { OrZero(a / 2, b / 2); }
  }

  lemma {:induction false} XorZero(a: nat, b: nat)
    ensures Xor(a, b) == 0 <==> a == b
  {
    if a > 0 && b > 0 { XorZero(a / 2, b / 2); }
  }
}

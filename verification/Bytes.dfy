/** Byte strings: comparison, concatenation and the little-endian words of ts/src/bytes.ts. */
module Bytes {
  import opened Wrappers
  import opened Arith

  type byte = x: int | 0 <= x < 256
  type Bytes = seq<byte>
  type Digest = d: Bytes | |d| == 32 witness seq(32, _ => 0)

  const TWO16: int := 0x1_0000
  const TWO63: int := 0x8000_0000_0000_0000
  const TWO64: int := 0x1_0000_0000_0000_0000

  /** Every failure name of ts/src/errors.ts that the modelled code throws, and JavaScript's RangeError. */
  datatype Failure =
    | HeadMismatch | SequenceOutOfOrder | MalformedPayload | AttestationMissing | AttestationInvalid
    | AttestationKeyMismatch | NonMonotonicEffectiveAt | DomainTagMismatch | RecordTooLarge
    | UnsupportedSchemaVersion | ArithmeticOverflow | CanonicalizationFailed | EpochCapacityExceeded
    | InclusionProofInvalid | SubmissionNotInEpoch
    | MalformedPackage | JsonBorshMismatch | RootEpochMismatch
    | RangeError

  // Concatenation

  function Flatten(parts: seq<Bytes>): Bytes {
    if parts == [] then [] else parts[0] + Flatten(parts[1..])
  }

  lemma {:induction false} FlattenSnoc(parts: seq<Bytes>, p: Bytes)
    ensures Flatten(parts + [p]) == Flatten(parts) + p
  {
    if parts == [] {
      assert Flatten([p]) == p + Flatten([]);
    } else {
      assert (parts + [p])[1..] == parts[1..] + [p];
      FlattenSnoc(parts[1..], p);
    }
  }

  method Concat(parts: seq<Bytes>) returns (r: Bytes)
    ensures r == Flatten(parts)
  {
    var n := 0;
    for i := 0 to |parts|
      invariant n == |Flatten(parts[..i])|
    {
      assert parts[..i + 1] == parts[..i] + [parts[i]];
      FlattenSnoc(parts[..i], parts[i]);
      n := n + |parts[i]|;
    }
    assert parts[..|parts|] == parts;
    var out := new byte[n];
    var o := 0;
    for i := 0 to |parts|
      invariant o == |Flatten(parts[..i])| <= n
      invariant out[..o] == Flatten(parts[..i])
    {
      assert parts[..i + 1] == parts[..i] + [parts[i]];
      FlattenSnoc(parts[..i], parts[i]);
      FlattenPrefix(parts, i + 1);
      forall k | 0 <= k < |parts[i]| { out[o + k] := parts[i][k]; }
      assert out[..o + |parts[i]|] == out[..o] + parts[i];
      o := o + |parts[i]|;
    }
    assert parts[..|parts|] == parts;
    r := out[..];
  }

  lemma {:induction false} FlattenPrefix(parts: seq<Bytes>, i: nat)
    requires i <= |parts|
    ensures |Flatten(parts[..i])| <= |Flatten(parts)|
    decreases |parts| - i
  {
    if i == |parts| {
      assert parts[..i] == parts;
    } else {
      assert parts[..i + 1] == parts[..i] + [parts[i]];
      FlattenSnoc(parts[..i], parts[i]);
      FlattenPrefix(parts, i + 1);
    }
  }

  // Equality and order

  /** The accumulated difference is zero exactly when no byte differs. */
  method BytesEqual(a: Bytes, b: Bytes) returns (r: bool)
    ensures r <==> a == b
  {
    if |a| != |b| { return false; }
    var diff := 0;
    for i := 0 to |a|
      invariant diff == 0 <==> a[..i] == b[..i]
    {
      XorZero(a[i], b[i]);
      OrZero(diff, Xor(a[i], b[i]));
      assert a[..i + 1] == a[..i] + [a[i]] && b[..i + 1] == b[..i] + [b[i]];
      diff := Or(diff, Xor(a[i], b[i]));
    }
    assert a[..|a|] == a && b[..|a|] == b;
    return diff == 0;
  }

  /** Lexicographic byte order, a proper prefix first. */
  predicate Before(a: Bytes, b: Bytes) {
    b != [] && (a == [] || a[0] < b[0] || (a[0] == b[0] && Before(a[1..], b[1..])))
  }

  method CompareBytes(a: Bytes, b: Bytes) returns (r: int)
    ensures r == if a == b then 0 else if Before(a, b) then -1 else 1
  {
    var n := if |a| < |b| then |a| else |b|;
    for i := 0 to n
      invariant a[..i] == b[..i]
      invariant Before(a, b) == Before(a[i..], b[i..])
    {
      assert a == a[..i] + [a[i]] + a[i + 1..] && b == b[..i] + [b[i]] + b[i + 1..];
      if a[i] != b[i] { return if a[i] < b[i] then -1 else 1; }
      assert a[i..][1..] == a[i + 1..] && b[i..][1..] == b[i + 1..];
    }
    assert |a| == |b| ==> a == a[..n] && b == b[..n];
    return if |a| == |b| then 0 else if |a| < |b| then -1 else 1;
  }

  /** The comparison is a lawful strict total order, which is what sorting by it rests on. */
  lemma {:induction false} BeforeIsTotalOrder(a: Bytes, b: Bytes, c: Bytes)
    ensures !(Before(a, b) && Before(b, a)) && !Before(a, a)
    ensures a == b || Before(a, b) || Before(b, a)
    ensures Before(a, b) && Before(b, c) ==> Before(a, c)
  {
    if a != [] { BeforeIsTotalOrder(a[1..], if b == [] then [] else b[1..], if c == [] then [] else c[1..]); }
    if a != [] && b != [] && a[0] == b[0] && a[1..] == b[1..] {
      assert a == [a[0]] + a[1..] && b == [b[0]] + b[1..];
    }
    if b != [] { BeforeIrreflexive(b); }
  }

  /** Some first difference decides: a lesser byte there, or the end of the shorter string. */
  ghost predicate DiffersFirstAt(a: Bytes, b: Bytes, k: nat) {
    k <= |a| && k < |b| && a[..k] == b[..k] && (k == |a| || a[k] < b[k])
  }

  /** The order is the lexicographic one of unsigned bytes, a proper prefix first. */
  lemma {:induction false} BeforeIsLexicographic(a: Bytes, b: Bytes)
    ensures Before(a, b) <==> exists k: nat :: DiffersFirstAt(a, b, k)
  {
    if a != [] && b != [] && a[0] == b[0] {
      BeforeIsLexicographic(a[1..], b[1..]);
      if Before(a[1..], b[1..]) {
        var k: nat :| DiffersFirstAt(a[1..], b[1..], k);
        assert a[..k + 1] == [a[0]] + a[1..][..k] && b[..k + 1] == [b[0]] + b[1..][..k];
        assert DiffersFirstAt(a, b, k + 1);
      }
      if k: nat :| DiffersFirstAt(a, b, k) {
        assert k > 0 && a[1..][..k - 1] == a[..k][1..] && b[1..][..k - 1] == b[..k][1..];
        assert DiffersFirstAt(a[1..], b[1..], k - 1);
      }
    } else {
      if Before(a, b) { assert DiffersFirstAt(a, b, 0); }
      if k: nat :| DiffersFirstAt(a, b, k) { PrefixesBeginAlike(a, b, k); }
    }
  }

  lemma PrefixesBeginAlike(a: Bytes, b: Bytes, k: nat)
    ensures 0 < k <= |a| && k <= |b| && a[..k] == b[..k] ==> a[0] == b[0]
  {
    if 0 < k <= |a| && k <= |b| { assert a[..k][0] == a[0] && b[..k][0] == b[0]; }
  }

  lemma BeforeIrreflexive(b: Bytes)
    ensures !Before(b, b)
  {
  }

  // Little-endian words

  function LE(v: nat, n: nat): (r: Bytes)
    ensures |r| == n
  {
    if n == 0 then [] else [v % 256] + LE(v / 256, n - 1)
  }

  function FromLE(b: Bytes): nat {
    if b == [] then 0 else b[0] + 256 * FromLE(b[1..])
  }

  lemma {:induction false} FromLEBound(b: Bytes)
    ensures FromLE(b) < Pow(256, |b|)
  {
    if b != [] { FromLEBound(b[1..]); }
  }

  lemma SplitArithmetic(p: nat, low: nat, high: nat)
    ensures 256 * (low + p * high) == 256 * low + 256 * p * high
  {
    MulAssoc(256, p, high);
  }

  lemma {:induction false} FromLESplit(b: Bytes, n: nat)
    requires n <= |b|
    ensures FromLE(b) == FromLE(b[..n]) + Pow(256, n) * FromLE(b[n..])
  {
    if n == 0 {
      assert b[..0] == [] && b[0..] == b;
    } else {
      FromLESplit(b[1..], n - 1);
      assert b[1..][..n - 1] == b[..n][1..] && b[1..][n - 1..] == b[n..];
      SplitArithmetic(Pow(256, n - 1), FromLE(b[..n][1..]), FromLE(b[n..]));
    }
  }

  lemma {:induction false} FromLEOfLE(v: nat, n: nat)
    requires v < Pow(256, n)
    ensures FromLE(LE(v, n)) == v
  {
    if n > 0 {
      assert v / 256 < Pow(256, n - 1);
      FromLEOfLE(v / 256, n - 1);
      assert LE(v, n)[1..] == LE(v / 256, n - 1);
    }
  }

  lemma {:induction false} LEOfFromLE(b: Bytes)
    ensures LE(FromLE(b), |b|) == b
  {
    if b != [] {
      LEOfFromLE(b[1..]);
      assert (b[0] + 256 * FromLE(b[1..])) % 256 == b[0];
      assert (b[0] + 256 * FromLE(b[1..])) / 256 == FromLE(b[1..]);
    }
  }

  predicate FitsU16(v: int) { 0 <= v < TWO16 }
  predicate FitsU64(v: int) { 0 <= v < TWO64 }
  predicate FitsI64(v: int) { -TWO63 <= v < TWO63 }

  /** The unsigned word that stands for a signed one in two's complement. */
  function Unsigned64(v: int): (r: nat)
    requires FitsI64(v)
  {
    if v < 0 then v + TWO64 else v
  }

  function U16le(v: int): Result<Bytes, Failure> {
    if FitsU16(v) then Ok(LE(v, 2)) else Err(RangeError)
  }

  function U64le(v: int): Result<Bytes, Failure> {
    if FitsU64(v) then Ok(LE(v, 8)) else Err(RangeError)
  }

  function I64le(v: int): Result<Bytes, Failure> {
    if FitsI64(v) then Ok(LE(Unsigned64(v), 8)) else Err(RangeError)
  }

  function ReadU16le(b: Bytes, off: nat): int
    requires off + 2 <= |b|
  {
    FromLE(b[off..off + 2])
  }

  function ReadU64le(b: Bytes, off: nat): int
    requires off + 8 <= |b|
  {
    FromLE(b[off..off + 8])
  }

  function ReadI64le(b: Bytes, off: nat): int
    requires off + 8 <= |b|
  {
    var u := FromLE(b[off..off + 8]);
    if u < TWO63 then u else u - TWO64
  }

  /** What a writer wrote is what the reader at that offset reads, for all three word types. */
  lemma WordsRoundTrip(v: int, before: Bytes, after: Bytes)
    ensures U16le(v).Ok? ==> ReadU16le(before + U16le(v).value + after, |before|) == v
    ensures U64le(v).Ok? ==> ReadU64le(before + U64le(v).value + after, |before|) == v
    ensures I64le(v).Ok? ==> ReadI64le(before + I64le(v).value + after, |before|) == v
  {
    PowConstants();
    if FitsU16(v) {
      FromLEOfLE(v, 2);
      assert (before + LE(v, 2) + after)[|before|..|before| + 2] == LE(v, 2);
    }
    if FitsU64(v) {
      FromLEOfLE(v, 8);
      assert (before + LE(v, 8) + after)[|before|..|before| + 8] == LE(v, 8);
    }
    if FitsI64(v) {
      var u := Unsigned64(v);
      FromLEOfLE(u, 8);
      assert (before + LE(u, 8) + after)[|before|..|before| + 8] == LE(u, 8);
    }
  }

  /** Any eight bytes are the encoding of exactly the unsigned and the signed word read there. */
  lemma WordsCover(b: Bytes, off: nat)
    requires off + 8 <= |b|
    ensures U64le(ReadU64le(b, off)) == Ok(b[off..off + 8])
    ensures I64le(ReadI64le(b, off)) == Ok(b[off..off + 8])
  {
    PowConstants();
    FromLEBound(b[off..off + 8]);
    LEOfFromLE(b[off..off + 8]);
  }

  lemma U16Injective(v: int, w: int)
    requires FitsU16(v) && FitsU16(w) && LE(v, 2) == LE(w, 2)
    ensures v == w
  {
    PowConstants();
    FromLEOfLE(v, 2);
    FromLEOfLE(w, 2);
  }

  lemma U64Injective(v: int, w: int)
    requires FitsU64(v) && FitsU64(w) && LE(v, 8) == LE(w, 8)
    ensures v == w
  {
    PowConstants();
    FromLEOfLE(v, 8);
    FromLEOfLE(w, 8);
  }

  lemma I64Injective(v: int, w: int)
    requires FitsI64(v) && FitsI64(w) && LE(Unsigned64(v), 8) == LE(Unsigned64(w), 8)
    ensures v == w
  {
    U64Injective(Unsigned64(v), Unsigned64(w));
  }

  /** Byte k of a word is its k-th digit in base 256, the least first. */
  lemma {:induction false} LEAt(v: nat, n: nat, k: nat)
    requires k < n
    ensures LE(v, n)[k] == v / Pow(256, k) % 256
  {
    if k == 0 {
      assert v / 1 == v;
    } else {
      LEAt(v / 256, n - 1, k - 1);
      DivDiv(v, 256, Pow(256, k - 1));
    }
  }

  /** Which words there are, and the bytes of each: two's complement where they are signed. */
  lemma WordsAre(v: int)
    ensures U16le(v) == if 0 <= v < 0x1_0000 then Ok(LE(v, 2)) else Err(RangeError)
    ensures U64le(v) == if 0 <= v < 0x1_0000_0000_0000_0000 then Ok(LE(v, 8)) else Err(RangeError)
    ensures I64le(v) ==
      if -0x8000_0000_0000_0000 <= v < 0 then Ok(LE(v + 0x1_0000_0000_0000_0000, 8))
      else if 0 <= v < 0x8000_0000_0000_0000 then Ok(LE(v, 8)) else Err(RangeError)
  {
  }
}

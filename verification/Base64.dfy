/**
 Strict base64 (sections 3.5 and 4 of RFC 4648) as ts/src/bytes.ts decodes and encodes it, with the
 decoder's accumulator a 32-bit word that is shifted and never masked.
 */
module Base64 {
  import opened Wrappers
  import opened Arith
  import opened Bytes
  import opened Alphabets
  import opened Numerals

  const UPPER := "ABCDEFGHIJKLMNOPQRSTUVWXYZ"
  const LOWER := "abcdefghijklmnopqrstuvwxyz"
  const DIGITS := "0123456789"
  const ALPHABET: string := UPPER + LOWER + DIGITS + "+/"

  datatype Refused = BadLength | PaddingInside | BadCharacter | PaddingBits

  // The alphabet

  function Symbol(v: nat): char
    requires v < 64
  {
    if v < 26 then 'A' + v as char
    else if v < 52 then 'a' + (v - 26) as char
    else if v < 62 then '0' + (v - 52) as char
    else if v == 62 then '+' else '/'
  }

  lemma UpperIs(i: nat)
    requires i < 26
    ensures |UPPER| == 26 && UPPER[i] == Symbol(i)
  {
  }

  lemma LowerIs(i: nat)
    requires i < 26
    ensures |LOWER| == 26 && LOWER[i] == Symbol(26 + i)
  {
  }

  lemma DigitsAre(i: nat)
    requires i < 10
    ensures |DIGITS| == 10 && DIGITS[i] == Symbol(52 + i)
  {
  }

  lemma AlphabetIs(i: nat)
    requires i < 64
    ensures |ALPHABET| == 64 && ALPHABET[i] == Symbol(i)
  {
    UpperIs(if i < 26 then i else 0);
    LowerIs(if 26 <= i < 52 then i - 26 else 0);
    DigitsAre(if 52 <= i < 62 then i - 52 else 0);
  }

  lemma AlphabetIsDistinct()
    ensures |ALPHABET| == 64 && Distinct(ALPHABET) && '=' !in ALPHABET
  {
    AlphabetIs(0);
    forall i | 0 <= i < 64 ensures ALPHABET[i] == Symbol(i) { AlphabetIs(i); }
  }

  // Sextets

  type sextet = x: int | 0 <= x < 64

  function Char(v: sextet): char {
    AlphabetIs(0);
    ALPHABET[v]
  }

  function Chars(q: seq<sextet>): (r: string)
    ensures |r| == |q| && forall i :: 0 <= i < |q| ==> r[i] == Char(q[i])
  {
    seq(|q|, i requires 0 <= i < |q| => Char(q[i]))
  }

  predicate InAlphabet(s: string) {
    forall i :: 0 <= i < |s| ==> s[i] in ALPHABET
  }

  function Values(s: string): (r: seq<sextet>)
    requires InAlphabet(s)
    ensures |r| == |s| && forall i :: 0 <= i < |s| ==> r[i] == IndexOf(ALPHABET, s[i])
  {
    AlphabetIs(0);
    seq(|s|, i requires 0 <= i < |s| => IndexOf(ALPHABET, s[i]))
  }

  lemma ValuesOfChars(q: seq<sextet>)
    ensures InAlphabet(Chars(q)) && '=' !in Chars(q) && Values(Chars(q)) == q
  {
    AlphabetIsDistinct();
    forall i | 0 <= i < |q| ensures IndexOf(ALPHABET, Char(q[i])) == q[i] { IndexOfSymbol(ALPHABET, q[i]); }
  }

  lemma CharsOfValues(s: string)
    requires InAlphabet(s)
    ensures Chars(Values(s)) == s
  {
  }

  // How three bytes split into four sextets, and back

  function Sextet0(b0: byte): sextet { b0 / 4 }
  function Sextet1(b0: byte, b1: byte): sextet { b0 % 4 * 16 + b1 / 16 }
  function Sextet2(b1: byte, b2: byte): sextet { b1 % 16 * 4 + b2 / 64 }
  function Sextet3(b2: byte): sextet { b2 % 64 }
  function Byte0(q0: sextet, q1: sextet): byte { q0 * 4 + q1 / 16 }
  function Byte1(q1: sextet, q2: sextet): byte { q1 % 16 * 16 + q2 / 4 }
  function Byte2(q2: sextet, q3: sextet): byte { q2 % 4 * 64 + q3 }

  lemma GroupOfBytes(b0: byte, b1: byte, b2: byte)
    ensures Byte0(Sextet0(b0), Sextet1(b0, b1)) == b0
    ensures Byte1(Sextet1(b0, b1), Sextet2(b1, b2)) == b1
    ensures Byte2(Sextet2(b1, b2), Sextet3(b2)) == b2
    ensures Sextet1(b0, 0) % 16 == 0 && Sextet2(b1, 0) % 4 == 0
  {
  }

  lemma GroupOfSextets(q0: sextet, q1: sextet, q2: sextet, q3: sextet)
    ensures Sextet0(Byte0(q0, q1)) == q0
    ensures Sextet1(Byte0(q0, q1), Byte1(q1, q2)) == q1
    ensures Sextet2(Byte1(q1, q2), Byte2(q2, q3)) == q2
    ensures Sextet3(Byte2(q2, q3)) == q3
    ensures q1 % 16 == 0 ==> Sextet1(Byte0(q0, q1), 0) == q1
    ensures q2 % 4 == 0 ==> Sextet2(Byte1(q1, q2), 0) == q2
  {
  }

  /** Three bytes are four sextets; one or two bytes at the end are two or three. */
  function Sextets(b: Bytes): (q: seq<sextet>) {
    if |b| == 0 then []
    else if |b| == 1 then [Sextet0(b[0]), Sextet1(b[0], 0)]
    else if |b| == 2 then [Sextet0(b[0]), Sextet1(b[0], b[1]), Sextet2(b[1], 0)]
    else [Sextet0(b[0]), Sextet1(b[0], b[1]), Sextet2(b[1], b[2]), Sextet3(b[2])] + Sextets(b[3..])
  }

  /** The bytes that whole sextets fill. */
  function BytesOf(q: seq<sextet>): Bytes {
    if |q| < 2 then []
    else if |q| == 2 then [Byte0(q[0], q[1])]
    else if |q| == 3 then [Byte0(q[0], q[1]), Byte1(q[1], q[2])]
    else [Byte0(q[0], q[1]), Byte1(q[1], q[2]), Byte2(q[2], q[3])] + BytesOf(q[4..])
  }

  /** The bits left over once the bytes are filled. */
  function LeftOver(q: seq<sextet>): nat {
    if |q| % 4 == 0 then 0
    else if |q| % 4 == 1 then q[|q| - 1]
    else if |q| % 4 == 2 then q[|q| - 1] % 16
    else q[|q| - 1] % 4
  }

  lemma {:induction false} SextetsLength(b: Bytes)
    ensures |Sextets(b)| == |b| / 3 * 4 + (if |b| % 3 == 0 then 0 else |b| % 3 + 1)
  {
    if |b| >= 3 { SextetsLength(b[3..]); }
  }

  lemma {:induction false} BytesOfSextets(b: Bytes)
    ensures BytesOf(Sextets(b)) == b
  {
    hide Sextet0, Sextet1, Sextet2, Sextet3, Byte0, Byte1, Byte2;
    if |b| > 0 { GroupOfBytes(b[0], if |b| > 1 then b[1] else 0, if |b| > 2 then b[2] else 0); }
    if |b| >= 3 {
      BytesOfSextets(b[3..]);
      assert Sextets(b)[4..] == Sextets(b[3..]);
      assert b == [b[0], b[1], b[2]] + b[3..];
    }
  }

  lemma {:induction false} NothingLeftOver(b: Bytes)
    ensures LeftOver(Sextets(b)) == 0 && |Sextets(b)| % 4 != 1
  {
    hide LeftOver, Sextet0, Sextet1, Sextet2, Sextet3;
    if |b| >= 3 {
      NothingLeftOver(b[3..]);
      assert Sextets(b)[4..] == Sextets(b[3..]);
      LeftOverOfTail(Sextets(b));
    } else {
      NothingLeftOverShort(b);
    }
  }

  lemma NothingLeftOverShort(b: Bytes)
    requires |b| < 3
    ensures LeftOver(Sextets(b)) == 0 && |Sextets(b)| % 4 != 1
  {
    hide Sextet0, Sextet1, Sextet2, Sextet3;
    if |b| > 0 { GroupOfBytes(b[0], if |b| > 1 then b[1] else 0, 0); }
  }

  lemma LeftOverOfTail(q: seq<sextet>)
    requires |q| >= 4
    ensures LeftOver(q) == LeftOver(q[4..]) && |q| % 4 == |q[4..]| % 4
  {
  }

  lemma {:induction false} SextetsOfBytes(q: seq<sextet>)
    requires |q| % 4 != 1 && LeftOver(q) == 0
    ensures Sextets(BytesOf(q)) == q
  {
    hide LeftOver, Sextet0, Sextet1, Sextet2, Sextet3, Byte0, Byte1, Byte2;
    if |q| >= 4 {
      LeftOverOfTail(q);
      SextetsOfBytes(q[4..]);
      GroupOfSextets(q[0], q[1], q[2], q[3]);
      var b := BytesOf(q);
      assert b[3..] == BytesOf(q[4..]);
      assert Sextets(b) == [q[0], q[1], q[2], q[3]] + Sextets(b[3..]);
      assert q == [q[0], q[1], q[2], q[3]] + q[4..];
    } else {
      if |q| > 0 {
        LeftOverOfShort(q);
        GroupOfSextets(q[0], q[1], if |q| > 2 then q[2] else 0, 0);
      }
    }
  }

  lemma LeftOverOfShort(q: seq<sextet>)
    requires |q| == 2 || |q| == 3
    ensures LeftOver(q) == if |q| == 2 then q[1] % 16 else q[2] % 4
  {
  }

  // Encoding

  /** How many padding characters complete a group. */
  function PadFor(n: nat): (p: nat)
    ensures n % 4 != 1 ==> p <= 2
  {
    (4 - n % 4) % 4
  }

  function Padding(p: nat): string {
    seq(p, _ => '=')
  }

  function Encode(b: Bytes): string {
    Chars(Sextets(b)) + Padding(PadFor(|Sextets(b)|))
  }

  lemma {:induction false} SextetsAppend(a: Bytes, b: Bytes)
    requires |a| % 3 == 0
    ensures Sextets(a + b) == Sextets(a) + Sextets(b)
  {
    hide Sextet0, Sextet1, Sextet2, Sextet3;
    if a == [] {
      assert a + b == b;
    } else {
      SextetsAppend(a[3..], b);
      var group := [Sextet0(a[0]), Sextet1(a[0], a[1]), Sextet2(a[1], a[2]), Sextet3(a[2])];
      assert (a + b)[3..] == a[3..] + b;
      assert Sextets(a + b) == group + Sextets(a[3..] + b);
      assert group + (Sextets(a[3..]) + Sextets(b)) == (group + Sextets(a[3..])) + Sextets(b);
    }
  }

  lemma EncodeAppend(a: Bytes, b: Bytes)
    requires |a| % 3 == 0
    ensures Encode(a + b) == Encode(a) + Encode(b)
  {
    hide Sextets, Char, PadFor;
    SextetsAppend(a, b);
    SextetsLength(a);
    assert Chars(Sextets(a) + Sextets(b)) == Chars(Sextets(a)) + Chars(Sextets(b));
    PadForWhole(|Sextets(a)|, |Sextets(b)|);
    assert Padding(0) == "";
  }

  lemma PadForWhole(n: nat, m: nat)
    requires n % 4 == 0
    ensures PadFor(n) == 0 && PadFor(n + m) == PadFor(m)
  {
  }

  /** What one group of at most three bytes encodes to, character by character. */
  lemma EncodeShort(b: Bytes, b1: byte, b2: byte)
    requires 1 <= |b| <= 3
    requires b1 == (if |b| > 1 then b[1] else 0) && b2 == (if |b| > 2 then b[2] else 0)
    ensures Encode(b) == [
      Char(Sextet0(b[0])), Char(Sextet1(b[0], b1)),
      if |b| > 1 then Char(Sextet2(b1, b2)) else '=', if |b| > 2 then Char(Sextet3(b2)) else '=']
  {
    hide Sextet0, Sextet1, Sextet2, Sextet3, Char;
    var q := Sextets(b);
    if |b| == 3 {
      assert Sextets(b[3..]) == [];
      assert q == [Sextet0(b[0]), Sextet1(b[0], b1), Sextet2(b1, b2), Sextet3(b2)];
      assert Padding(0) == "";
    } else {
      assert Padding(1) == "=" && Padding(2) == "==";
    }
  }

  /** One group of the encoder's output, by the encoder's bit operations. */
  method EncodeGroup(b: Bytes) returns (out: string)
    requires 1 <= |b| <= 3
    ensures out == Encode(b)
  {
    hide Encode, ALPHABET, And, Or, Shl, Shr, Sextet0, Sextet1, Sextet2, Sextet3;
    AlphabetIs(0);
    var b0 := b[0];
    var b1 := if 1 < |b| then b[1] else 0;
    var b2 := if 2 < |b| then b[2] else 0;
    GroupBits(b0, b1, b2);
    EncodeShort(b, b1, b2);
    out := [ALPHABET[Shr(b0, 2)]];
    out := out + [ALPHABET[Or(Shl(And(b0, 3), 4), Shr(b1, 4))]];
    out := out + [if 1 < |b| then ALPHABET[Or(Shl(And(b1, 15), 2), Shr(b2, 6))] else '='];
    out := out + [if 2 < |b| then ALPHABET[And(b2, 63)] else '='];
  }

  lemma SmallPowers()
    ensures Pow2(0) == 1 && Pow2(2) == 4 && Pow2(4) == 16 && Pow2(6) == 64 && Pow2(8) == 256
  {
    PowAdd(2, 4, 2);
    PowConstants();
  }

  lemma GroupBits(b0: byte, b1: byte, b2: byte)
    ensures Shr(b0, 2) == Sextet0(b0)
    ensures Or(Shl(And(b0, 3), 4), Shr(b1, 4)) == Sextet1(b0, b1)
    ensures Or(Shl(And(b1, 15), 2), Shr(b2, 6)) == Sextet2(b1, b2)
    ensures And(b2, 63) == Sextet3(b2)
  {
    hide And, Or, Pow2;
    SmallPowers();
    AndMask(b0, 2);
    AndMask(b1, 4);
    AndMask(b2, 6);
    OrDisjoint(b0 % 4, 4, b1 / 16);
    OrDisjoint(b1 % 16, 2, b2 / 64);
  }

  lemma EncodeEmpty()
    ensures Encode([]) == ""
  {
    assert Padding(0) == "";
  }

  method Base64Encode(b: Bytes) returns (out: string)
    ensures out == Encode(b)
  {
    hide Encode;
    out := "";
    EncodeEmpty();
    assert b[..0] == [];
    var i := 0;
    while i < |b|
      invariant 0 <= i && (i <= |b| ==> i % 3 == 0)
      invariant out == if i <= |b| then Encode(b[..i]) else Encode(b)
    {
      var end := if i + 3 <= |b| then i + 3 else |b|;
      var group := EncodeGroup(b[i..end]);
      EncodeAppend(b[..i], b[i..end]);
      assert b[..end] == b[..i] + b[i..end];
      assert end == |b| ==> b[..end] == b;
      out := out + group;
      i := i + 3;
    }
    assert i <= |b| ==> b[..i] == b;
  }

  // Decoding

  predicate EndsWith(s: string, t: string) {
    |t| <= |s| && s[|s| - |t|..] == t
  }

  function PadOf(s: string): (p: nat)
    ensures p <= |s|
  {
    if EndsWith(s, "==") then 2 else if EndsWith(s, "=") then 1 else 0
  }

  function BodyOf(s: string): string {
    s[..|s| - PadOf(s)]
  }

  function Decode(s: string): Result<Bytes, Refused> {
    var body := BodyOf(s);
    if |s| % 4 != 0 then Err(BadLength)
    else if '=' in body then Err(PaddingInside)
    else if !InAlphabet(body) then Err(BadCharacter)
    else if LeftOver(Values(body)) != 0 then Err(PaddingBits)
    else Ok(BytesOf(Values(body)))
  }

  /** What one more sextet adds to the bytes. */
  function Emitted(q: seq<sextet>, v: sextet): Bytes {
    if |q| % 4 == 0 then []
    else if |q| % 4 == 1 then [Byte0(q[|q| - 1], v)]
    else if |q| % 4 == 2 then [Byte1(q[|q| - 1], v)]
    else [Byte2(q[|q| - 1], v)]
  }

  lemma {:induction false} BytesOfSnoc(q: seq<sextet>, v: sextet)
    ensures BytesOf(q + [v]) == BytesOf(q) + Emitted(q, v)
  {
    hide Byte0, Byte1, Byte2;
    if |q| >= 4 {
      assert (q + [v])[4..] == q[4..] + [v];
      BytesOfSnoc(q[4..], v);
      EmittedOfTail(q, v);
    } else {
      var r := q + [v];
      assert |r| == 4 ==> BytesOf(r[4..]) == [];
    }
  }

  lemma EmittedOfTail(q: seq<sextet>, v: sextet)
    requires |q| >= 4
    ensures Emitted(q, v) == Emitted(q[4..], v)
  {
    hide Byte0, Byte1, Byte2;
    assert |q| % 4 == |q[4..]| % 4;
  }

  lemma {:induction false} BytesOfLength(q: seq<sextet>)
    ensures |BytesOf(q)| == |q| / 4 * 3 + (if |q| % 4 < 2 then 0 else |q| % 4 - 1)
  {
    if |q| >= 4 { BytesOfLength(q[4..]); }
  }

  // The accumulator as a 32-bit word, standing for a signed number when it is shifted right

  const TWO32: int := 0x1_0000_0000
  type word = x: int | 0 <= x < TWO32

  /** acc << 6: bits past the thirty-second are lost. */
  function Shl6(acc: word): word {
    acc * 64 % TWO32
  }

  /** acc >> n: the sign is copied in from the left. */
  function Sar(acc: word, n: nat): word {
    (if acc < TWO32 / 2 then acc else acc - TWO32) / Pow2(n) % TWO32
  }

  /** Losing high bits is harmless: the low twelve are the last two sextets, and no more are read. */
  lemma ShiftedIn(acc: word, v: sextet)
    ensures Or(Shl6(acc), v) < TWO32
    ensures Or(Shl6(acc), v) % 4096 == acc % 64 * 64 + v
    ensures Or(Shl6(acc), v) % 64 == v
  {
    hide Or, Pow2, Shl6;
    SmallPowers();
    var kept := acc % 0x400_0000;
    HighBitsLost(acc);
    OrDisjoint(kept, 6, v);
    DivModUnique(kept * 64 + v, 4096, kept / 64, kept % 64 * 64 + v);
    DivModUnique(kept * 64 + v, 64, kept, v);
  }

  lemma HighBitsLost(acc: word)
    ensures Shl6(acc) == acc % 0x400_0000 * 64
    ensures acc % 64 == acc % 0x400_0000 % 64
  {
    var lost, kept := acc / 0x400_0000, acc % 0x400_0000;
    DivModUnique(acc * 64, TWO32, lost, kept * 64);
    DivModUnique(acc, 64, lost * 0x10_0000 + kept / 64, kept % 64);
  }

  /** The sign copied in by the shift never reaches the byte that is kept. */
  lemma ByteOut(acc: word, n: nat)
    requires n == 0 || n == 2 || n == 4
    ensures And(Sar(acc, n), 255) == acc % 4096 / Pow2(n) % 256
  {
    hide And, Pow2;
    SmallPowers();
    AndMask(Sar(acc, n), 8);
    var high, low := acc / 4096, acc % 4096;
    var sign := if acc < TWO32 / 2 then 0 else 0x10_0000;
    if n == 0 {
      SignLost((high - sign) * 16, low);
    } else if n == 2 {
      SignLost((high - sign) * 4, low / 4);
    } else {
      SignLost(high - sign, low / 16);
    }
  }

  /** A number cut to 32 bits keeps its low byte. */
  lemma SignLost(high: int, low: nat)
    ensures (high * 256 + low) % TWO32 % 256 == low % 256
  {
    var y := high * 256 + low;
    var z, k := y % TWO32, high + low / 256 - y / TWO32 * 0x100_0000;
    DivModUnique(z, 256, k, low % 256);
  }

  lemma LowBits(acc: word, n: nat)
    ensures And(acc, Shl(1, n) - 1) == acc % Pow2(n)
  {
    AndMask(acc, n);
  }

  /** The bits waiting after a number of sextets. */
  function Waiting(i: nat): nat {
    if i % 4 == 0 then 0 else 8 - 2 * (i % 4)
  }

  /** What the accumulator still has to hold after some sextets: the last of them. */
  predicate Holds(q: seq<sextet>, acc: word, bits: nat) {
    bits == Waiting(|q|) && (|q| > 0 ==> acc % 64 == q[|q| - 1])
  }

  /** The byte that comes out, from the sextet held and the one coming in. */
  lemma ByteFromLast(last: sextet, v: sextet)
    ensures (last * 64 + v) / 16 % 256 == Byte0(last, v)
    ensures (last * 64 + v) / 4 % 256 == Byte1(last, v)
    ensures (last * 64 + v) % 256 == Byte2(last, v)
  {
    var x := last * 64 + v;
    DivModUnique(x, 16, last * 4 + v / 16, v % 16);
    DivModUnique(x, 4, last * 16 + v / 4, v % 4);
    DivModUnique(last * 16 + v / 4, 256, last / 16, last % 16 * 16 + v / 4);
    DivModUnique(x, 256, last / 4, last % 4 * 64 + v);
  }

  lemma NextWaiting(n: nat)
    ensures Waiting(n) < 2 ==> Waiting(n + 1) == Waiting(n) + 6
    ensures Waiting(n) >= 2 ==> Waiting(n + 1) == Waiting(n) - 2
    ensures Waiting(n) == [0, 6, 4, 2][n % 4]
  {
  }

  lemma SextetIn(q: seq<sextet>, acc: word, bits: nat, v: sextet)
    requires Holds(q, acc, bits)
    ensures Or(Shl6(acc), v) < TWO32
    ensures bits < 2 ==> Emitted(q, v) == [] && Holds(q + [v], Or(Shl6(acc), v), bits + 6)
    ensures bits >= 2 ==> Holds(q + [v], Or(Shl6(acc), v), bits - 2)
    ensures bits >= 2 ==> 0 <= And(Sar(Or(Shl6(acc), v), bits - 2), 255) < 256
    ensures bits >= 2 ==> Emitted(q, v) == [And(Sar(Or(Shl6(acc), v), bits - 2), 255)]
  {
    hide Or, And, Shl6, Sar, Pow2, Waiting, Byte0, Byte1, Byte2;
    ShiftedIn(acc, v);
    SmallPowers();
    NextWaiting(|q|);
    if bits >= 2 {
      ByteOut(Or(Shl6(acc), v), bits - 2);
      ByteFromLast(q[|q| - 1], v);
    }
  }

  method Base64Decode(s: string) returns (r: Result<Bytes, Refused>)
    ensures r == Decode(s)
  {
    hide ALPHABET, BytesOf, IndexOf, LeftOver, Values, InAlphabet;
    if |s| % 4 != 0 { return Err(BadLength); }
    var pad := 0;
    if EndsWith(s, "==") { pad := 2; } else if EndsWith(s, "=") { pad := 1; }
    var body := if pad == 0 then s else s[..|s| - pad];
    assert s[..|s|] == s && body == BodyOf(s);
    if '=' in body { return Err(PaddingInside); }
    r := DecodeBody(body, pad);
  }

  /** The decoder's loop over the characters before the padding, filling a buffer of the exact size. */
  method DecodeBody(body: string, pad: nat) returns (r: Result<Bytes, Refused>)
    requires pad <= 2 && (|body| + pad) % 4 == 0
    ensures r == if !InAlphabet(body) then Err(BadCharacter)
                 else if LeftOver(Values(body)) != 0 then Err(PaddingBits) else Ok(BytesOf(Values(body)))
  {
    hide And, Or, Shl, Shl6, Sar, ALPHABET, BytesOf, IndexOf, Holds, Emitted, LeftOver, Values, Waiting;
    var out := new byte[(|body| + pad) / 4 * 3 - pad];
    var o, acc: word, bits := 0, 0, 0;
    ghost var q: seq<sextet> := [];
    NothingYet();
    assert body[..0] == "";
    for i := 0 to |body|
      invariant InAlphabet(body[..i])
      invariant q == Values(body[..i]) && Holds(q, acc, bits)
      invariant o == |BytesOf(q)| <= out.Length && out[..o] == BytesOf(q)
    {
      var v := IndexOf(ALPHABET, body[i]);
      if v < 0 { return Err(BadCharacter); }
      ValuesSnoc(body[..i], body[i]);
      assert body[..i + 1] == body[..i] + [body[i]];
      SextetIn(q, acc, bits, v);
      BytesOfSnoc(q, v);
      q := q + [v];
      BytesOfFits(q, |body|, pad);
      acc := Or(Shl6(acc), v);
      bits := bits + 6;
      if bits >= 8 {
        bits := bits - 8;
        out[o] := And(Sar(acc, bits), 255);
        o := o + 1;
      }
    }
    assert body[..|body|] == body;
    LeftOverIsLowBits(q, acc, bits);
    if bits > 0 && And(acc, Shl(1, bits) - 1) != 0 { return Err(PaddingBits); }
    BytesOfFits(q, |body|, pad);
    // Here the source refuses a short decode: the output is always full.
    assert o == out.Length && out[..o] == out[..];
    return Ok(out[..]);
  }

  lemma ValuesSnoc(s: string, c: char)
    requires InAlphabet(s) && c in ALPHABET
    ensures InAlphabet(s + [c]) && |ALPHABET| == 64 && IndexOf(ALPHABET, c) >= 0
    ensures Values(s + [c]) == Values(s) + [IndexOf(ALPHABET, c)]
  {
    AlphabetIs(0);
  }

  lemma NothingYet()
    ensures BytesOf([]) == [] && Holds([], 0, 0) && Values("") == []
  {
  }

  lemma BytesOfFits(q: seq<sextet>, n: nat, pad: nat)
    requires |q| <= n && pad <= 2 && (n + pad) % 4 == 0
    ensures |BytesOf(q)| <= (n + pad) / 4 * 3 - pad
    ensures |q| == n ==> |BytesOf(q)| == (n + pad) / 4 * 3 - pad
  {
    BytesOfLength(q);
  }

  lemma LeftOverIsLowBits(q: seq<sextet>, acc: word, bits: nat)
    requires |q| % 4 != 1 && Holds(q, acc, bits)
    ensures Shl(1, bits) > 0 && (bits > 0 ==> And(acc, Shl(1, bits) - 1) == LeftOver(q))
    ensures bits == 0 ==> LeftOver(q) == 0
  {
    hide And, Pow2;
    if bits > 0 {
      LowBits(acc, bits);
      SmallPowers();
      DivModUnique(acc, 16, acc / 64 * 4 + acc % 64 / 16, acc % 64 % 16);
      DivModUnique(acc, 4, acc / 64 * 16 + acc % 64 / 4, acc % 64 % 4);
    }
  }

  // The bijection

  lemma DecodeOfEncode(b: Bytes)
    ensures Decode(Encode(b)) == Ok(b)
  {
    hide Sextets, BytesOf, Values, LeftOver, PadOf, BodyOf, ALPHABET, Char;
    var q := Sextets(b);
    BytesOfSextets(b);
    NothingLeftOver(b);
    ValuesOfChars(q);
    PadOfPadded(Chars(q), PadFor(|q|));
  }

  lemma EncodeOfDecode(s: string)
    requires Decode(s).Ok?
    ensures Encode(Decode(s).value) == s
  {
    hide Sextets, BytesOf, Values, LeftOver, ALPHABET, Char, PadOf;
    var body := BodyOf(s);
    PaddingEndsIt(s);
    SextetsOfBytes(Values(body));
    CharsOfValues(body);
  }

  lemma PaddingEndsIt(s: string)
    requires |s| % 4 == 0
    ensures s == BodyOf(s) + Padding(PadOf(s))
    ensures |BodyOf(s)| % 4 != 1 && PadFor(|BodyOf(s)|) == PadOf(s)
  {
    hide Padding, PadFor;
    PaddingIs();
    PadForRest(|BodyOf(s)|, PadOf(s));
    if PadOf(s) > 0 {
      var t := if PadOf(s) == 2 then "==" else "=";
      assert s[|s| - |t|..] == t == Padding(PadOf(s));
      assert s == s[..|s| - |t|] + s[|s| - |t|..];
    }
  }

  lemma PaddingIs()
    ensures Padding(0) == "" && Padding(1) == "=" && Padding(2) == "=="
  {
  }

  lemma PadForRest(n: nat, p: nat)
    requires p <= 2 && (n + p) % 4 == 0
    ensures n % 4 != 1 && PadFor(n) == p
  {
  }

  /** Decoding accepts exactly what encoding produces, and returns what was encoded. */
  lemma DecodeInvertsEncode(s: string, b: Bytes)
    ensures Decode(s) == Ok(b) <==> s == Encode(b)
  {
    hide *;
    DecodeOfEncode(b);
    if Decode(s).Ok? { EncodeOfDecode(s); }
  }

  /** In place i there is an `=` that ends no group: before the last two characters, or between them and not followed by one. */
  predicate IsInside(s: string, i: nat)
    requires i < |s|
  {
    s[i] == '=' && i != |s| - 1 && (i == |s| - 2 ==> s[i + 1] != '=')
  }

  /** What a string that is no encoding is refused with. */
  lemma DecodeRefuses(s: string)
    requires forall b: Bytes :: s != Encode(b)
    ensures Decode(s).Err?
    ensures Decode(s).error ==
      if |s| % 4 != 0 then BadLength
      else if exists i :: 0 <= i < |s| && IsInside(s, i) then PaddingInside
      else if exists i :: 0 <= i < |s| && s[i] != '=' && s[i] !in ALPHABET then BadCharacter else PaddingBits
  {
    hide Encode, LeftOver, Values, BytesOf, ALPHABET;
    if Decode(s).Ok? { DecodeInvertsEncode(s, Decode(s).value); }
    assert s != "" by { EncodeIs([]); }
    if |s| >= 2 { InsideIs(s); }
    if |s| >= 2 && '=' !in BodyOf(s) { ForeignIs(s); }
  }

  lemma InsideIs(s: string)
    requires |s| >= 2
    ensures '=' in BodyOf(s) <==> exists i :: 0 <= i < |s| && IsInside(s, i)
  {
    EndsAre(s);
    var body := BodyOf(s);
    if '=' in body {
      var i :| 0 <= i < |body| && body[i] == '=';
      assert IsInside(s, i);
    }
    if i :| 0 <= i < |s| && IsInside(s, i) {
      assert i < |body| && body[i] == '=';
    }
  }

  lemma ForeignIs(s: string)
    requires |s| >= 2 && '=' !in BodyOf(s)
    ensures InAlphabet(BodyOf(s)) <==> !(exists i :: 0 <= i < |s| && s[i] != '=' && s[i] !in ALPHABET)
  {
    hide ALPHABET;
    EndsAre(s);
    var body := BodyOf(s);
    assert forall i :: 0 <= i < |body| ==> body[i] == s[i] && s[i] != '=';
    assert forall i :: |body| <= i < |s| ==> s[i] == '=';
  }

  lemma EndsAre(s: string)
    requires |s| >= 2
    ensures PadOf(s) == if s[|s| - 1] != '=' then 0 else if s[|s| - 2] != '=' then 1 else 2
  {
    assert s[|s| - 2..] == [s[|s| - 2], s[|s| - 1]] && s[|s| - 1..] == [s[|s| - 1]];
  }

  lemma PadOfPadded(body: string, p: nat)
    requires '=' !in body && p <= 2
    ensures PadOf(body + Padding(p)) == p && BodyOf(body + Padding(p)) == body
  {
    var s := body + Padding(p);
    if p == 2 {
      assert s[|s| - 2..] == "==";
    } else if p == 1 {
      assert s[|s| - 1..] == "=";
      if |s| >= 2 { assert s[|s| - 2] == body[|body| - 1]; }
    } else if |s| >= 1 {
      assert s[|s| - 1] == body[|body| - 1];
    }
  }

  // The encoding, as numbers

  /** The 64 characters, by their codes. */
  lemma AlphabetCodes(v: sextet)
    ensures Char(v) as int ==
      if v < 26 then 0x41 + v else if v < 52 then 0x61 + v - 26 else if v < 62 then 0x30 + v - 52 else if v == 62 then 0x2b else 0x2f
  {
    AlphabetIs(v);
  }

  /** What the bits of a group not filled are worth. */
  function Scale(n: nat): nat {
    if n % 3 == 0 then 1 else if n % 3 == 1 then 16 else 4
  }

  lemma {:induction false} SextetPowers(b: Bytes)
    ensures Pow(64, |Sextets(b)|) == Pow(256, |b|) * Scale(|b|)
  {
    hide Sextet0, Sextet1, Sextet2, Sextet3, Pow;
    if |b| >= 3 {
      var n, m := |b| - 3, |Sextets(b[3..])|;
      SextetPowers(b[3..]);
      ThreeBytesFourSextets();
      PowAdd(64, 4, m);
      PowAdd(256, 3, n);
      MulAssoc(0x100_0000, Pow(256, n), Scale(n));
    } else {
      SmallWords();
    }
  }

  lemma ThreeBytesFourSextets()
    ensures Pow(64, 4) == Pow(256, 3) == 0x100_0000
  {
    assert Pow(64, 4) == 64 * (64 * (64 * (64 * Pow(64, 0))));
    assert Pow(256, 3) == 256 * (256 * (256 * Pow(256, 0)));
  }

  lemma SmallWords()
    ensures Pow(64, 0) == 1 && Pow(64, 2) == 4096 && Pow(64, 3) == 0x4_0000
    ensures Pow(256, 0) == 1 && Pow(256, 1) == 256 && Pow(256, 2) == 0x1_0000
  {
    assert Pow(64, 3) == 64 * Pow(64, 2) == 64 * (64 * (64 * Pow(64, 0)));
    PowConstants();
  }

  lemma ValueOfFew(base: nat, a: nat, b: nat, c: nat, d: nat)
    ensures Value(base, []) == 0 && Value(base, [a]) == a && Value(base, [a, b]) == a * base + b
    ensures Value(base, [a, b, c]) == (a * base + b) * base + c
    ensures Value(base, [a, b, c, d]) == ((a * base + b) * base + c) * base + d
  {
    assert [a][..0] == [] && [a, b][..1] == [a] && [a, b, c][..2] == [a, b] && [a, b, c, d][..3] == [a, b, c];
  }

  /** One group's sextets are its bytes' number, in base 64. */
  lemma GroupIsItsNumber(b0: byte, b1: byte, b2: byte)
    ensures Value(64, [Sextet0(b0), Sextet1(b0, b1), Sextet2(b1, b2), Sextet3(b2)]) == Value(256, [b0, b1, b2])
    ensures Value(64, [Sextet0(b0), Sextet1(b0, b1), Sextet2(b1, 0)]) == Value(256, [b0, b1]) * 4
    ensures Value(64, [Sextet0(b0), Sextet1(b0, 0)]) == Value(256, [b0]) * 16
  {
    ValueOfFew(64, Sextet0(b0), Sextet1(b0, b1), Sextet2(b1, b2), Sextet3(b2));
    ValueOfFew(64, Sextet0(b0), Sextet1(b0, b1), Sextet2(b1, 0), 0);
    ValueOfFew(64, Sextet0(b0), Sextet1(b0, 0), 0, 0);
    ValueOfFew(256, b0, b1, b2, 0);
  }

  /** The sextets of a string of bytes are the digits of its number in base 64, the last group filled up with zero bits. */
  lemma {:induction false} SextetsAreTheNumber(b: Bytes)
    ensures Value(64, Sextets(b)) == Value(256, b) * Scale(|b|)
  {
    hide Sextet0, Sextet1, Sextet2, Sextet3, Value, Pow;
    if |b| >= 3 {
      var rest := b[3..];
      var group: seq<sextet> := [Sextet0(b[0]), Sextet1(b[0], b[1]), Sextet2(b[1], b[2]), Sextet3(b[2])];
      SextetsAreTheNumber(rest);
      SextetPowers(rest);
      GroupIsItsNumber(b[0], b[1], b[2]);
      assert Sextets(b) == group + Sextets(rest) && b == [b[0], b[1], b[2]] + rest;
      ValueAppend(64, group, Sextets(rest));
      ValueAppend(256, [b[0], b[1], b[2]], rest);
      ScaleOut(Value(256, [b[0], b[1], b[2]]), Pow(256, |rest|), Scale(|rest|), Value(256, rest));
    } else {
      FewAreTheNumber(b);
    }
  }

  lemma ScaleOut(v: nat, p: nat, c: nat, r: nat)
    ensures v * (p * c) + r * c == (v * p + r) * c
  {
    MulAssoc(v, p, c);
  }

  lemma FewAreTheNumber(b: Bytes)
    requires |b| < 3
    ensures Value(64, Sextets(b)) == Value(256, b) * Scale(|b|)
  {
    hide Sextet0, Sextet1, Sextet2, Sextet3, Value;
    NoneAreTheNumber();
    if |b| == 1 {
      GroupIsItsNumber(b[0], 0, 0);
      assert b == [b[0]] && Scale(1) == 16;
    } else if |b| == 2 {
      GroupIsItsNumber(b[0], b[1], 0);
      assert b == [b[0], b[1]] && Scale(2) == 4;
    }
  }

  lemma NoneAreTheNumber()
    ensures Value(64, []) == 0 && Value(256, []) == 0
  {
  }

  /** An encoding: its sextets' characters, then as many `=` as make a group of four. */
  lemma EncodeIs(b: Bytes)
    ensures |Encode(b)| == (|b| + 2) / 3 * 4 && |Sextets(b)| == (|b| * 4 + 2) / 3
    ensures forall i :: 0 <= i < |Encode(b)| ==>
      Encode(b)[i] == if i < |Sextets(b)| then Char(Sextets(b)[i]) else '='
  {
    hide Sextets, Char;
    SextetsLength(b);
  }
}

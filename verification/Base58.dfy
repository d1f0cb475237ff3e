/**
 Base58 three times: the in-place carry decoder (xtask/src/main.rs), the length-only one beside it
 (xtask/src/live_values.rs) and the big-integer pair (scripts/live-values-from-chain.py).
 */
module Base58 {
  import opened Wrappers
  import opened Arith
  import opened Bytes
  import opened Alphabets
  import opened Numerals

  const ALPHABET: string :=
    "123456789" + "ABCDEFGH" + "JKLMN" + "PQRSTUVWXYZ" + "abcdefghijk" + "mnopqrstuvwxyz"

  /** The characters the alphabet leaves out are 0, O, I and l. */
  function Symbol(v: nat): char
    requires v < 58
  {
    if v < 9 then '1' + v as char
    else if v < 17 then 'A' + (v - 9) as char
    else if v < 22 then 'J' + (v - 17) as char
    else if v < 33 then 'P' + (v - 22) as char
    else if v < 44 then 'a' + (v - 33) as char
    else 'm' + (v - 44) as char
  }

  lemma Piece1(i: nat) requires i < 9 ensures |"123456789"| == 9 && "123456789"[i] == Symbol(i) {}
  lemma Piece2(i: nat) requires i < 8 ensures |"ABCDEFGH"| == 8 && "ABCDEFGH"[i] == Symbol(9 + i) {}
  lemma Piece3(i: nat) requires i < 5 ensures |"JKLMN"| == 5 && "JKLMN"[i] == Symbol(17 + i) {}
  lemma Piece4(i: nat) requires i < 11 ensures |"PQRSTUVWXYZ"| == 11 && "PQRSTUVWXYZ"[i] == Symbol(22 + i) {}
  lemma Piece5(i: nat) requires i < 11 ensures |"abcdefghijk"| == 11 && "abcdefghijk"[i] == Symbol(33 + i) {}
  lemma Piece6(i: nat) requires i < 14 ensures |"mnopqrstuvwxyz"| == 14 && "mnopqrstuvwxyz"[i] == Symbol(44 + i) {}

  lemma AlphabetIs(i: nat)
    requires i < 58
    ensures |ALPHABET| == 58 && ALPHABET[i] == Symbol(i)
  {
    Piece1(if i < 9 then i else 0);
    Piece2(if 9 <= i < 17 then i - 9 else 0);
    Piece3(if 17 <= i < 22 then i - 17 else 0);
    Piece4(if 22 <= i < 33 then i - 22 else 0);
    Piece5(if 33 <= i < 44 then i - 33 else 0);
    Piece6(if 44 <= i then i - 44 else 0);
  }

  lemma AlphabetIsDistinct()
    ensures |ALPHABET| == 58 && Distinct(ALPHABET) && ALPHABET[0] == '1'
  {
    forall i: nat | i < 58 ensures |ALPHABET| == 58 && ALPHABET[i] == Symbol(i) { AlphabetIs(i); }
    assert |ALPHABET| == 58 by { AlphabetIs(0); }
  }

  // Text as digits

  predicate InAlphabet(text: string) {
    forall i :: 0 <= i < |text| ==> text[i] in ALPHABET
  }

  function DigitsOf(text: string): (r: seq<nat>)
    requires InAlphabet(text)
    ensures |r| == |text| && AreDigits(58, r) && forall i :: 0 <= i < |r| ==> r[i] == IndexOf(ALPHABET, text[i])
  {
    AlphabetIs(0);
    seq(|text|, i requires 0 <= i < |text| => IndexOf(ALPHABET, text[i]))
  }

  function TextOf(ds: seq<nat>): (r: string)
    requires AreDigits(58, ds)
    ensures |r| == |ds|
  {
    AlphabetIs(0);
    seq(|ds|, i requires 0 <= i < |ds| => ALPHABET[ds[i]])
  }

  lemma TextAndDigits(text: string, ds: seq<nat>)
    requires InAlphabet(text) && AreDigits(58, ds)
    ensures TextOf(DigitsOf(text)) == text
    ensures InAlphabet(TextOf(ds)) && DigitsOf(TextOf(ds)) == ds
  {
    AlphabetIsDistinct();
    forall i | 0 <= i < |ds| ensures IndexOf(ALPHABET, ALPHABET[ds[i]]) == ds[i] { IndexOfSymbol(ALPHABET, ds[i]); }
  }

  // What the decoders and the encoder are for

  function AsBytes(ds: seq<nat>): (r: Bytes)
    requires AreDigits(256, ds)
    ensures r == ds
  {
    seq(|ds|, i requires 0 <= i < |ds| => ds[i])
  }

  /** The bytes a text spells: its number in base 256, a zero byte for each leading one. */
  function Decoded(text: string): Option<Bytes> {
    if InAlphabet(text) then Some(AsBytes(Rebase(58, 256, DigitsOf(text)))) else None
  }

  function Encoded(data: Bytes): string {
    TextOf(Rebase(256, 58, data))
  }

  lemma DecodeOfEncode(data: Bytes)
    ensures Decoded(Encoded(data)) == Some(data)
  {
    hide ALPHABET, Rebase;
    TextAndDigits("", Rebase(256, 58, data));
    RebaseInverts(256, 58, data);
  }

  lemma EncodeOfDecode(text: string)
    requires Decoded(text).Some?
    ensures Encoded(Decoded(text).value) == text
  {
    hide ALPHABET, Rebase;
    TextAndDigits(text, []);
    RebaseInverts(58, 256, DigitsOf(text));
  }

  /** Decoding and encoding are mutual inverses: each text spells one byte string and is its spelling. */
  lemma DecodeInvertsEncode(text: string, data: Bytes)
    ensures Decoded(text) == Some(data) <==> Encoded(data) == text
  {
    hide *;
    DecodeOfEncode(data);
    if Decoded(text).Some? { EncodeOfDecode(text); }
  }

  // The in-place carry

  /** One digit: multiply the big-endian bytes by 58 in place, from the right, and add. */
  method MultiplyAdd(bytes: Bytes, value: nat) returns (r: Bytes)
    requires value < 58 && bytes == Minimal(256, Value(256, bytes))
    ensures r == Minimal(256, Value(256, bytes) * 58 + value)
  {
    hide And, Minimal;
    PowConstants();
    r := bytes;
    var carry: nat := value;
    var j := |r|;
    assert bytes[|bytes|..] == [];
    while j > 0
      invariant 0 <= j <= |r| == |bytes|
      invariant carry <= 57
      invariant r[..j] == bytes[..j]
      invariant Value(256, r[j..]) + carry * Pow(256, |r| - j) == Value(256, bytes[j..]) * 58 + value
    {
      j := j - 1;
      ghost var before, carriedIn: nat := r, carry;
      carry := carry + 58 * (r[j] as nat);
      CarryStep(bytes, before, j, carriedIn, value);
      r := r[j := And(carry, 255)];
      carry := Shr(carry, 8);
    }
    assert r[0..] == r && bytes[0..] == bytes;
    ghost var whole, out := r, carry;
    AllButCarry(bytes, r, carry, value);
    // The carry out is at most 57, so it is one byte at most.
    while carry > 0
      invariant carry <= 57
      invariant if carry > 0 then r == whole && carry == out else r == Minimal(256, Value(256, bytes) * 58 + value)
      decreases carry
    {
      AndMask(carry, 8);
      DivModUnique(carry, 256, 0, carry);
      CarryIn(bytes, r, carry, value);
      r := [And(carry, 255)] + r;
      carry := Shr(carry, 8);
    }
  }

  /** One byte of the carry: what it keeps and what it passes on are the product, and no bit is lost. */
  lemma CarryStep(bytes: Bytes, r: Bytes, j: nat, carry: nat, value: nat)
    requires j < |r| == |bytes| && carry <= 57 && r[..j + 1] == bytes[..j + 1]
    requires Value(256, r[j + 1..]) + carry * Pow(256, |r| - (j + 1)) == Value(256, bytes[j + 1..]) * 58 + value
    ensures var c := carry + 58 * (r[j] as nat);
      && c < 0x1_0000_0000 && Shr(c, 8) <= 57 && 0 <= And(c, 255) < 256
      && Value(256, r[j := And(c, 255)][j..]) + Shr(c, 8) * Pow(256, |r| - j) == Value(256, bytes[j..]) * 58 + value
  {
    hide And;
    var c: nat, p := carry + 58 * (r[j] as nat), Pow(256, |r| - (j + 1));
    PowConstants();
    AndMask(c, 8);
    var r' := r[j := c % 256];
    assert r'[j..] == [c % 256] + r[j + 1..];
    assert bytes[j..] == [bytes[j]] + bytes[j + 1..] && bytes[j] == bytes[..j + 1][j] == r[j];
    ValueCons(256, c % 256, r[j + 1..]);
    ValueCons(256, bytes[j], bytes[j + 1..]);
    CarryArithmetic(c, p, r[j], carry);
  }

  lemma CarryArithmetic(c: nat, p: nat, digit: nat, carry: nat)
    requires c == carry + 58 * digit
    ensures c % 256 * p + c / 256 * (256 * p) == carry * p + digit * p * 58
  {
    assert c / 256 * (256 * p) == (c / 256 * 256) * p;
    assert c % 256 * p + (c / 256 * 256) * p == c * p;
    assert c * p == carry * p + 58 * digit * p;
  }

  /** When nothing is carried out the bytes are the product already, and still without a leading zero. */
  lemma AllButCarry(bytes: Bytes, r: Bytes, carry: nat, value: nat)
    requires |r| == |bytes| && bytes == Minimal(256, Value(256, bytes)) && value < 58
    requires Value(256, r) + carry * Pow(256, |r|) == Value(256, bytes) * 58 + value
    ensures carry == 0 ==> r == Minimal(256, Value(256, bytes) * 58 + value)
  {
    hide Minimal;
    if carry == 0 && r != [] && r[0] == 0 {
      assert r == [0] + r[1..] && bytes == [bytes[0]] + bytes[1..];
      ValueCons(256, 0, r[1..]);
      ValueCons(256, bytes[0], bytes[1..]);
      ValueBound(256, r[1..]);
      MinimalHasNoZero(bytes);
      MulMono(1, bytes[0], Pow(256, |bytes| - 1));
    }
    if carry == 0 { MinimalOfValue(256, r); }
  }

  lemma MinimalHasNoZero(bytes: Bytes)
    requires bytes == Minimal(256, Value(256, bytes)) && bytes != []
    ensures bytes[0] > 0
  {
  }

  /** A carry out becomes the new first byte. */
  lemma CarryIn(bytes: Bytes, r: Bytes, carry: nat, value: nat)
    requires 0 < carry <= 57
    requires Value(256, r) + carry * Pow(256, |r|) == Value(256, bytes) * 58 + value
    ensures [carry] + r == Minimal(256, Value(256, bytes) * 58 + value)
  {
    ValueCons(256, carry, r);
    MinimalOfValue(256, [carry] + r);
  }

  // The three decoders

  predicate Leads(text: string, n: nat) {
    n <= |text| && (forall i :: 0 <= i < n ==> text[i] == '1') && (n < |text| ==> text[n] != '1')
  }

  method LeadingOnes(text: string) returns (n: nat)
    ensures Leads(text, n)
  {
    n := 0;
    while n < |text| && text[n] == '1'
      invariant n <= |text| && forall i :: 0 <= i < n ==> text[i] == '1'
    {
      n := n + 1;
    }
  }

  /** Leading ones are leading zero digits. */
  lemma LeadingOnesAreZeros(text: string, n: nat)
    requires InAlphabet(text) && Leads(text, n)
    ensures n == LeadingZeros(DigitsOf(text))
  {
    AlphabetIsDistinct();
    IndexOfSymbol(ALPHABET, 0);
    var ds := DigitsOf(text);
    var z := LeadingZeros(ds);
    forall i | 0 <= i < |text| ensures ds[i] == 0 <==> text[i] == '1' {
      assert ALPHABET[ds[i]] == text[i];
    }
  }

  lemma PrefixValue(text: string, i: nat)
    requires i < |text| && InAlphabet(text[..i + 1])
    ensures InAlphabet(text[..i])
    ensures Value(58, DigitsOf(text[..i + 1])) == Value(58, DigitsOf(text[..i])) * 58 + IndexOf(ALPHABET, text[i])
  {
    hide ALPHABET, IndexOf;
    assert forall k :: 0 <= k < i ==> text[..i][k] == text[..i + 1][k];
    var ds := DigitsOf(text[..i + 1]);
    assert ds[..i] == DigitsOf(text[..i]);
  }

  /** The bytes of the accumulation alone, or none at the first character outside the alphabet. */
  method Accumulate(text: string) returns (r: Option<Bytes>)
    ensures r == if InAlphabet(text) then Some(AsBytes(Minimal(256, Value(58, DigitsOf(text))))) else None
  {
    hide ALPHABET, Value, Minimal;
    var bytes: Bytes := [];
    EmptyValue();
    assert text[..0] == [];
    for i := 0 to |text|
      invariant InAlphabet(text[..i])
      invariant bytes == Minimal(256, Value(58, DigitsOf(text[..i])))
    {
      AlphabetIs(0);
      var value := IndexOf(ALPHABET, text[i]);
      if value < 0 { return None; }
      assert text[..i + 1] == text[..i] + [text[i]];
      PrefixValue(text, i);
      ValueOfMinimal(256, Value(58, DigitsOf(text[..i])));
      bytes := MultiplyAdd(bytes, value);
    }
    assert text[..|text|] == text;
    return Some(bytes);
  }

  lemma EmptyValue()
    ensures DigitsOf("") == [] && Value(58, []) == 0 && Minimal(256, 0) == []
  {
  }

  datatype Panic = NotADigit | NotThirtyTwoBytes(found: nat)

  /** The in-place decoder: exactly the bytes the text spells, provided they are 32. */
  method DecodeInPlace(text: string) returns (r: Result<Bytes, Panic>)
    ensures match Decoded(text)
      case None => r == Err(NotADigit)
      case Some(b) => r == if |b| == 32 then Ok(b) else Err(NotThirtyTwoBytes(|b|))
  {
    hide ALPHABET, Value, Minimal;
    var bytes := Accumulate(text);
    if bytes.None? { return Err(NotADigit); }
    var zeros := LeadingOnes(text);
    LeadingOnesAreZeros(text, zeros);
    var out: Bytes := seq(zeros, _ => 0);
    out := out + bytes.value;
    assert out == Decoded(text).value;
    return if |out| != 32 then Err(NotThirtyTwoBytes(|out|)) else Ok(out);
  }

  /** The length-only decoder: the length of the bytes the text spells. */
  method DecodedLength(text: string) returns (r: Option<nat>)
    ensures match Decoded(text) case None => r == None case Some(b) => r == Some(|b|)
  {
    hide ALPHABET, Value, Minimal;
    var bytes := Accumulate(text);
    if bytes.None? { return None; }
    var zeros := LeadingOnes(text);
    LeadingOnesAreZeros(text, zeros);
    return Some(|bytes.value| + zeros);
  }

  function BitLength(n: nat): nat {
    if n == 0 then 0 else 1 + BitLength(n / 2)
  }

  /** The big-endian bytes of a number in a given number of places. */
  function ToBytes(n: nat, places: nat): (r: Bytes)
    ensures |r| == places
  {
    if places == 0 then [] else ToBytes(n / 256, places - 1) + [n % 256]
  }

  lemma BitsPerByte(n: nat)
    ensures n >= 256 ==> BitLength(n) == 8 + BitLength(n / 256)
    ensures 0 < n < 256 ==> 1 <= BitLength(n) <= 8
  {
    hide BitLength;
    FourBits(n);
    FourBits(n / 16);
    DivModUnique(n, 256, n / 16 / 16, n / 16 % 16 * 16 + n % 16);
    if 0 < n < 16 { BitsOfZero(); }
  }

  lemma BitsOfZero()
    ensures BitLength(0) == 0
  {
  }

  lemma FourBits(n: nat)
    ensures n >= 16 ==> BitLength(n) == 4 + BitLength(n / 16)
    ensures 0 < n < 16 ==> 1 <= BitLength(n) <= 4
  {
    var a := n / 2;
    var b := a / 2;
    var c := b / 2;
    assert c / 2 == n / 16;
    assert n > 0 ==> BitLength(n) == 1 + BitLength(a);
    assert a > 0 ==> BitLength(a) == 1 + BitLength(b);
    assert b > 0 ==> BitLength(b) == 1 + BitLength(c);
    assert c > 0 ==> BitLength(c) == 1 + BitLength(c / 2);
  }

  /** Rounding the bit length up to bytes is exactly the room the number needs. */
  lemma {:induction false} ToBytesIsMinimal(n: nat)
    ensures ToBytes(n, (BitLength(n) + 7) / 8) == Minimal(256, n)
    decreases n
  {
    if n > 0 {
      BitsPerByte(n);
      ToBytesIsMinimal(n / 256);
      if n < 256 { assert n / 256 == 0; }
    }
  }

  /** The big-integer decoder agrees with the in-place one on every text. */
  method DecodeBigInteger(text: string) returns (r: Option<Bytes>)
    ensures r == Decoded(text)
  {
    hide ALPHABET, Minimal, BitLength;
    var n: nat := 0;
    assert text[..0] == [];
    for i := 0 to |text|
      invariant InAlphabet(text[..i])
      invariant n == Value(58, DigitsOf(text[..i]))
    {
      AlphabetIs(0);
      var index := IndexOf(ALPHABET, text[i]);
      if index < 0 { return None; }
      assert text[..i + 1] == text[..i] + [text[i]];
      PrefixValue(text, i);
      n := n * 58 + index;
    }
    assert text[..|text|] == text;
    var body := ToBytes(n, (BitLength(n) + 7) / 8);
    ToBytesIsMinimal(n);
    var leading := LeadingOnes(text);
    LeadingOnesAreZeros(text, leading);
    var zeros: Bytes := seq(leading, _ => 0);
    return Some(zeros + body);
  }

  // The big-integer encoder

  function Reversed(s: string): (r: string)
    ensures |r| == |s| && forall i :: 0 <= i < |s| ==> r[i] == s[|s| - 1 - i]
  {
    seq(|s|, i requires 0 <= i < |s| => s[|s| - 1 - i])
  }

  /** Dividing down, then a leading character for each zero byte, then reversing. */
  method EncodeBigInteger(data: Bytes) returns (text: string)
    ensures text == Encoded(data)
  {
    hide ALPHABET, Minimal, Value;
    AlphabetIs(0);
    var n := Value(256, data);
    var out := "";
    ghost var rest: seq<nat> := [];
    while n > 0
      invariant AreDigits(58, rest) && Reversed(out) == TextOf(rest)
      invariant Minimal(58, n) + rest == Minimal(58, Value(256, data))
      decreases n
    {
      DivMod(n, 58);
      MinimalUnrolled(n);
      assert Reversed(out + [ALPHABET[n % 58]]) == [ALPHABET[n % 58]] + Reversed(out);
      out := out + [ALPHABET[n % 58]];
      rest := [n % 58] + rest;
      n := n / 58;
    }
    MinimalUnrolled(0);
    var i := 0;
    while i < |data| && data[i] == 0
      invariant i <= LeadingZeros(data)
      invariant Reversed(out) == TextOf(Zeros(i) + rest)
      decreases |data| - i
    {
      assert Reversed(out + [ALPHABET[0]]) == [ALPHABET[0]] + Reversed(out);
      assert Zeros(i + 1) + rest == [0] + (Zeros(i) + rest);
      out := out + [ALPHABET[0]];
      i := i + 1;
    }
    text := Reversed(out);
  }

  lemma MinimalUnrolled(n: nat)
    ensures n == 0 ==> Minimal(58, n) == []
    ensures n > 0 ==> Minimal(58, n) == Minimal(58, n / 58) + [n % 58]
  {
  }

  // The spelling, as numbers

  /** The 58 characters, by their codes: digits and letters without 0, I, O and l. */
  lemma AlphabetCodes(v: nat)
    requires v < 58
    ensures |ALPHABET| == 58 && ALPHABET[v] as int ==
      if v < 9 then 0x31 + v else if v < 17 then 0x41 + v - 9 else if v < 22 then 0x4a + v - 17
      else if v < 33 then 0x50 + v - 22 else if v < 44 then 0x61 + v - 33 else 0x6d + v - 44
  {
    AlphabetIs(v);
  }

  /** A text is decoded to its number's bytes, most significant first, after a zero byte for each leading one. */
  lemma DecodedIs(text: string)
    ensures Decoded(text).Some? <==> forall i :: 0 <= i < |text| ==> text[i] in ALPHABET
    ensures Decoded(text).Some? ==>
      var b, ds := Decoded(text).value, DigitsOf(text);
      var z := LeadingZeros(ds);
      Value(256, b) == Value(58, ds) && z <= |b| && Leads(text, z)
      && (forall i :: 0 <= i < z ==> b[i] == 0) && (z < |b| ==> b[z] > 0)
  {
    hide ALPHABET, Value, Minimal;
    if InAlphabet(text) {
      var ds := DigitsOf(text);
      var z, n := LeadingZeros(ds), Value(58, ds);
      ZerosAddNothing(256, z, Minimal(256, n));
      ValueOfMinimal(256, n);
      ZerosAreOnes(text, z);
    }
  }

  lemma ZerosAreOnes(text: string, z: nat)
    requires InAlphabet(text) && z == LeadingZeros(DigitsOf(text))
    ensures Leads(text, z)
  {
    AlphabetIsDistinct();
    IndexOfSymbol(ALPHABET, 0);
    var ds := DigitsOf(text);
    forall i | 0 <= i < |text| ensures ds[i] == 0 <==> text[i] == '1' {
      assert ALPHABET[ds[i]] == text[i];
    }
  }
}

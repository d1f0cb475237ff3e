/** The tagged preimages of ts/src/preimage.ts: one sink, nine writers, one injective encoding. */
module Preimages {
  import opened Wrappers
  import opened Bytes

  const MAX_PREIMAGE_LEN: nat := 256
  const TAG_LEN: nat := 8

  predicate IsAscii(s: string) {
    forall i :: 0 <= i < |s| ==> s[i] < 128 as char
  }

  function Ascii(s: string): (r: Bytes)
    requires IsAscii(s)
    ensures |r| == |s|
  {
    seq(|s|, i requires 0 <= i < |s| => s[i] as int)
  }

  const TAG_ASSET: Bytes := Ascii("CMv1ASST")
  const TAG_LEAF: Bytes := Ascii("CMv1LEAF")
  const TAG_HEAD: Bytes := Ascii("CMv1HEAD")
  const TAG_MTL0: Bytes := Ascii("CMv1MTL0")
  const TAG_MTN1: Bytes := Ascii("CMv1MTN1")
  const TAG_PAD: Bytes := Ascii("CMv1PADD")
  const TAG_PRF: Bytes := Ascii("CMv1PRF0")
  const TAG_SPI: Bytes := Ascii("CMv1SPI0")

  // The sink

  /** What building a preimage gives: the tag and the fields end to end, unless they pass the limit. */
  function Built(tag: Bytes, fields: seq<Bytes>): Result<Bytes, Failure> {
    var all := tag + Flatten(fields);
    if |all| > MAX_PREIMAGE_LEN then Err(RecordTooLarge) else Ok(all)
  }

  class PreimageSink {
    var parts: seq<Bytes>
    var len: nat

    ghost predicate Valid()
      reads this
    {
      len == |Contents()| <= MAX_PREIMAGE_LEN
    }

    ghost function Contents(): Bytes
      reads this
    {
      Flatten(parts)
    }

    constructor ()
      ensures Valid() && Contents() == []
    {
      parts, len := [], 0;
    }

    /** Appends, or refuses and leaves the sink as it was. */
    method Write(bytes: Bytes) returns (r: Result<(), Failure>)
      requires Valid()
      modifies this
      ensures Valid()
      ensures r.Ok? <==> |old(Contents())| + |bytes| <= 256
      ensures r.Err? ==> r.error == RecordTooLarge
      ensures Contents() == if r.Ok? then old(Contents()) + bytes else old(Contents())
    {
      if len + |bytes| > MAX_PREIMAGE_LEN { return Err(RecordTooLarge); }
      FlattenSnoc(parts, bytes);
      parts := parts + [bytes];
      len := len + |bytes|;
      return Ok(());
    }

    method ToBytes() returns (r: Bytes)
      ensures r == Contents()
    {
      r := Concat(parts);
    }
  }

  lemma FieldAdded(tag: Bytes, fields: seq<Bytes>, i: nat)
    requires i < |fields|
    ensures tag + Flatten(fields[..i]) + fields[i] == tag + Flatten(fields[..i + 1])
    ensures |tag + Flatten(fields[..i + 1])| <= |tag + Flatten(fields)|
  {
    assert fields[..i + 1] == fields[..i] + [fields[i]];
    FlattenSnoc(fields[..i], fields[i]);
    FlattenPrefix(fields, i + 1);
  }

  /** Writing field by field stops at the first field past the limit, and agrees with the total. */
  method BuildPreimage(tag: Bytes, fields: seq<Bytes>) returns (r: Result<Bytes, Failure>)
    ensures r == Built(tag, fields)
  {
    var sink := new PreimageSink();
    var w := sink.Write(tag);
    if w.Err? { return Err(w.error); }
    ghost var done := tag;
    assert fields[..0] == [] && sink.Contents() == done;
    for i := 0 to |fields|
      invariant fresh(sink) && sink.Valid()
      invariant sink.Contents() == done
      invariant done == tag + Flatten(fields[..i])
    {
      FieldAdded(tag, fields, i);
      w := sink.Write(fields[i]);
      if w.Err? { return Err(w.error); }
      done := done + fields[i];
    }
    assert fields[..|fields|] == fields;
    var all := sink.ToBytes();
    return Ok(all);
  }

  function Fixed(b: Bytes, len: nat): Result<Bytes, Failure> {
    if |b| == len then Ok(b) else Err(MalformedPayload)
  }

  /** The bytes after the tag, when the tag is the expected one. */
  function ReadTagged(preimage: Bytes, expectedTag: Bytes): Result<Bytes, Failure> {
    if |preimage| < TAG_LEN then Err(MalformedPayload)
    else if preimage[..TAG_LEN] != expectedTag then Err(DomainTagMismatch)
    else Ok(preimage[TAG_LEN..])
  }

  // The nine writers

  datatype LeafFields = LeafFields(
    seqNo: int, payloadDigest: Bytes, assessmentDigest: Bytes, qpKey: Bytes,
    category: int, effectiveAt: int, changeIdentifiedAt: int)

  datatype PromiseFields = PromiseFields(
    leaf: Bytes, submissionId: Bytes, acceptedEpoch: int, promisedEpoch: int, maxMergeDelay: int)

  function AssetPreimage(j: Bytes, r: Bytes, tenure: Bytes): Result<Bytes, Failure> {
    var j :- Fixed(j, 4);
    var r :- Fixed(r, 8);
    if |tenure| < 1 || |tenure| > 64 then Err(CanonicalizationFailed)
    else
      var n :- U16le(|tenure|);
      Built(TAG_ASSET, [j, r, n, tenure])
  }

  function GenesisHeadPreimage(c: Bytes, schemaVersion: int): Result<Bytes, Failure> {
    var c :- Fixed(c, 32);
    var v :- U16le(schemaVersion);
    Built(TAG_HEAD, [c, v])
  }

  function LeafPreimage(c: Bytes, f: LeafFields): Result<Bytes, Failure> {
    if f.category < 0 || f.category > 255 then Err(MalformedPayload)
    else
      var c :- Fixed(c, 32);
      var n :- U64le(f.seqNo);
      var p :- Fixed(f.payloadDigest, 32);
      var a :- Fixed(f.assessmentDigest, 32);
      var q :- Fixed(f.qpKey, 32);
      var e :- I64le(f.effectiveAt);
      var i :- I64le(f.changeIdentifiedAt);
      Built(TAG_LEAF, [c, n, p, a, q, [f.category], e, i])
  }

  function StepHeadPreimage(prevHead: Bytes, leaf: Bytes): Result<Bytes, Failure> {
    var h :- Fixed(prevHead, 32);
    var l :- Fixed(leaf, 32);
    Built(TAG_HEAD, [h, l])
  }

  function RealLeafPreimage(leaf: Bytes): Result<Bytes, Failure> {
    var l :- Fixed(leaf, 32);
    Built(TAG_MTL0, [l])
  }

  function PaddingLeafPreimage(prfOutput: Bytes): Result<Bytes, Failure> {
    var o :- Fixed(prfOutput, 32);
    Built(TAG_PAD, [o])
  }

  function NodePreimage(left: Bytes, right: Bytes): Result<Bytes, Failure> {
    var l :- Fixed(left, 32);
    var r :- Fixed(right, 32);
    Built(TAG_MTN1, [l, r])
  }

  function PrfPreimage(k: Bytes, x: Bytes): Result<Bytes, Failure> {
    var k :- Fixed(k, 32);
    var n :- U16le(|x|);
    Built(TAG_PRF, [k, n, x])
  }

  function SpiPreimage(p: PromiseFields): Result<Bytes, Failure> {
    if p.maxMergeDelay < 0 || p.maxMergeDelay > 255 then Err(MalformedPayload)
    else
      var l :- Fixed(p.leaf, 32);
      var s :- Fixed(p.submissionId, 16);
      var a :- U64le(p.acceptedEpoch);
      var e :- U64le(p.promisedEpoch);
      Built(TAG_SPI, [l, s, a, e, [p.maxMergeDelay]])
  }

  // The tagged union of everything the writers encode

  datatype Message =
    | Asset(j: Bytes, r: Bytes, tenure: Bytes)
    | GenesisHead(c: Bytes, schemaVersion: int)
    | Leaf(asset: Bytes, fields: LeafFields)
    | StepHead(prevHead: Bytes, stepLeaf: Bytes)
    | RealLeaf(chainLeaf: Bytes)
    | PaddingLeaf(prfOutput: Bytes)
    | Node(left: Bytes, right: Bytes)
    | Prf(key: Bytes, input: Bytes)
    | Spi(promise: PromiseFields)

  function Encode(m: Message): Result<Bytes, Failure> {
    match m
    case Asset(j, r, t) => AssetPreimage(j, r, t)
    case GenesisHead(c, v) => GenesisHeadPreimage(c, v)
    case Leaf(c, f) => LeafPreimage(c, f)
    case StepHead(h, l) => StepHeadPreimage(h, l)
    case RealLeaf(l) => RealLeafPreimage(l)
    case PaddingLeaf(o) => PaddingLeafPreimage(o)
    case Node(l, r) => NodePreimage(l, r)
    case Prf(k, x) => PrfPreimage(k, x)
    case Spi(p) => SpiPreimage(p)
  }

  /** What each writer demands of its fields. */
  predicate WellFormed(m: Message) {
    match m
    case Asset(j, r, t) => |j| == 4 && |r| == 8 && 1 <= |t| <= 64
    case GenesisHead(c, v) => |c| == 32 && FitsU16(v)
    case Leaf(c, f) =>
      |c| == |f.payloadDigest| == |f.assessmentDigest| == |f.qpKey| == 32 && FitsU64(f.seqNo)
      && 0 <= f.category <= 255 && FitsI64(f.effectiveAt) && FitsI64(f.changeIdentifiedAt)
    case StepHead(h, l) => |h| == |l| == 32
    case RealLeaf(l) => |l| == 32
    case PaddingLeaf(o) => |o| == 32
    case Node(l, r) => |l| == |r| == 32
    case Prf(k, x) => |k| == 32 && |x| <= 214
    case Spi(p) =>
      |p.leaf| == 32 && |p.submissionId| == 16 && FitsU64(p.acceptedEpoch) && FitsU64(p.promisedEpoch)
      && 0 <= p.maxMergeDelay <= 255
  }

  function TagOf(m: Message): Bytes {
    match m
    case Asset(_, _, _) => TAG_ASSET
    case GenesisHead(_, _) => TAG_HEAD
    case Leaf(_, _) => TAG_LEAF
    case StepHead(_, _) => TAG_HEAD
    case RealLeaf(_) => TAG_MTL0
    case PaddingLeaf(_) => TAG_PAD
    case Node(_, _) => TAG_MTN1
    case Prf(_, _) => TAG_PRF
    case Spi(_) => TAG_SPI
  }

  function FieldsOf(m: Message): (r: seq<Bytes>)
    requires WellFormed(m)
  {
    match m
    case Asset(j, r, t) => [j, r, LE(|t|, 2), t]
    case GenesisHead(c, v) => [c, LE(v, 2)]
    case Leaf(c, f) =>
      [c, LE(f.seqNo, 8), f.payloadDigest, f.assessmentDigest, f.qpKey, [f.category],
       LE(Unsigned64(f.effectiveAt), 8), LE(Unsigned64(f.changeIdentifiedAt), 8)]
    case StepHead(h, l) => [h, l]
    case RealLeaf(l) => [l]
    case PaddingLeaf(o) => [o]
    case Node(l, r) => [l, r]
    case Prf(k, x) => [k, LE(|x|, 2), x]
    case Spi(p) => [p.leaf, p.submissionId, LE(p.acceptedEpoch, 8), LE(p.promisedEpoch, 8), [p.maxMergeDelay]]
  }

  /** The preimage bytes of a message every field of which its writer accepts. */
  function Layout(m: Message): Bytes
    requires WellFormed(m)
  {
    TagOf(m) + Flatten(FieldsOf(m))
  }

  function LayoutLength(m: Message): nat {
    match m
    case Asset(_, _, t) => 22 + |t|
    case GenesisHead(_, _) => 42
    case Leaf(_, _) => 161
    case StepHead(_, _) => 72
    case RealLeaf(_) => 40
    case PaddingLeaf(_) => 40
    case Node(_, _) => 72
    case Prf(_, x) => 42 + |x|
    case Spi(_) => 73
  }

  function TotalLength(parts: seq<Bytes>): nat {
    if parts == [] then 0 else |parts[0]| + TotalLength(parts[1..])
  }

  lemma {:induction false} FlattenLength(parts: seq<Bytes>)
    ensures |Flatten(parts)| == TotalLength(parts)
  {
    if parts != [] { FlattenLength(parts[1..]); }
  }

  /** Unrolls the length of a short field list. */
  lemma LengthOfFields(parts: seq<Bytes>)
    requires |parts| <= 8
    ensures |Flatten(parts)| ==
      (if |parts| > 0 then |parts[0]| else 0) + (if |parts| > 1 then |parts[1]| else 0)
      + (if |parts| > 2 then |parts[2]| else 0) + (if |parts| > 3 then |parts[3]| else 0)
      + (if |parts| > 4 then |parts[4]| else 0) + (if |parts| > 5 then |parts[5]| else 0)
      + (if |parts| > 6 then |parts[6]| else 0) + (if |parts| > 7 then |parts[7]| else 0)
  {
    FlattenLength(parts);
    if |parts| > 1 { LengthOfFields(parts[1..]); FlattenLength(parts[1..]); }
  }

  lemma TagHasLength(m: Message)
    ensures |TagOf(m)| == TAG_LEN
  {
  }

  lemma LayoutHasLength(m: Message)
    requires WellFormed(m)
    ensures |Layout(m)| == LayoutLength(m) <= 256
  {
    hide Flatten, TagOf, LE;
    TagHasLength(m);
    LengthOfFields(FieldsOf(m));
  }

  /** A layout is its tag, then its fields. */
  lemma LayoutSplits(m: Message)
    requires WellFormed(m)
    ensures |Layout(m)| >= TAG_LEN && Layout(m)[..TAG_LEN] == TagOf(m) && Layout(m)[TAG_LEN..] == Flatten(FieldsOf(m))
  {
    hide Flatten, TagOf, FieldsOf, WellFormed;
    TagHasLength(m);
  }

  /** A writer accepts exactly its well-formed fields, and then emits their layout. */
  lemma EncodeIsLayout(m: Message)
    ensures Encode(m).Ok? <==> WellFormed(m)
    ensures WellFormed(m) ==> Encode(m) == Ok(Layout(m))
  {
    hide Flatten, LE, Unsigned64, TAG_ASSET, TAG_LEAF, TAG_HEAD, TAG_MTL0, TAG_MTN1, TAG_PAD, TAG_PRF, TAG_SPI;
    TagHasLength(m);
    if WellFormed(m) {
      LayoutHasLength(m);
    } else if m.Prf? && |m.key| == 32 && FitsU16(|m.input|) {
      LengthOfFields([m.key, LE(|m.input|, 2), m.input]);
    }
  }

  lemma {:induction false} FlattenInjective(ps: seq<Bytes>, qs: seq<Bytes>)
    requires |ps| == |qs| && Flatten(ps) == Flatten(qs)
    requires forall i :: 0 <= i < |ps| ==> |ps[i]| == |qs[i]|
    ensures ps == qs
  {
    if ps != [] {
      assert ps[0] == Flatten(ps)[..|ps[0]|] == qs[0];
      assert Flatten(ps[1..]) == Flatten(ps)[|ps[0]|..] == Flatten(qs[1..]);
      FlattenInjective(ps[1..], qs[1..]);
      assert ps == [ps[0]] + ps[1..] && qs == [qs[0]] + qs[1..];
    }
  }

  lemma TagLetters(m: Message)
    ensures |TagOf(m)| == TAG_LEN
    ensures (TagOf(m)[4], TagOf(m)[5], TagOf(m)[6]) ==
      match m
      case Asset(_, _, _) => ('A' as int, 'S' as int, 'S' as int)
      case GenesisHead(_, _) => ('H' as int, 'E' as int, 'A' as int)
      case Leaf(_, _) => ('L' as int, 'E' as int, 'A' as int)
      case StepHead(_, _) => ('H' as int, 'E' as int, 'A' as int)
      case RealLeaf(_) => ('M' as int, 'T' as int, 'L' as int)
      case PaddingLeaf(_) => ('P' as int, 'A' as int, 'D' as int)
      case Node(_, _) => ('M' as int, 'T' as int, 'N' as int)
      case Prf(_, _) => ('P' as int, 'R' as int, 'F' as int)
      case Spi(_) => ('S' as int, 'P' as int, 'I' as int)
  {
  }

  /** Eight tags, told apart by their fifth, sixth and seventh characters. */
  lemma TagsDiffer(m: Message, n: Message)
    requires TagOf(m) == TagOf(n)
    ensures m.GenesisHead? || m.StepHead? <==> n.GenesisHead? || n.StepHead?
    ensures m.Asset? <==> n.Asset?
    ensures m.Leaf? <==> n.Leaf?
    ensures m.RealLeaf? <==> n.RealLeaf?
    ensures m.PaddingLeaf? <==> n.PaddingLeaf?
    ensures m.Node? <==> n.Node?
    ensures m.Prf? <==> n.Prf?
    ensures m.Spi? <==> n.Spi?
  {
    hide TagOf;
    TagLetters(m);
    TagLetters(n);
  }

  /** Equal preimages come from one writer and one list of field values. */
  lemma JointlyInjective(m: Message, n: Message)
    requires WellFormed(m) && WellFormed(n) && Layout(m) == Layout(n)
    ensures m == n
  {
    hide Layout, Flatten, TagOf, FieldsOf, WellFormed, LayoutLength;
    LayoutHasLength(m);
    LayoutHasLength(n);
    LayoutSplits(m);
    LayoutSplits(n);
    SameShape(m, n);
    FlattenInjective(FieldsOf(m), FieldsOf(n));
    FieldsInjective(m, n);
  }

  /** One tag and one total length leave one list of field lengths. */
  lemma SameShape(m: Message, n: Message)
    requires WellFormed(m) && WellFormed(n)
    requires TagOf(m) == TagOf(n) && LayoutLength(m) == LayoutLength(n)
    ensures |FieldsOf(m)| == |FieldsOf(n)|
    ensures forall i :: 0 <= i < |FieldsOf(m)| ==> |FieldsOf(m)[i]| == |FieldsOf(n)[i]|
  {
    TagsDiffer(m, n);
  }

  lemma FieldsInjective(m: Message, n: Message)
    requires WellFormed(m) && WellFormed(n) && FieldsOf(m) == FieldsOf(n)
    requires TagOf(m) == TagOf(n) && LayoutLength(m) == LayoutLength(n)
    ensures m == n
  {
    TagsDiffer(m, n);
    var ps, qs := FieldsOf(m), FieldsOf(n);
    match m {
      case Asset(_, _, _) =>
        assert ps[0] == qs[0] && ps[1] == qs[1] && ps[3] == qs[3];
      case GenesisHead(_, v) =>
        assert ps[0] == qs[0] && ps[1] == qs[1];
        U16Injective(v, n.schemaVersion);
      case Leaf(_, f) =>
        assert ps[0] == qs[0] && ps[1] == qs[1] && ps[2] == qs[2] && ps[3] == qs[3];
        assert ps[4] == qs[4] && ps[5][0] == qs[5][0] && ps[6] == qs[6] && ps[7] == qs[7];
        U64Injective(f.seqNo, n.fields.seqNo);
        I64Injective(f.effectiveAt, n.fields.effectiveAt);
        I64Injective(f.changeIdentifiedAt, n.fields.changeIdentifiedAt);
      case StepHead(_, _) => assert ps[0] == qs[0] && ps[1] == qs[1];
      case RealLeaf(_) => assert ps[0] == qs[0];
      case PaddingLeaf(_) => assert ps[0] == qs[0];
      case Node(_, _) => assert ps[0] == qs[0] && ps[1] == qs[1];
      case Prf(_, _) => assert ps[0] == qs[0] && ps[2] == qs[2];
      case Spi(p) =>
        assert ps[0] == qs[0] && ps[1] == qs[1] && ps[2] == qs[2] && ps[3] == qs[3] && ps[4][0] == qs[4][0];
        U64Injective(p.acceptedEpoch, n.promise.acceptedEpoch);
        U64Injective(p.promisedEpoch, n.promise.promisedEpoch);
    }
  }

  /** Reading under a tag accepts exactly the strings that begin with it, and gives the rest. */
  lemma ReadTaggedExactly(preimage: Bytes, tag: Bytes, rest: Bytes)
    requires |tag| == TAG_LEN
    ensures ReadTagged(preimage, tag) == Ok(rest) <==> preimage == tag + rest
    ensures ReadTagged(preimage, tag) == Err(MalformedPayload) <==> |preimage| < TAG_LEN
    ensures ReadTagged(preimage, tag).Err? ==> |preimage| < TAG_LEN || ReadTagged(preimage, tag).error == DomainTagMismatch
  {
    if |preimage| >= TAG_LEN { assert preimage == preimage[..TAG_LEN] + preimage[TAG_LEN..]; }
  }

  /** What any writer wrote is read under its own tag as its fields, and under no other. */
  lemma ReadTaggedIsExact(m: Message, other: Message)
    requires WellFormed(m)
    ensures ReadTagged(Layout(m), TagOf(other)) ==
      if TagOf(m) == TagOf(other) then Ok(Flatten(FieldsOf(m))) else Err(DomainTagMismatch)
  {
    hide Layout, Flatten, TagOf, FieldsOf, WellFormed;
    LayoutSplits(m);
  }

  // The wire format, spelled out

  /** One part comes right after what is before it, and the rest after that. */
  lemma PartFollows(before: Bytes, parts: seq<Bytes>, k: nat)
    requires k < |parts|
    ensures before + Flatten(parts[k..]) == before + parts[k] + Flatten(parts[k + 1..])
  {
    assert parts[k..][0] == parts[k] && parts[k..][1..] == parts[k + 1..];
  }

  lemma PartsEnd(before: Bytes, parts: seq<Bytes>)
    ensures before + Flatten(parts[|parts|..]) == before
  {
  }

  /** The three tags the chain is hashed under, and the five others. */
  lemma TagsAre()
    ensures TAG_ASSET == [0x43, 0x4d, 0x76, 0x31, 0x41, 0x53, 0x53, 0x54]
    ensures TAG_LEAF == [0x43, 0x4d, 0x76, 0x31, 0x4c, 0x45, 0x41, 0x46]
    ensures TAG_HEAD == [0x43, 0x4d, 0x76, 0x31, 0x48, 0x45, 0x41, 0x44]
    ensures TAG_MTL0 == [0x43, 0x4d, 0x76, 0x31, 0x4d, 0x54, 0x4c, 0x30]
    ensures TAG_MTN1 == [0x43, 0x4d, 0x76, 0x31, 0x4d, 0x54, 0x4e, 0x31]
    ensures TAG_PAD == [0x43, 0x4d, 0x76, 0x31, 0x50, 0x41, 0x44, 0x44]
    ensures TAG_PRF == [0x43, 0x4d, 0x76, 0x31, 0x50, 0x52, 0x46, 0x30]
    ensures TAG_SPI == [0x43, 0x4d, 0x76, 0x31, 0x53, 0x50, 0x49, 0x30]
  {
  }

  /** Byte for byte, what each writer emits. */
  lemma LayoutsAre(m: Message)
    requires WellFormed(m)
    ensures Layout(m) ==
      match m
      case Asset(j, r, t) => TAG_ASSET + j + r + LE(|t|, 2) + t
      case GenesisHead(c, v) => TAG_HEAD + c + LE(v, 2)
      case Leaf(c, f) =>
        TAG_LEAF + c + LE(f.seqNo, 8) + f.payloadDigest + f.assessmentDigest + f.qpKey + [f.category]
        + LE(Unsigned64(f.effectiveAt), 8) + LE(Unsigned64(f.changeIdentifiedAt), 8)
      case StepHead(h, l) => TAG_HEAD + h + l
      case RealLeaf(l) => TAG_MTL0 + l
      case PaddingLeaf(o) => TAG_PAD + o
      case Node(l, r) => TAG_MTN1 + l + r
      case Prf(k, x) => TAG_PRF + k + LE(|x|, 2) + x
      case Spi(p) =>
        TAG_SPI + p.leaf + p.submissionId + LE(p.acceptedEpoch, 8) + LE(p.promisedEpoch, 8) + [p.maxMergeDelay]
  {
    hide Flatten, LE, Unsigned64, TAG_ASSET, TAG_LEAF, TAG_HEAD, TAG_MTL0, TAG_MTN1, TAG_PAD, TAG_PRF, TAG_SPI;
    var f, w := FieldsOf(m), TagOf(m);
    assert f[0..] == f;
    PartFollows(w, f, 0);
    w := w + f[0];
    if |f| > 1 { PartFollows(w, f, 1); w := w + f[1]; }
    if |f| > 2 { PartFollows(w, f, 2); w := w + f[2]; }
    if |f| > 3 { PartFollows(w, f, 3); w := w + f[3]; }
    if |f| > 4 { PartFollows(w, f, 4); w := w + f[4]; }
    if m.Leaf? {
      PartFollows(w, f, 5);
      PartFollows(w + f[5], f, 6);
      PartFollows(w + f[5] + f[6], f, 7);
      w := w + f[5] + f[6] + f[7];
    }
    PartsEnd(w, f);
  }

  /** The fields a writer accepts, in numbers, and what it refuses the others with. */
  lemma WritersAccept(m: Message)
    ensures Encode(m).Ok? <==>
      match m
      case Asset(j, r, t) => |j| == 4 && |r| == 8 && 1 <= |t| <= 64
      case GenesisHead(c, v) => |c| == 32 && 0 <= v <= 0xffff
      case Leaf(c, f) =>
        |c| == |f.payloadDigest| == |f.assessmentDigest| == |f.qpKey| == 32 && 0 <= f.seqNo <= 0xffff_ffff_ffff_ffff
        && 0 <= f.category <= 255 && -0x8000_0000_0000_0000 <= f.effectiveAt <= 0x7fff_ffff_ffff_ffff
        && -0x8000_0000_0000_0000 <= f.changeIdentifiedAt <= 0x7fff_ffff_ffff_ffff
      case StepHead(h, l) => |h| == |l| == 32
      case RealLeaf(l) => |l| == 32
      case PaddingLeaf(o) => |o| == 32
      case Node(l, r) => |l| == |r| == 32
      case Prf(k, x) => |k| == 32 && |x| <= 214
      case Spi(p) =>
        |p.leaf| == 32 && |p.submissionId| == 16 && 0 <= p.acceptedEpoch <= 0xffff_ffff_ffff_ffff
        && 0 <= p.promisedEpoch <= 0xffff_ffff_ffff_ffff && 0 <= p.maxMergeDelay <= 255
  {
    hide Encode, Layout;
    EncodeIsLayout(m);
  }

  lemma WritersRefuse(m: Message)
    requires Encode(m).Err?
    ensures Encode(m).error ==
      match m
      case Asset(j, r, t) => if |j| != 4 || |r| != 8 then MalformedPayload else CanonicalizationFailed
      case GenesisHead(c, v) => if |c| != 32 then MalformedPayload else RangeError
      case Leaf(c, f) =>
        if f.category < 0 || f.category > 255 || |c| != 32 then MalformedPayload
        else if f.seqNo < 0 || f.seqNo > 0xffff_ffff_ffff_ffff then RangeError
        else if |f.payloadDigest| != 32 || |f.assessmentDigest| != 32 || |f.qpKey| != 32 then MalformedPayload else RangeError
      case StepHead(_, _) => MalformedPayload
      case RealLeaf(_) => MalformedPayload
      case PaddingLeaf(_) => MalformedPayload
      case Node(_, _) => MalformedPayload
      case Prf(k, x) => if |k| != 32 then MalformedPayload else if |x| > 0xffff then RangeError else RecordTooLarge
      case Spi(p) =>
        if p.maxMergeDelay < 0 || p.maxMergeDelay > 255 || |p.leaf| != 32 || |p.submissionId| != 16 then MalformedPayload
        else RangeError
  {
    hide Flatten, LE, Layout, Unsigned64, TAG_ASSET, TAG_LEAF, TAG_HEAD, TAG_MTL0, TAG_MTN1, TAG_PAD, TAG_PRF, TAG_SPI;
    EncodeIsLayout(m);
    TagHasLength(m);
  }
}

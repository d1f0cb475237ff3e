/**
 The disclosure package and its offline verifier (ts/src/disclosure.ts), on a package already parsed
 from its JSON text.
 */
module Disclosure {
  import opened Wrappers
  import opened Bytes
  import opened Preimages
  import opened Crypto
  import Base64
  import opened Merkle
  import opened EpochTree
  import opened Chain

  const DISCLOSURE_SCHEMA: string := "certimining/v1/disclosure"
  const LEAF_PREIMAGE_LEN: nat := 161

  datatype RecordJson = RecordJson(
    seqNo: int, category: int, effectiveAt: int, changeIdentifiedAt: int,
    payloadDigest: Bytes, assessmentDigest: Bytes, qpKey: Bytes, flags: int)

  datatype SegmentEntry = SegmentEntry(leaf: Bytes, head: Bytes)

  datatype ChainJson = ChainJson(prevHead: Bytes, head: Bytes, genesis: Bytes, segment: Option<seq<SegmentEntry>>)

  datatype InclusionJson = InclusionJson(epoch: int, height: int, slotIndex: int, siblings: seq<Bytes>)

  datatype Package = Package(
    schema: string, record: RecordJson, preimageBorsh: string, chain: ChainJson,
    qpSignature: Option<Bytes>, inclusion: InclusionJson)

  datatype ChainContext = ChainContext(
    sawResource: bool, previousCategory: Option<int>, expectedPrevHead: Option<Bytes>, trustedHead: Option<Bytes>)

  datatype Options = Options(
    rootEpoch: int, root: Bytes, configuredHeight: Option<int>, chainContext: Option<ChainContext>)

  datatype LeafFromBytes = LeafFromBytes(asset: Digest, fields: LeafFields)

  datatype FlagReport = FlagReport(declared: int, recomputed: Option<nat>, discrepancy: Option<bool>)

  datatype Verified = Verified(leaf: Digest, read: LeafFromBytes, established: bool, flags: FlagReport)

  // Reading fields

  function HexField(b: Bytes, len: nat): Result<Bytes, Failure> {
    if |b| == len then Ok(b) else Err(MalformedPackage)
  }

  function SmallInt(v: int, max: int): Result<int, Failure> {
    if 0 <= v <= max then Ok(v) else Err(MalformedPackage)
  }

  // The leaf preimage, read back

  /** The fields a preimage says, refusing those no chain could have accepted. */
  function ReadLeafPreimage(preimage: Bytes): Result<LeafFromBytes, Failure> {
    if |preimage| != LEAF_PREIMAGE_LEN then Err(MalformedPayload)
    else
      var body :- ReadTagged(preimage, TAG_LEAF);
      var seqNo, category := ReadU64le(body, 32), body[136];
      if seqNo == 0 then Err(SequenceOutOfOrder)
      else if category < CATEGORY_MIN || category > CATEGORY_MAX then Err(MalformedPayload)
      else Ok(LeafFromBytes(body[0..32], LeafFields(
        seqNo, body[40..72], body[72..104], body[104..136], category, ReadI64le(body, 137), ReadI64le(body, 145))))
  }

  function LeafSlices(body: Bytes): (r: seq<Bytes>)
    requires |body| == 153
  {
    [body[0..32], body[32..40], body[40..72], body[72..104], body[104..136], body[136..137], body[137..145], body[145..153]]
  }

  lemma FlattenLeafSlices(body: Bytes)
    requires |body| == 153
    ensures Flatten(LeafSlices(body)) == body
  {
    var p := LeafSlices(body);
    FlattenFrom(p, 7, body, 145, 153);
    FlattenFrom(p, 6, body, 137, 145);
    FlattenFrom(p, 5, body, 136, 137);
    FlattenFrom(p, 4, body, 104, 136);
    FlattenFrom(p, 3, body, 72, 104);
    FlattenFrom(p, 2, body, 40, 72);
    FlattenFrom(p, 1, body, 32, 40);
    FlattenFrom(p, 0, body, 0, 32);
    assert p[0..] == p;
  }

  /** Putting one more slice in front of the flattened rest. */
  lemma FlattenFrom(p: seq<Bytes>, i: nat, body: Bytes, from: nat, to: nat)
    requires i < |p| && from <= to <= |body| && p[i] == body[from..to]
    requires i + 1 < |p| ==> Flatten(p[i + 1..]) == body[to..]
    requires i + 1 == |p| ==> to == |body|
    ensures Flatten(p[i..]) == body[from..]
  {
    assert p[i..][1..] == p[i + 1..];
    assert body[from..] == body[from..to] + body[to..];
  }

  /** Which fields a chain could have accepted. */
  predicate Acceptable(f: LeafFields) {
    f.seqNo >= 1 && CATEGORY_MIN <= f.category <= CATEGORY_MAX
  }

  /** Reading is the exact inverse of writing, on the fields a chain could have accepted. */
  lemma ReadInvertsWrite(preimage: Bytes, read: LeafFromBytes)
    ensures ReadLeafPreimage(preimage) == Ok(read)
      <==> LeafPreimage(read.asset, read.fields) == Ok(preimage) && Acceptable(read.fields)
  {
    if ReadLeafPreimage(preimage) == Ok(read) { WriteOfRead(preimage); }
    if LeafPreimage(read.asset, read.fields) == Ok(preimage) && Acceptable(read.fields) { ReadOfWrite(read); }
  }

  lemma WriteOfRead(preimage: Bytes)
    requires ReadLeafPreimage(preimage).Ok?
    ensures var read := ReadLeafPreimage(preimage).value;
      LeafPreimage(read.asset, read.fields) == Ok(preimage) && Acceptable(read.fields)
  {
    hide TAG_LEAF, Layout, Encode, LeafPreimage, FromLE, LE, Unsigned64;
    var read, body := ReadLeafPreimage(preimage).value, preimage[8..];
    WordsCover(body, 32);
    WordsCover(body, 137);
    WordsCover(body, 145);
    FlattenLeafSlices(body);
    var m := Leaf(read.asset, read.fields);
    assert WellFormed(m);
    assert [body[136]] == body[136..137];
    assert FieldsOf(m) == LeafSlices(body);
    LayoutIs(m, preimage);
    EncodeIsLayout(m);
    EncodeLeaf(m);
  }

  lemma LayoutIs(m: Message, preimage: Bytes)
    requires WellFormed(m) && m.Leaf? && |preimage| >= 8 && preimage[..8] == TAG_LEAF && Flatten(FieldsOf(m)) == preimage[8..]
    ensures Layout(m) == preimage
  {
    hide Flatten, FieldsOf, TAG_LEAF;
    assert preimage == preimage[..8] + preimage[8..];
  }

  lemma EncodeLeaf(m: Message)
    requires m.Leaf?
    ensures Encode(m) == LeafPreimage(m.asset, m.fields)
  {
    hide LeafPreimage;
  }

  lemma ReadOfWrite(read: LeafFromBytes)
    requires LeafPreimage(read.asset, read.fields).Ok? && Acceptable(read.fields)
    ensures ReadLeafPreimage(LeafPreimage(read.asset, read.fields).value) == Ok(read)
  {
    hide TAG_LEAF, Encode, LeafPreimage, Unsigned64, FromLE, LE;
    var m := Leaf(read.asset, read.fields);
    EncodeLeaf(m);
    EncodeIsLayout(m);
    LayoutHasLength(m);
    var preimage, f := Layout(m), read.fields;
    TagLength();
    var body := preimage[8..];
    assert preimage[..8] == TAG_LEAF && body == Flatten(FieldsOf(m));
    FlattenLeafSlices(body);
    FlattenInjective(LeafSlices(body), FieldsOf(m));
    var p := LeafSlices(body);
    assert p[0] == read.asset && p[1] == LE(f.seqNo, 8) && p[2] == f.payloadDigest && p[3] == f.assessmentDigest;
    assert p[4] == f.qpKey && p[5] == [f.category];
    assert p[6] == LE(Unsigned64(f.effectiveAt), 8) && p[7] == LE(Unsigned64(f.changeIdentifiedAt), 8);
    WordsRoundTrip(f.seqNo, body[..32], body[40..]);
    WordsRoundTrip(f.effectiveAt, body[..137], body[145..]);
    WordsRoundTrip(f.changeIdentifiedAt, body[..145], body[153..]);
    assert body == body[..32] + p[1] + body[40..];
    assert body == body[..137] + p[6] + body[145..];
    assert body == body[..145] + p[7] + body[153..];
    assert body[136] == p[5][0];
  }

  lemma TagLength()
    ensures |TAG_LEAF| == 8
  {
  }

  // The display copy

  function CompareJsonToBytes(record: RecordJson, f: LeafFields): Result<(), Failure> {
    if record.seqNo != f.seqNo then Err(JsonBorshMismatch)
    else
      var payload :- HexField(record.payloadDigest, 32);
      if payload != f.payloadDigest then Err(JsonBorshMismatch)
      else
        var assessment :- HexField(record.assessmentDigest, 32);
        if assessment != f.assessmentDigest then Err(JsonBorshMismatch)
        else
          var qpKey :- HexField(record.qpKey, 32);
          if qpKey != f.qpKey then Err(JsonBorshMismatch)
          else
            var category :- SmallInt(record.category, 255);
            if category != f.category then Err(JsonBorshMismatch)
            else if record.effectiveAt != f.effectiveAt then Err(JsonBorshMismatch)
            else if record.changeIdentifiedAt != f.changeIdentifiedAt then Err(JsonBorshMismatch)
            else Ok(())
  }

  function DisplayedFields(record: RecordJson): LeafFields {
    LeafFields(record.seqNo, record.payloadDigest, record.assessmentDigest, record.qpKey,
               record.category, record.effectiveAt, record.changeIdentifiedAt)
  }

  /** The display copy passes exactly when it displays the signed fields; the flags are not among them. */
  lemma DisplayMustAgree(record: RecordJson, preimage: Bytes)
    requires ReadLeafPreimage(preimage).Ok?
    ensures CompareJsonToBytes(record, ReadLeafPreimage(preimage).value.fields).Ok?
      <==> DisplayedFields(record) == ReadLeafPreimage(preimage).value.fields
  {
    hide TAG_LEAF, FromLE;
  }

  // The chain segment

  datatype SegmentOutcome = SegmentOutcome(established: bool, steps: nat)

  /** A step whose previous head need not be a digest. */
  function AdvanceFrom(prevHead: Bytes, leaf: Bytes): Result<Digest, Failure> {
    var preimage :- StepHeadPreimage(prevHead, leaf);
    Ok(KECCAK256(preimage))
  }

  predicate EntriesAreDigests(steps: seq<SegmentEntry>) {
    forall i :: 0 <= i < |steps| ==> |steps[i].leaf| == 32 && |steps[i].head| == 32
  }

  predicate LinksHold(steps: seq<SegmentEntry>)
    requires EntriesAreDigests(steps)
  {
    forall i :: 1 <= i < |steps| ==> AdvanceHead(steps[i - 1].head, steps[i].leaf) == steps[i].head
  }

  predicate EndsAt(steps: seq<SegmentEntry>, leaf: Digest, prevHead: Digest, head: Digest)
    requires steps != []
  {
    var n := |steps|;
    steps[n - 1].leaf == leaf && steps[n - 1].head == head && (n > 1 ==> steps[n - 2].head == prevHead)
  }

  function Anchored(
      steps: seq<SegmentEntry>, seqNo: int, prevHead: Digest, genesis: Digest, trusted: Option<Bytes>): Result<SegmentOutcome, Failure>
    requires steps != [] && EntriesAreDigests(steps)
  {
    if |steps| == seqNo then
      if AdvanceHead(genesis, steps[0].leaf) != steps[0].head then Err(HeadMismatch)
      else if |steps| == 1 && prevHead != genesis then Err(HeadMismatch)
      else Ok(SegmentOutcome(true, |steps|))
    else if trusted.Some? then
      var first :- AdvanceFrom(trusted.value, steps[0].leaf);
      if first != steps[0].head then Err(HeadMismatch) else Ok(SegmentOutcome(true, |steps|))
    else Ok(SegmentOutcome(false, |steps|))
  }

  /** The judgement of a segment: none given, refused, or walked with its anchor found or not. */
  function Walked(
      raw: Option<seq<SegmentEntry>>, seqNo: int, leaf: Digest, prevHead: Digest, head: Digest, genesis: Digest,
      trusted: Option<Bytes>): Result<Option<SegmentOutcome>, Failure>
  {
    if raw.None? then Ok(None)
    else if raw.value == [] then Err(MalformedPackage)
    else if |raw.value| > seqNo then Err(HeadMismatch)
    else if !EntriesAreDigests(raw.value) then Err(MalformedPackage)
    else if !LinksHold(raw.value) || !EndsAt(raw.value, leaf, prevHead, head) then Err(HeadMismatch)
    else
      var outcome :- Anchored(raw.value, seqNo, prevHead, genesis, trusted);
      Ok(Some(outcome))
  }

  method WalkSegment(
      raw: Option<seq<SegmentEntry>>, seqNo: int, leaf: Digest, prevHead: Digest, head: Digest, genesis: Digest,
      trusted: Option<Bytes>) returns (r: Result<Option<SegmentOutcome>, Failure>)
    ensures r == Walked(raw, seqNo, leaf, prevHead, head, genesis, trusted)
  {
    hide AdvanceHead, AdvanceFrom;
    if raw.None? { return Ok(None); }
    var steps := raw.value;
    if |steps| == 0 { return Err(MalformedPackage); }
    if |steps| > seqNo { return Err(HeadMismatch); }
    for i := 0 to |steps|
      invariant forall k :: 0 <= k < i ==> |steps[k].leaf| == 32 && |steps[k].head| == 32
    {
      if HexField(steps[i].leaf, 32).Err? || HexField(steps[i].head, 32).Err? { return Err(MalformedPackage); }
    }
    var i := 1;
    while i < |steps|
      invariant 1 <= i <= |steps|
      invariant forall k :: 1 <= k < i ==> AdvanceHead(steps[k - 1].head, steps[k].leaf) == steps[k].head
    {
      if AdvanceHead(steps[i - 1].head, steps[i].leaf) != steps[i].head { return Err(HeadMismatch); }
      i := i + 1;
    }
    var last := steps[|steps| - 1];
    if last.leaf != leaf || last.head != head { return Err(HeadMismatch); }
    if |steps| > 1 && steps[|steps| - 2].head != prevHead { return Err(HeadMismatch); }
    var outcome := Anchored(steps, seqNo, prevHead, genesis, trusted);
    return if outcome.Ok? then Ok(Some(outcome.value)) else Err(outcome.error);
  }

  // The verdict

  function DecodedPreimage(pkg: Package): Result<Bytes, Failure> {
    match Base64.Decode(pkg.preimageBorsh)
    case Ok(b) => Ok(b)
    case Err(_) => Err(MalformedPackage)
  }

  function CheckSignature(pkg: Package, qpKey: Bytes, preimage: Bytes): Result<(), Failure> {
    if pkg.qpSignature.None? then Err(AttestationMissing)
    else
      var signature :- HexField(pkg.qpSignature.value, 64);
      if Ed25519Verify(qpKey, preimage, signature) then Ok(()) else Err(AttestationInvalid)
  }

  function ExpectedPrevHead(o: Options): Option<Bytes> {
    if o.chainContext.Some? then o.chainContext.value.expectedPrevHead else None
  }

  function TrustedHead(o: Options): Option<Bytes> {
    if o.chainContext.Some? then o.chainContext.value.trustedHead else None
  }

  /** Whether the record's place in its chain is settled, or why the package contradicts itself. */
  function Position(pkg: Package, o: Options, seqNo: int, leaf: Digest, genesis: Digest): Result<bool, Failure>
    requires |pkg.chain.prevHead| == |pkg.chain.head| == 32
  {
    var expected := ExpectedPrevHead(o);
    if expected.Some? && pkg.chain.prevHead != expected.value then Err(HeadMismatch)
    else
      var walked :- Walked(pkg.chain.segment, seqNo, leaf, pkg.chain.prevHead, pkg.chain.head, genesis, TrustedHead(o));
      if walked.Some? then Ok(walked.value.established)
      else if seqNo == 1 then
        if pkg.chain.prevHead != genesis then Err(HeadMismatch) else Ok(true)
      else Ok(expected.Some?)
  }

  function CheckChain(pkg: Package, o: Options, read: LeafFromBytes, leaf: Digest): Result<bool, Failure> {
    var prevHead :- HexField(pkg.chain.prevHead, 32);
    var head :- HexField(pkg.chain.head, 32);
    var genesis :- HexField(pkg.chain.genesis, 32);
    if genesis != HashOf(GenesisHead(read.asset, SCHEMA_VERSION)) then Err(HeadMismatch)
    else
      var established :- Position(pkg, o, read.fields.seqNo, leaf, genesis);
      if AdvanceHead(prevHead, leaf) != head then Err(HeadMismatch) else Ok(established)
  }

  function ParseProof(i: InclusionJson): Result<InclusionProof, Failure> {
    var height :- SmallInt(i.height, 255);
    var slotIndex :- SmallInt(i.slotIndex, 0xffff);
    if !AreDigests(i.siblings) then Err(MalformedPackage)
    else Ok(InclusionProof(height, i.siblings, slotIndex, i.epoch))
  }

  function CheckInclusion(i: InclusionJson, o: Options, leaf: Digest): Result<(), Failure> {
    var proof :- ParseProof(i);
    if proof.epoch != o.rootEpoch then Err(RootEpochMismatch)
    else if o.configuredHeight.Some? && proof.height != o.configuredHeight.value then Err(InclusionProofInvalid)
    else if Accepts(leaf, proof, o.root) then Ok(()) else Err(InclusionProofInvalid)
  }

  function JudgeFlags(flags: int, o: Options, category: int): Result<FlagReport, Failure> {
    var declared :- SmallInt(flags, 0xffff);
    if o.chainContext.None? then Ok(FlagReport(declared, None, None))
    else
      var recomputed := ComputeFlags(o.chainContext.value.sawResource, o.chainContext.value.previousCategory, category);
      Ok(FlagReport(declared, Some(recomputed), Some(recomputed != declared)))
  }

  /** The whole verification, every refusal in the order it is decided. */
  function Verdict(pkg: Package, o: Options): Result<Verified, Failure> {
    if pkg.schema != DISCLOSURE_SCHEMA then Err(MalformedPackage)
    else
      var preimage :- DecodedPreimage(pkg);
      var read :- ReadLeafPreimage(preimage);
      var agreed :- CompareJsonToBytes(pkg.record, read.fields);
      var leaf := KECCAK256(preimage);
      var signed :- CheckSignature(pkg, read.fields.qpKey, preimage);
      var established :- CheckChain(pkg, o, read, leaf);
      var included :- CheckInclusion(pkg.inclusion, o, leaf);
      var flags :- JudgeFlags(pkg.record.flags, o, read.fields.category);
      Ok(Verified(leaf, read, established, flags))
  }

  // The report

  datatype CheckName =
    | OnlyListedFields | PreimageDecodes | DisplayAgrees | LeafRecomputed | SignatureVerifies | GenesisIsThisAssets
    | PrevHeadIsTheChains | SegmentRecomputes | HeadIsConsistent | InclusionReachesRoot | Flags | Verification

  datatype Status = Pass | Fail | Skipped | Unestablished

  datatype Check = Check(name: CheckName, status: Status)

  datatype Report = Report(
    ok: bool, failure: Option<Failure>, leaf: Option<Digest>, read: Option<LeafFromBytes>,
    flags: Option<FlagReport>, established: bool, checks: seq<Check>)

  /** Every check in the order it is run, with what it is recorded as when it does not refuse. */
  function Trail(withSegment: bool, established: bool, withContext: bool): seq<Check> {
    [Check(OnlyListedFields, Pass), Check(PreimageDecodes, Pass), Check(DisplayAgrees, Pass), Check(LeafRecomputed, Pass),
     Check(SignatureVerifies, Pass), Check(GenesisIsThisAssets, Pass),
     Check(PrevHeadIsTheChains, if established then Pass else Unestablished)]
    + (if withSegment then [Check(SegmentRecomputes, Pass)] else [])
    + [Check(HeadIsConsistent, Pass), Check(InclusionReachesRoot, Pass), Check(Flags, if withContext then Pass else Skipped)]
  }

  /** Where the position is recorded: nothing is settled before. */
  const POSITION: nat := 6

  function TrailFor(pkg: Package, o: Options, established: bool): seq<Check> {
    Trail(pkg.chain.segment.Some?, established, o.chainContext.Some?)
  }

  /** The checks so far are the first of the trail, and settle the position only once they reach it. */
  predicate OnTrail(checks: seq<Check>, pkg: Package, o: Options, established: bool) {
    checks <= TrailFor(pkg, o, established) && (established ==> |checks| > POSITION)
  }

  /** The report of a refusal: everything established so far, and one failed check at the end. */
  function Refuse(
      e: Failure, leaf: Option<Digest>, read: Option<LeafFromBytes>, established: bool, checks: seq<Check>): Report
  {
    Report(false, Some(e), leaf, read, None, established, checks + [Check(Verification, Fail)])
  }

  /** How far along the trail the chain fields come. */
  function ChainReached(pkg: Package, o: Options, read: LeafFromBytes, leaf: Digest): nat {
    if !ChainReads(pkg, read) then 5
    else if Position(pkg, o, read.fields.seqNo, leaf, pkg.chain.genesis).Err? then 6
    else
      (if pkg.chain.segment.Some? then 8 else 7) + (if AdvanceHead(pkg.chain.prevHead, leaf) == pkg.chain.head then 1 else 0)
  }

  /** The three heads are digests and the genesis head is this asset's. */
  predicate ChainReads(pkg: Package, read: LeafFromBytes) {
    |pkg.chain.prevHead| == |pkg.chain.head| == |pkg.chain.genesis| == 32
    && pkg.chain.genesis == HashOf(GenesisHead(read.asset, 1))
  }

  predicate SettledByChain(pkg: Package, o: Options, read: LeafFromBytes, leaf: Digest) {
    ChainReads(pkg, read) && Position(pkg, o, read.fields.seqNo, leaf, pkg.chain.genesis) == Ok(true)
  }

  /** What verification has come to: the bytes as read, their digest, the position, and how many checks it recorded. */
  datatype Progress = Progress(read: Option<LeafFromBytes>, leaf: Option<Digest>, settled: bool, recorded: nat)

  function ProgressOf(pkg: Package, o: Options): Progress {
    if pkg.schema != "certimining/v1/disclosure" then Progress(None, None, false, 0)
    else if DecodedPreimage(pkg).Err? || ReadLeafPreimage(DecodedPreimage(pkg).value).Err? then Progress(None, None, false, 1)
    else
      var preimage := DecodedPreimage(pkg).value;
      var read, leaf := ReadLeafPreimage(preimage).value, KECCAK256(preimage);
      if CompareJsonToBytes(pkg.record, read.fields).Err? then Progress(Some(read), None, false, 2)
      else if CheckSignature(pkg, read.fields.qpKey, preimage).Err? then Progress(Some(read), Some(leaf), false, 4)
      else
        var reached := ChainReached(pkg, o, read, leaf);
        Progress(Some(read), Some(leaf), SettledByChain(pkg, o, read, leaf),
                 if CheckChain(pkg, o, read, leaf).Err? || CheckInclusion(pkg.inclusion, o, leaf).Err? then reached
                 else if JudgeFlags(pkg.record.flags, o, read.fields.category).Err? then reached + 1 else reached + 2)
  }

  /**
   The report says how far verification came. An acceptance records the whole trail, the position as a
   pass exactly when it is settled; a refusal the part of it that ran, and one failed check at the end.
   */
  predicate Tells(r: Report, pkg: Package, o: Options, verdict: Result<Verified, Failure>) {
    match verdict
    case Ok(v) =>
      r.ok && r.failure == None && r.leaf == Some(v.leaf) && r.read == Some(v.read) && r.flags == Some(v.flags)
      && r.established == v.established && r.checks == TrailFor(pkg, o, r.established)
    case Err(e) =>
      !r.ok && r.failure == Some(e) && r.checks != [] && r.checks[|r.checks| - 1] == Check(Verification, Fail)
      && OnTrail(r.checks[..|r.checks| - 1], pkg, o, r.established)
      && r.flags == None && Progress(r.read, r.leaf, r.established, |r.checks| - 1) == ProgressOf(pkg, o)
  }

  lemma Refused(
      e: Failure, leaf: Option<Digest>, read: Option<LeafFromBytes>, pkg: Package, o: Options, established: bool, checks: seq<Check>)
    requires OnTrail(checks, pkg, o, established) && Progress(read, leaf, established, |checks|) == ProgressOf(pkg, o)
    ensures Tells(Refuse(e, leaf, read, established, checks), pkg, o, Err(e))
  {
    hide OnTrail, ProgressOf;
    assert (checks + [Check(Verification, Fail)])[..|checks|] == checks;
  }

  /** The next check of the trail, recorded. */
  lemma Recorded(checks: seq<Check>, pkg: Package, o: Options, established: bool, check: Check)
    requires OnTrail(checks, pkg, o, established) && |checks| < |TrailFor(pkg, o, established)|
    requires TrailFor(pkg, o, established)[|checks|] == check
    ensures OnTrail(checks + [check], pkg, o, established)
  {
    hide TrailFor;
  }

  /** The trail, place by place. */
  lemma TrailIs(pkg: Package, o: Options, established: bool)
    ensures var t, m := TrailFor(pkg, o, established), if pkg.chain.segment.Some? then 8 else 7;
      && |t| == m + 3 && t[0] == Check(OnlyListedFields, Pass) && t[1] == Check(PreimageDecodes, Pass)
      && t[2] == Check(DisplayAgrees, Pass) && t[3] == Check(LeafRecomputed, Pass) && t[4] == Check(SignatureVerifies, Pass)
      && t[5] == Check(GenesisIsThisAssets, Pass)
      && t[6] == Check(PrevHeadIsTheChains, if established then Pass else Unestablished)
      && (pkg.chain.segment.Some? ==> t[7] == Check(SegmentRecomputes, Pass))
      && t[m] == Check(HeadIsConsistent, Pass) && t[m + 1] == Check(InclusionReachesRoot, Pass)
      && t[m + 2] == Check(Flags, if o.chainContext.Some? then Pass else Skipped)
  {
  }

  /** Up to the position the trail does not depend on it. */
  lemma PositionSettled(checks: seq<Check>, pkg: Package, o: Options, established: bool)
    requires OnTrail(checks, pkg, o, false) && |checks| == POSITION
    ensures OnTrail(checks + [Check(PrevHeadIsTheChains, if established then Pass else Unestablished)], pkg, o, established)
  {
    hide TrailFor;
    TrailIs(pkg, o, established);
    TrailIs(pkg, o, false);
    var t, u := TrailFor(pkg, o, established), TrailFor(pkg, o, false);
    assert forall i :: 0 <= i < POSITION ==> checks[i] == u[i];
    assert forall i :: 0 <= i < POSITION ==> t[i] == u[i];
  }

  method VerifyDisclosurePackage(pkg: Package, o: Options) returns (r: Report)
    ensures Tells(r, pkg, o, Verdict(pkg, o))
  {
    hide OnTrail, TrailFor, Tells, ReadLeafPreimage, CompareJsonToBytes, Accepts, HashOf, Base64.Decode, CheckSignature, CheckChain,
      CheckInclusion, JudgeFlags, ChainReached, SettledByChain;
    var checks: seq<Check> := [];
    NothingRecorded(pkg, o);
    TrailIs(pkg, o, false);
    if pkg.schema != DISCLOSURE_SCHEMA {
      Refused(MalformedPackage, None, None, pkg, o, false, checks);
      return Refuse(MalformedPackage, None, None, false, checks);
    }
    Recorded(checks, pkg, o, false, Check(OnlyListedFields, Pass));
    checks := checks + [Check(OnlyListedFields, Pass)];

    var decoded := Base64.Base64Decode(pkg.preimageBorsh);
    if decoded.Err? {
      Refused(MalformedPackage, None, None, pkg, o, false, checks);
      return Refuse(MalformedPackage, None, None, false, checks);
    }
    var preimage := decoded.value;
    var read := ReadLeafPreimage(preimage);
    if read.Err? {
      Refused(read.error, None, None, pkg, o, false, checks);
      return Refuse(read.error, None, None, false, checks);
    }
    var fields := read.value;
    Recorded(checks, pkg, o, false, Check(PreimageDecodes, Pass));
    checks := checks + [Check(PreimageDecodes, Pass)];

    var agreed := CompareJsonToBytes(pkg.record, fields.fields);
    if agreed.Err? {
      Refused(agreed.error, None, Some(fields), pkg, o, false, checks);
      return Refuse(agreed.error, None, Some(fields), false, checks);
    }
    Recorded(checks, pkg, o, false, Check(DisplayAgrees, Pass));
    checks := checks + [Check(DisplayAgrees, Pass)];

    var leaf := KECCAK256(preimage);
    Recorded(checks, pkg, o, false, Check(LeafRecomputed, Pass));
    checks := checks + [Check(LeafRecomputed, Pass)];

    var signed := CheckSignature(pkg, fields.fields.qpKey, preimage);
    if signed.Err? {
      Refused(signed.error, Some(leaf), Some(fields), pkg, o, false, checks);
      return Refuse(signed.error, Some(leaf), Some(fields), false, checks);
    }
    Recorded(checks, pkg, o, false, Check(SignatureVerifies, Pass));
    checks := checks + [Check(SignatureVerifies, Pass)];

    var chain, established;
    chain, established, checks := JudgeChain(pkg, o, fields, leaf, checks);
    if chain.Err? {
      Refused(chain.error, Some(leaf), Some(fields), pkg, o, established, checks);
      return Refuse(chain.error, Some(leaf), Some(fields), established, checks);
    }
    TrailIs(pkg, o, established);

    var included := JudgeInclusion(pkg.inclusion, o, leaf);
    if included.Err? {
      Refused(included.error, Some(leaf), Some(fields), pkg, o, established, checks);
      return Refuse(included.error, Some(leaf), Some(fields), established, checks);
    }
    Recorded(checks, pkg, o, established, Check(InclusionReachesRoot, Pass));
    checks := checks + [Check(InclusionReachesRoot, Pass)];

    var flags := JudgeFlags(pkg.record.flags, o, fields.fields.category);
    if flags.Err? {
      Refused(flags.error, Some(leaf), Some(fields), pkg, o, established, checks);
      return Refuse(flags.error, Some(leaf), Some(fields), established, checks);
    }
    var flagCheck := Check(Flags, if o.chainContext.None? then Skipped else Pass);
    Recorded(checks, pkg, o, established, flagCheck);
    checks := checks + [flagCheck];
    r := Report(true, None, Some(leaf), Some(fields), Some(flags.value), established, checks);
    Told(r, pkg, o, Verified(leaf, fields, established, flags.value));
  }

  lemma NothingRecorded(pkg: Package, o: Options)
    ensures OnTrail([], pkg, o, false)
  {
  }

  lemma Told(r: Report, pkg: Package, o: Options, v: Verified)
    requires r == Report(true, None, Some(v.leaf), Some(v.read), Some(v.flags), v.established, r.checks)
    requires OnTrail(r.checks, pkg, o, v.established) && |r.checks| == |TrailFor(pkg, o, v.established)|
    ensures Tells(r, pkg, o, Ok(v))
  {
    hide TrailFor;
  }

  /** The chain fields, recording what each comparison settles; a refusal may come after the position is. */
  method JudgeChain(pkg: Package, o: Options, read: LeafFromBytes, leaf: Digest, before: seq<Check>)
    returns (r: Result<bool, Failure>, established: bool, checks: seq<Check>)
    requires OnTrail(before, pkg, o, false) && |before| == 5
    ensures r == CheckChain(pkg, o, read, leaf)
    ensures r.Ok? ==> established == r.value && |checks| == if pkg.chain.segment.Some? then 9 else 8
    ensures |checks| == ChainReached(pkg, o, read, leaf) && established == SettledByChain(pkg, o, read, leaf)
    ensures OnTrail(checks, pkg, o, established)
  {
    hide OnTrail, TrailFor, HashOf, Walked;
    established, checks := false, before;
    TrailIs(pkg, o, false);
    var prevHead, head, genesis := HexField(pkg.chain.prevHead, 32), HexField(pkg.chain.head, 32), HexField(pkg.chain.genesis, 32);
    if prevHead.Err? { return Err(prevHead.error), established, checks; }
    if head.Err? { return Err(head.error), established, checks; }
    if genesis.Err? { return Err(genesis.error), established, checks; }
    if genesis.value != HashOf(GenesisHead(read.asset, SCHEMA_VERSION)) { return Err(HeadMismatch), established, checks; }
    Recorded(checks, pkg, o, false, Check(GenesisIsThisAssets, Pass));
    checks := checks + [Check(GenesisIsThisAssets, Pass)];

    var expected := ExpectedPrevHead(o);
    if expected.Some? && prevHead.value != expected.value { return Err(HeadMismatch), established, checks; }
    var walked := WalkSegment(
      pkg.chain.segment, read.fields.seqNo, leaf, prevHead.value, head.value, genesis.value, TrustedHead(o));
    if walked.Err? { return Err(walked.error), established, checks; }
    WalkedSegment(pkg, read.fields.seqNo, leaf, prevHead.value, head.value, genesis.value, TrustedHead(o));
    if walked.value.Some? {
      established := walked.value.value.established;
    } else if read.fields.seqNo == 1 {
      if prevHead.value != genesis.value { return Err(HeadMismatch), established, checks; }
      established := true;
    } else {
      established := expected.Some?;
    }
    PositionSettled(checks, pkg, o, established);
    checks := checks + [Check(PrevHeadIsTheChains, if established then Pass else Unestablished)];
    TrailIs(pkg, o, established);
    if walked.value.Some? {
      Recorded(checks, pkg, o, established, Check(SegmentRecomputes, Pass));
      checks := checks + [Check(SegmentRecomputes, Pass)];
    }
    if AdvanceHead(prevHead.value, leaf) != head.value { return Err(HeadMismatch), established, checks; }
    Recorded(checks, pkg, o, established, Check(HeadIsConsistent, Pass));
    checks := checks + [Check(HeadIsConsistent, Pass)];
    return Ok(established), established, checks;
  }

  lemma WalkedSegment(
      pkg: Package, seqNo: int, leaf: Digest, prevHead: Digest, head: Digest, genesis: Digest, trusted: Option<Bytes>)
    requires Walked(pkg.chain.segment, seqNo, leaf, prevHead, head, genesis, trusted).Ok?
    ensures Walked(pkg.chain.segment, seqNo, leaf, prevHead, head, genesis, trusted).value.Some? <==> pkg.chain.segment.Some?
  {
  }

  method JudgeInclusion(i: InclusionJson, o: Options, leaf: Digest) returns (r: Result<(), Failure>)
    ensures r == CheckInclusion(i, o, leaf)
  {
    hide Accepts;
    var proof := ParseProof(i);
    if proof.Err? { return Err(proof.error); }
    if proof.value.epoch != o.rootEpoch { return Err(RootEpochMismatch); }
    if o.configuredHeight.None? {
      r := VerifyInclusion(leaf, proof.value, o.root);
    } else {
      r := VerifyInclusionForHeight(leaf, proof.value, o.root, o.configuredHeight.value);
    }
  }
}

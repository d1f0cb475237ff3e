/**
 Issuer, batcher and verifier together: honest packages verify, and a package whose position is
 established sits where it says, or the package and the chain hashed a collision.
 */
module DisclosureTheorems {
  import opened Wrappers
  import opened Arith
  import opened Bytes
  import opened Preimages
  import opened Crypto
  import Base64
  import opened Sorting
  import opened Merkle
  import opened EpochTree
  import opened EpochTheorems
  import opened Chain
  import opened Disclosure

  // The honest package

  /** Entry i of the full segment: the leaf of record i and the head after it. */
  function FullSegment(asset: Digest, leaves: seq<Digest>): (r: seq<SegmentEntry>)
    ensures |r| == |leaves|
    ensures forall i :: 0 <= i < |r| ==> r[i] == SegmentEntry(leaves[i], HeadAt(asset, leaves, i + 1))
  {
    seq(|leaves|, i requires 0 <= i < |leaves| => SegmentEntry(leaves[i], HeadAt(asset, leaves, i + 1)))
  }

  function DisplayOf(f: LeafFields, flags: int): RecordJson {
    RecordJson(f.seqNo, f.category, f.effectiveAt, f.changeIdentifiedAt, f.payloadDigest, f.assessmentDigest, f.qpKey, flags)
  }

  /** Where an issuer's segment begins, if it gives one: from some record of the run on. */
  predicate BeginsWithin(from: Option<nat>, n: nat) {
    from.Some? ==> from.value < n
  }

  /** What an issuer assembles for the last record of a run, from the chain and the batcher's proof. */
  function HonestPackage(
      asset: Digest, records: seq<RecordInput>, proof: InclusionProof, flags: int, from: Option<nat>): Package
    requires records != [] && AllRecordable(asset, records) && SignedBy(asset, records[|records| - 1])
    requires BeginsWithin(from, |records|)
  {
    var n, last := |records|, records[|records| - 1];
    var leaves := LeafDigests(asset, records);
    Package(
      DISCLOSURE_SCHEMA, DisplayOf(LeafFieldsOf(last), flags),
      Base64.Encode(Layout(Leaf(asset, LeafFieldsOf(last)))),
      ChainJson(
        HeadAt(asset, leaves, n - 1), HeadAt(asset, leaves, n), HeadAt(asset, leaves, 0),
        if from.Some? then Some(SegmentFrom(asset, leaves, from.value)) else None),
      last.signature,
      InclusionJson(proof.epoch, proof.height, proof.slotIndex, proof.siblings))
  }

  /** The caller obtained the root for itself, and may know the log's height and the chain before. */
  predicate HonestOptions(o: Options, b: BuiltEpoch, prevHead: Bytes) {
    o.rootEpoch == b.epoch && o.root == b.root
    && (o.configuredHeight.Some? ==> o.configuredHeight.value == b.height)
    && (ExpectedPrevHead(o).Some? ==> ExpectedPrevHead(o).value == prevHead)
  }

  /** A head the caller trusts is the one the segment begins after, unless it begins at genesis. */
  predicate HonestlyTrusted(o: Options, asset: Digest, leaves: seq<Digest>, from: Option<nat>)
    requires BeginsWithin(from, |leaves|)
  {
    from.Some? && from.value > 0 && TrustedHead(o).Some? ==> TrustedHead(o).value == HeadAt(asset, leaves, from.value)
  }

  /** Whether an honest package's position is settled: by its segment alone if it has one. */
  predicate Settles(from: Option<nat>, n: nat, o: Options) {
    if from.Some? then from.value == 0 || TrustedHead(o).Some? else n == 1 || ExpectedPrevHead(o).Some?
  }

  lemma HonestOptionsSay(o: Options, b: BuiltEpoch, prevHead: Bytes)
    requires HonestOptions(o, b, prevHead)
    ensures o.rootEpoch == b.epoch && o.root == b.root && (o.configuredHeight.Some? ==> o.configuredHeight.value == b.height)
    ensures ExpectedPrevHead(o).Some? ==> ExpectedPrevHead(o).value == prevHead
  {
  }

  lemma RunIsSigned(asset: Digest, records: seq<RecordInput>)
    requires IsRun(Start(asset), records) && records != []
    ensures AllRecordable(asset, records) && SignedBy(asset, records[|records| - 1])
    ensures Recordable(asset, records[|records| - 1]) && WellFormed(Leaf(asset, LeafFieldsOf(records[|records| - 1])))
    ensures var f := LeafFieldsOf(records[|records| - 1]); f.seqNo == |records| && Acceptable(f)
  {
    hide HashOf, IsRun, Drive, Start, SignedBy, AllRecordable, Recordable, WellFormed, LeafDigests, HeadAfter;
    RunInvariant(asset, records);
    SignatureLength(records[|records| - 1], asset);
  }

  /** The preimage of an accepted record reads back as its asset and its fields. */
  lemma RecordReadsBack(asset: Digest, f: LeafFields)
    requires WellFormed(Leaf(asset, f)) && Acceptable(f)
    ensures ReadLeafPreimage(Layout(Leaf(asset, f))) == Ok(LeafFromBytes(asset, f))
  {
    hide ReadLeafPreimage, Layout, LeafPreimage;
    EncodeIsLayout(Leaf(asset, f));
    EncodeLeaf(Leaf(asset, f));
    ReadInvertsWrite(Layout(Leaf(asset, f)), LeafFromBytes(asset, f));
  }

  /** The segment an issuer gives from a record on. */
  function SegmentFrom(asset: Digest, leaves: seq<Digest>, from: nat): (r: seq<SegmentEntry>)
    requires from < |leaves|
    ensures |r| == |leaves| - from
    ensures forall i :: 0 <= i < |r| ==> r[i] == SegmentEntry(leaves[from + i], HeadAt(asset, leaves, from + i + 1))
  {
    FullSegment(asset, leaves)[from..]
  }

  lemma SegmentLinks(asset: Digest, leaves: seq<Digest>, from: nat)
    requires from < |leaves|
    ensures var steps := SegmentFrom(asset, leaves, from);
      EntriesAreDigests(steps) && LinksHold(steps)
  {
    hide HeadAt, AdvanceHead, SegmentFrom;
    var steps := SegmentFrom(asset, leaves, from);
    forall i | 1 <= i < |steps| ensures AdvanceHead(steps[i - 1].head, steps[i].leaf) == steps[i].head {
      HeadAdvances(asset, leaves, from + i);
    }
  }

  lemma SegmentWalks(asset: Digest, leaves: seq<Digest>, from: nat, trusted: Option<Bytes>)
    requires from < |leaves|
    requires from > 0 && trusted.Some? ==> trusted.value == HeadAt(asset, leaves, from)
    ensures var n := |leaves|;
      Walked(Some(SegmentFrom(asset, leaves, from)), n, leaves[n - 1],
             HeadAt(asset, leaves, n - 1), HeadAt(asset, leaves, n), HeadAt(asset, leaves, 0), trusted)
        == Ok(Some(SegmentOutcome(from == 0 || trusted.Some?, n - from)))
  {
    hide HeadAt, AdvanceHead, AdvanceFrom, SegmentFrom, LinksHold;
    SegmentLinks(asset, leaves, from);
    HeadAdvances(asset, leaves, from);
    if from > 0 && trusted.Some? { FromDigest(trusted.value, leaves[from]); }
  }

  lemma FromDigest(head: Digest, leaf: Digest)
    ensures AdvanceFrom(head, leaf) == Ok(AdvanceHead(head, leaf))
  {
    hide Layout, StepHeadPreimage;
    EncodeIsLayout(StepHead(head, leaf));
    EncodeStep(head, leaf);
  }

  /** The chain fields of an honest package. */
  lemma HonestChainFields(asset: Digest, records: seq<RecordInput>, proof: InclusionProof, flags: int, from: Option<nat>)
    requires records != [] && AllRecordable(asset, records) && SignedBy(asset, records[|records| - 1])
    requires BeginsWithin(from, |records|)
    ensures var n, leaves := |records|, LeafDigests(asset, records);
      HonestPackage(asset, records, proof, flags, from).chain == ChainJson(
        HeadAt(asset, leaves, n - 1), HeadAt(asset, leaves, n), HeadAt(asset, leaves, 0),
        if from.Some? then Some(SegmentFrom(asset, leaves, from.value)) else None)
  {
    hide HeadAt, SegmentFrom, Base64.Encode, Layout, Ed25519Verify;
  }

  /** The position of a record in a chain of these leaves, by the segment given. */
  lemma HonestPosition(pkg: Package, o: Options, asset: Digest, leaves: seq<Digest>, from: Option<nat>)
    requires leaves != [] && BeginsWithin(from, |leaves|) && HonestlyTrusted(o, asset, leaves, from)
    requires pkg.chain == ChainJson(
      HeadAt(asset, leaves, |leaves| - 1), HeadAt(asset, leaves, |leaves|), HeadAt(asset, leaves, 0),
      if from.Some? then Some(SegmentFrom(asset, leaves, from.value)) else None)
    requires ExpectedPrevHead(o).Some? ==> ExpectedPrevHead(o).value == HeadAt(asset, leaves, |leaves| - 1)
    ensures Position(pkg, o, |leaves|, leaves[|leaves| - 1], HeadAt(asset, leaves, 0)) == Ok(Settles(from, |leaves|, o))
  {
    hide HeadAt, SegmentFrom, Walked, ExpectedPrevHead, TrustedHead;
    var n := |leaves|;
    if from.Some? {
      SegmentWalks(asset, leaves, from.value, TrustedHead(o));
    } else {
      NoSegment(n, leaves[n - 1], HeadAt(asset, leaves, n - 1), HeadAt(asset, leaves, n), HeadAt(asset, leaves, 0), TrustedHead(o));
    }
  }

  lemma ChainOfStages(pkg: Package, o: Options, read: LeafFromBytes, leaf: Digest, established: bool)
    requires |pkg.chain.prevHead| == |pkg.chain.head| == |pkg.chain.genesis| == 32
    requires pkg.chain.genesis == HashOf(GenesisHead(read.asset, SCHEMA_VERSION))
    requires Position(pkg, o, read.fields.seqNo, leaf, pkg.chain.genesis) == Ok(established)
    requires AdvanceHead(pkg.chain.prevHead, leaf) == pkg.chain.head
    ensures CheckChain(pkg, o, read, leaf) == Ok(established)
  {
    hide HashOf, Position, AdvanceHead;
  }

  lemma HonestChainChecks(
      asset: Digest, records: seq<RecordInput>, proof: InclusionProof, flags: int, from: Option<nat>, o: Options)
    requires IsRun(Start(asset), records) && records != [] && BeginsWithin(from, |records|)
    requires ExpectedPrevHead(o).Some? ==> (RunIsSigned(asset, records);
      ExpectedPrevHead(o).value == HeadAt(asset, LeafDigests(asset, records), |records| - 1))
    requires (RunIsSigned(asset, records); HonestlyTrusted(o, asset, LeafDigests(asset, records), from))
    ensures (RunIsSigned(asset, records);
      CheckChain(HonestPackage(asset, records, proof, flags, from), o,
                 LeafFromBytes(asset, LeafFieldsOf(records[|records| - 1])), LeafDigest(asset, records[|records| - 1]))
        == Ok(Settles(from, |records|, o)))
  {
    hide HeadAt, IsRun, Drive, Start, SignedBy, AllRecordable, LeafDigest, Layout, AdvanceHead, HonestPackage, HonestlyTrusted,
      SegmentFrom, Position, CheckChain, Settles, ExpectedPrevHead, Recordable, WellFormed;
    RunIsSigned(asset, records);
    var n, leaves := |records|, LeafDigests(asset, records);
    var pkg := HonestPackage(asset, records, proof, flags, from);
    HonestChainFields(asset, records, proof, flags, from);
    HonestPosition(pkg, o, asset, leaves, from);
    HeadAdvances(asset, leaves, n - 1);
    GenesisIsHeadZero(asset, leaves);
    ChainOfStages(pkg, o, LeafFromBytes(asset, LeafFieldsOf(records[n - 1])), leaves[n - 1], Settles(from, n, o));
  }

  lemma GenesisIsHeadZero(asset: Digest, leaves: seq<Digest>)
    ensures HeadAt(asset, leaves, 0) == HashOf(GenesisHead(asset, SCHEMA_VERSION))
  {
    hide HashOf;
  }

  lemma NoSegment(seqNo: int, leaf: Digest, prevHead: Digest, head: Digest, genesis: Digest, trusted: Option<Bytes>)
    ensures Walked(None, seqNo, leaf, prevHead, head, genesis, trusted) == Ok(None)
  {
  }

  lemma HonestInclusionChecks(x: EpochInput, s: Submission, o: Options)
    requires Build(x).Ok? && s in x.submitted
    requires o.rootEpoch == x.epoch && o.root == Build(x).value.root
    requires o.configuredHeight.Some? ==> o.configuredHeight.value == x.height
    ensures (BuiltShape(x); Proof(Build(x).value, s.id).Ok?)
    ensures (BuiltShape(x);
      var p := Proof(Build(x).value, s.id).value;
      CheckInclusion(InclusionJson(p.epoch, p.height, p.slotIndex, p.siblings), o, s.data) == Ok(()))
  {
    hide HashOf, Build, Proof, Walk, Shl;
    BuiltShape(x);
    TreeIsComplete(x, s);
    CapacityIsPow2(x.height);
    var p := Proof(Build(x).value, s.id).value;
    CapacityIsPow2(p.height);
    assert InclusionProof(p.height, p.siblings, p.slotIndex, p.epoch) == p;
  }

  lemma SignatureLength(r: RecordInput, asset: Digest)
    requires SignedBy(asset, r)
    ensures Recordable(asset, r) && WellFormed(Leaf(asset, LeafFieldsOf(r)))
    ensures r.signature.Some? && |r.signature.value| == 64 && |r.qpKey| == 32
    ensures Ed25519Verify(r.qpKey, Layout(Leaf(asset, LeafFieldsOf(r))), r.signature.value)
  {
    hide Layout;
  }

  /** A verification whose every stage passes. */
  lemma VerdictOfStages(pkg: Package, o: Options, preimage: Bytes, read: LeafFromBytes, established: bool)
    requires pkg.schema == DISCLOSURE_SCHEMA && DecodedPreimage(pkg) == Ok(preimage)
    requires ReadLeafPreimage(preimage) == Ok(read) && CompareJsonToBytes(pkg.record, read.fields) == Ok(())
    requires CheckSignature(pkg, read.fields.qpKey, preimage) == Ok(())
    requires CheckChain(pkg, o, read, KECCAK256(preimage)) == Ok(established)
    requires CheckInclusion(pkg.inclusion, o, KECCAK256(preimage)) == Ok(()) && 0 <= pkg.record.flags <= 0xffff
    ensures Verdict(pkg, o).Ok? && Verdict(pkg, o).value.leaf == KECCAK256(preimage)
    ensures Verdict(pkg, o).value.read == read && Verdict(pkg, o).value.established == established
    ensures JudgeFlags(pkg.record.flags, o, read.fields.category) == Ok(Verdict(pkg, o).value.flags)
  {
    hide DecodedPreimage, ReadLeafPreimage, CompareJsonToBytes, CheckSignature, CheckChain, CheckInclusion, ComputeFlags;
  }

  /** The fields of an honest package that the record alone decides. */
  lemma HonestFields(asset: Digest, records: seq<RecordInput>, proof: InclusionProof, flags: int, from: Option<nat>)
    requires records != [] && AllRecordable(asset, records) && SignedBy(asset, records[|records| - 1])
    requires BeginsWithin(from, |records|)
    ensures var pkg, last := HonestPackage(asset, records, proof, flags, from), records[|records| - 1];
      && pkg.schema == DISCLOSURE_SCHEMA && pkg.record == DisplayOf(LeafFieldsOf(last), flags)
      && Recordable(asset, last) && pkg.preimageBorsh == Base64.Encode(Layout(Leaf(asset, LeafFieldsOf(last))))
      && pkg.qpSignature == last.signature
      && pkg.inclusion == InclusionJson(proof.epoch, proof.height, proof.slotIndex, proof.siblings)
  {
    hide HeadAt, SegmentFrom, Base64.Encode, Layout, LeafDigests, Ed25519Verify;
  }

  /** The record's own part of an honest package: its bytes, its display copy and its signature. */
  lemma HonestRecordChecks(asset: Digest, records: seq<RecordInput>, proof: InclusionProof, flags: int, from: Option<nat>)
    requires IsRun(Start(asset), records) && records != [] && BeginsWithin(from, |records|)
    ensures (RunIsSigned(asset, records);
      var pkg, f := HonestPackage(asset, records, proof, flags, from), LeafFieldsOf(records[|records| - 1]);
      var preimage := Layout(Leaf(asset, f));
      && DecodedPreimage(pkg) == Ok(preimage) && ReadLeafPreimage(preimage) == Ok(LeafFromBytes(asset, f))
      && CompareJsonToBytes(pkg.record, f) == Ok(()) && CheckSignature(pkg, f.qpKey, preimage) == Ok(())
      && KECCAK256(preimage) == LeafDigest(asset, records[|records| - 1]))
    ensures (RunIsSigned(asset, records);
      var pkg := HonestPackage(asset, records, proof, flags, from);
      && pkg.schema == DISCLOSURE_SCHEMA && pkg.record.flags == flags
      && pkg.inclusion == InclusionJson(proof.epoch, proof.height, proof.slotIndex, proof.siblings))
  {
    hide IsRun, Drive, Start, Layout, ReadLeafPreimage, HonestPackage, Base64.Encode, Base64.Decode, AllRecordable, SignedBy,
      Recordable, Ed25519Verify;
    RunIsSigned(asset, records);
    HonestFields(asset, records, proof, flags, from);
    var last := records[|records| - 1];
    var preimage := Layout(Leaf(asset, LeafFieldsOf(last)));
    Base64.DecodeInvertsEncode(Base64.Encode(preimage), preimage);
    RecordReadsBack(asset, LeafFieldsOf(last));
    SignatureLength(last, asset);
  }

  /**
   End to end: the honest package of any accepted run's last record, in any epoch built over its leaf,
   verifies. Its position is established exactly as its segment allows, from genesis or from a head the
   caller trusts; without a segment, when the record is the first or the caller named the previous head.
   */
  lemma HonestPackageVerifies(
      asset: Digest, records: seq<RecordInput>, x: EpochInput, id: Bytes, flags: int, from: Option<nat>, o: Options)
    requires IsRun(Start(asset), records) && records != [] && BeginsWithin(from, |records|)
    requires Build(x).Ok? && (RunIsSigned(asset, records); Entry(id, LeafDigest(asset, records[|records| - 1])) in x.submitted)
    requires 0 <= flags <= 0xffff
    requires (RunIsSigned(asset, records);
      HonestOptions(o, Build(x).value, HeadAt(asset, LeafDigests(asset, records), |records| - 1)))
    requires (RunIsSigned(asset, records); HonestlyTrusted(o, asset, LeafDigests(asset, records), from))
    ensures (RunIsSigned(asset, records); BuiltShape(x); Proof(Build(x).value, id).Ok?)
    ensures (RunIsSigned(asset, records); BuiltShape(x);
      var last := records[|records| - 1];
      var v := Verdict(HonestPackage(asset, records, Proof(Build(x).value, id).value, flags, from), o);
      v.Ok? && v.value.leaf == LeafDigest(asset, last) && v.value.established == Settles(from, |records|, o)
      && JudgeFlags(flags, o, last.category) == Ok(v.value.flags))
  {
    hide *;
    RunIsSigned(asset, records);
    BuiltShape(x);
    HonestOptionsSay(o, Build(x).value, HeadAt(asset, LeafDigests(asset, records), |records| - 1));
    var last := records[|records| - 1];
    HonestInclusionChecks(x, Entry(id, LeafDigest(asset, last)), o);
    var proof := Proof(Build(x).value, id).value;
    HonestChainChecks(asset, records, proof, flags, from, o);
    HonestRecordChecks(asset, records, proof, flags, from);
    CategoryOfLeaf(last);
    VerdictOfStages(
      HonestPackage(asset, records, proof, flags, from), o, Layout(Leaf(asset, LeafFieldsOf(last))),
      LeafFromBytes(asset, LeafFieldsOf(last)), Settles(from, |records|, o));
  }

  lemma CategoryOfLeaf(r: RecordInput)
    ensures LeafFieldsOf(r).category == r.category
  {
  }

  // The flags

  /** The caller knows what came before: the categories of a history. */
  predicate KnowsHistory(o: Options, history: seq<RecordInput>) {
    o.chainContext.Some?
    && (o.chainContext.value.sawResource <==> SawResource(history))
    && o.chainContext.value.previousCategory == (if history == [] then None else Some(history[|history| - 1].category))
  }

  /** To a caller who knows the history, a discrepancy is shown exactly for flags the chain did not give. */
  lemma DiscrepancyIsTrue(asset: Digest, before: seq<RecordInput>, last: RecordInput, flags: int, o: Options)
    requires IsRun(Start(asset), before + [last]) && KnowsHistory(o, before) && 0 <= flags <= 0xffff
    ensures ApplyRecord(Drive(Start(asset), before), last).Ok?
    ensures var given := ApplyRecord(Drive(Start(asset), before), last).value.flags;
      JudgeFlags(flags, o, last.category) == Ok(FlagReport(flags, Some(given), Some(given != flags)))
  {
    hide ApplyRecord, HashOf, IsRun, Drive, Start, DescribesHead, DescribesHistory, SawResource, Step;
    ResumingIsTheSameRun(Start(asset), before, [last]);
    RunInvariant(asset, before);
    LastIsApplied(Drive(Start(asset), before), last);
    StepDescribesHistory(before, Drive(Start(asset), before), last);
  }

  /** So the honest package with the chain's own flags shows no discrepancy, and with any other flags one. */
  lemma HonestPackageShowsItsFlags(
      asset: Digest, records: seq<RecordInput>, x: EpochInput, id: Bytes, flags: int, from: Option<nat>, o: Options)
    requires IsRun(Start(asset), records) && records != [] && BeginsWithin(from, |records|)
    requires Build(x).Ok? && (RunIsSigned(asset, records); Entry(id, LeafDigest(asset, records[|records| - 1])) in x.submitted)
    requires 0 <= flags <= 0xffff && KnowsHistory(o, records[..|records| - 1])
    requires (RunIsSigned(asset, records);
      HonestOptions(o, Build(x).value, HeadAt(asset, LeafDigests(asset, records), |records| - 1)))
    requires (RunIsSigned(asset, records); HonestlyTrusted(o, asset, LeafDigests(asset, records), from))
    ensures ApplyRecord(Drive(Start(asset), records[..|records| - 1]), records[|records| - 1]).Ok?
    ensures (RunIsSigned(asset, records); BuiltShape(x); HonestPackageVerifies(asset, records, x, id, flags, from, o);
      var given := ApplyRecord(Drive(Start(asset), records[..|records| - 1]), records[|records| - 1]).value.flags;
      Verdict(HonestPackage(asset, records, Proof(Build(x).value, id).value, flags, from), o).value.flags
        == FlagReport(flags, Some(given), Some(given != flags)))
  {
    hide *;
    var n := |records| - 1;
    assert records == records[..n] + [records[n]];
    DiscrepancyIsTrue(asset, records[..n], records[n], flags, o);
    HonestPackageVerifies(asset, records, x, id, flags, from, o);
  }

  lemma LastIsApplied(s: ChainState, last: RecordInput)
    requires IsRun(s, [last])
    ensures ApplyRecord(s, last).Ok?
  {
    hide ApplyRecord, HashOf;
  }

  // Position

  /** The leaves a verified package's position rests on, and the head they start from. */
  datatype Anchor = Anchor(fromGenesis: bool, start: Bytes, leaves: seq<Bytes>)

  function AnchorOf(pkg: Package, o: Options, v: Verified): Anchor {
    match pkg.chain.segment
    case Some(steps) =>
      var leaves := seq(|steps|, i requires 0 <= i < |steps| => steps[i].leaf);
      if |steps| == v.read.fields.seqNo then Anchor(true, pkg.chain.genesis, leaves)
      else Anchor(false, TrustedHead(o).GetOr(pkg.chain.genesis), leaves)
    case None =>
      if v.read.fields.seqNo == 1 then Anchor(true, pkg.chain.genesis, [v.leaf])
      else Anchor(false, ExpectedPrevHead(o).GetOr(pkg.chain.genesis), [v.leaf])
  }

  predicate AreLeaves(leaves: seq<Bytes>) {
    forall i :: 0 <= i < |leaves| ==> |leaves[i]| == 32
  }

  function AsDigests(leaves: seq<Bytes>): (r: seq<Digest>)
    requires AreLeaves(leaves)
    ensures r == leaves
  {
    seq(|leaves|, i requires 0 <= i < |leaves| => leaves[i])
  }

  /** Linked steps fold up to their last head from whatever head the first one follows. */
  lemma {:induction false} LinksFold(start: Digest, steps: seq<SegmentEntry>, leaves: seq<Digest>, n: nat)
    requires EntriesAreDigests(steps) && LinksHold(steps) && 0 < n <= |steps|
    requires AdvanceHead(start, steps[0].leaf) == steps[0].head
    requires |leaves| == |steps| && forall i :: 0 <= i < |steps| ==> leaves[i] == steps[i].leaf
    ensures HeadAfter(start, leaves[..n]) == steps[n - 1].head
  {
    hide AdvanceHead;
    if n > 1 { LinksFold(start, steps, leaves, n - 1); }
    assert leaves[..n][..n - 1] == leaves[..n - 1];
    assert leaves[..n][n - 1] == leaves[n - 1];
    assert n == 1 ==> HeadAfter(start, leaves[..0]) == start;
  }

  /** What a passed verification has established about its bytes and its chain fields. */
  lemma VerdictSays(pkg: Package, o: Options)
    requires Verdict(pkg, o).Ok?
    ensures var v := Verdict(pkg, o).value;
      var m := Leaf(v.read.asset, v.read.fields);
      && WellFormed(m) && v.leaf == HashOf(m) && DecodedPreimage(pkg) == Ok(Layout(m)) && v.read.fields.seqNo >= 1
      && |pkg.chain.prevHead| == |pkg.chain.head| == |pkg.chain.genesis| == 32
      && pkg.chain.genesis == HashOf(GenesisHead(v.read.asset, SCHEMA_VERSION))
      && Position(pkg, o, v.read.fields.seqNo, v.leaf, pkg.chain.genesis) == Ok(v.established)
      && AdvanceHead(pkg.chain.prevHead, v.leaf) == pkg.chain.head
  {
    hide ReadLeafPreimage, CompareJsonToBytes, CheckSignature, CheckInclusion, ComputeFlags, Position, Layout,
      GenesisHeadPreimage, AdvanceHead, Base64.Decode;
    var v := Verdict(pkg, o).value;
    var preimage := DecodedPreimage(pkg).value;
    ReadIsLayout(preimage);
  }

  /** A passed verification never contradicts the previous head its caller named. */
  lemma ExpectedHeadIsMet(pkg: Package, o: Options)
    requires Verdict(pkg, o).Ok?
    ensures o.chainContext.Some? && o.chainContext.value.expectedPrevHead.Some? ==>
      pkg.chain.prevHead == o.chainContext.value.expectedPrevHead.value
    ensures ExpectedPrevHead(o).Some? ==> pkg.chain.prevHead == ExpectedPrevHead(o).value
  {
    hide Verdict, Walked;
    VerdictSays(pkg, o);
  }

  lemma ReadIsLayout(preimage: Bytes)
    requires ReadLeafPreimage(preimage).Ok?
    ensures var read := ReadLeafPreimage(preimage).value;
      WellFormed(Leaf(read.asset, read.fields)) && Layout(Leaf(read.asset, read.fields)) == preimage && read.fields.seqNo >= 1
  {
    hide ReadLeafPreimage, LeafPreimage, Layout;
    var read := ReadLeafPreimage(preimage).value;
    ReadInvertsWrite(preimage, read);
    EncodeIsLayout(Leaf(read.asset, read.fields));
    EncodeLeaf(Leaf(read.asset, read.fields));
  }

  /** Exactly when a passed verification establishes the position, whatever segment it carries. */
  lemma EstablishedExactly(pkg: Package, o: Options)
    requires Verdict(pkg, o).Ok?
    ensures var v := Verdict(pkg, o).value;
      v.established <==>
        match pkg.chain.segment
        case Some(steps) => |steps| == v.read.fields.seqNo || TrustedHead(o).Some?
        case None => v.read.fields.seqNo == 1 || ExpectedPrevHead(o).Some?
    ensures pkg.chain.segment.Some? ==> 1 <= |pkg.chain.segment.value| <= Verdict(pkg, o).value.read.fields.seqNo
  {
    hide HashOf, AdvanceHead, Verdict, Layout, WellFormed, AdvanceFrom;
    VerdictSays(pkg, o);
  }

  /**
   A partial segment can take away what the caller's own head settles: where the caller named the previous
   head and trusts none, the same package without its segment is established, and with it is not.
   */
  lemma PartialSegmentUnsettles(pkg: Package, o: Options)
    requires Verdict(pkg, o).Ok? && !Verdict(pkg, o).value.established
    requires pkg.chain.segment.Some? && ExpectedPrevHead(o).Some?
    ensures Verdict(pkg.(chain := pkg.chain.(segment := None)), o) == Ok(Verdict(pkg, o).value.(established := true))
  {
    hide ReadLeafPreimage, CompareJsonToBytes, CheckInclusion, HashOf, AdvanceHead, JudgeFlags, Base64.Decode, Ed25519Verify;
    EstablishedExactly(pkg, o);
  }

  /** An established position is a fold of hashed steps from its anchor to the package's head. */
  lemma EstablishedIsAnchored(pkg: Package, o: Options)
    requires Verdict(pkg, o).Ok? && Verdict(pkg, o).value.established
    ensures var v := Verdict(pkg, o).value;
      var a := AnchorOf(pkg, o, v);
      && |a.start| == |pkg.chain.head| == 32 && AreLeaves(a.leaves) && a.leaves != []
      && a.leaves[|a.leaves| - 1] == v.leaf
      && HeadAfter(a.start, AsDigests(a.leaves)) == pkg.chain.head
      && (a.fromGenesis ==> a.start == HashOf(GenesisHead(v.read.asset, SCHEMA_VERSION)))
  {
    hide HashOf, AdvanceHead, Verdict, Layout, WellFormed;
    VerdictSays(pkg, o);
    var v := Verdict(pkg, o).value;
    var a := AnchorOf(pkg, o, v);
    if pkg.chain.segment.Some? {
      var steps := pkg.chain.segment.value;
      if |steps| != v.read.fields.seqNo { TrustedIsDigest(TrustedHead(o).value, steps[0].leaf); }
      LinksFold(a.start, steps, AsDigests(a.leaves), |steps|);
      assert AsDigests(a.leaves)[..|steps|] == AsDigests(a.leaves);
    } else {
      ExpectedHeadIsMet(pkg, o);
      assert AsDigests(a.leaves)[..0] == [];
      assert HeadAfter(a.start, []) == a.start;
    }
  }

  lemma TrustedIsDigest(head: Bytes, leaf: Digest)
    requires AdvanceFrom(head, leaf).Ok?
    ensures |head| == 32 && AdvanceFrom(head, leaf) == Ok(AdvanceHead(head, leaf))
  {
    hide AdvanceHead;
    if |head| == 32 { FromDigest(head, leaf); }
  }

  lemma EncodeStep(head: Bytes, leaf: Bytes)
    ensures Encode(StepHead(head, leaf)) == StepHeadPreimage(head, leaf)
  {
    hide StepHeadPreimage;
  }

  lemma {:induction false} HeadAfterAppend(start: Digest, ls: seq<Digest>, ms: seq<Digest>)
    ensures HeadAfter(start, ls + ms) == HeadAfter(HeadAfter(start, ls), ms)
  {
    hide AdvanceHead;
    if ms == [] {
      assert ls + ms == ls;
    } else {
      assert (ls + ms)[..|ls + ms| - 1] == ls + ms[..|ms| - 1];
      HeadAfterAppend(start, ls, ms[..|ms| - 1]);
    }
  }

  /** The caller's own head, when the anchor is one, is the head after m records of this run. */
  predicate AnchorIsOnRun(a: Anchor, asset: Digest, records: seq<RecordInput>, m: nat) {
    m <= |records|
    && if a.fromGenesis then m == 0 else a.start == Drive(Start(asset), records[..m]).head
  }

  /** The asset and the leaves a package claims for its chain: the run's first m, then its own. */
  function ClaimedAsset(a: Anchor, v: Verified, asset: Digest): Digest {
    if a.fromGenesis then v.read.asset else asset
  }

  function ClaimedLeaves(a: Anchor, asset: Digest, records: seq<RecordInput>, m: nat): seq<Digest>
    requires AreLeaves(a.leaves) && AllRecordable(asset, records) && m <= |records|
  {
    LeafDigests(asset, records)[..m] + AsDigests(a.leaves)
  }

  /**
   The package's side of a comparison: the heads it claims, its leaf and its last step. Where the caller
   anchored it, the claim includes the run's first heads up to the caller's, which the run hashed.
   */
  function PackageBytes(pkg: Package, a: Anchor, v: Verified, asset: Digest, records: seq<RecordInput>, m: nat): set<Bytes>
    requires AreLeaves(a.leaves) && AllRecordable(asset, records) && m <= |records|
    requires WellFormed(Leaf(v.read.asset, v.read.fields)) && |pkg.chain.prevHead| == 32
  {
    HeadBytes(ClaimedAsset(a, v, asset), ClaimedLeaves(a, asset, records, m))
    + {Layout(Leaf(v.read.asset, v.read.fields)), Layout(StepHead(pkg.chain.prevHead, v.leaf))}
  }

  /** The package's record is the last of the run: its asset, its number, its signed bytes and the head before it. */
  predicate IsLastOf(pkg: Package, v: Verified, asset: Digest, records: seq<RecordInput>) {
    records != []
    && v.read == LeafFromBytes(asset, LeafFieldsOf(records[|records| - 1]))
    && v.read.fields.seqNo == |records|
    && pkg.chain.prevHead == Drive(Start(asset), records[..|records| - 1]).head
  }

  lemma ClaimReachesHead(a: Anchor, v: Verified, head: Digest, asset: Digest, records: seq<RecordInput>, m: nat)
    requires IsRun(Start(asset), records) && AnchorIsOnRun(a, asset, records, m)
    requires |a.start| == 32 && AreLeaves(a.leaves) && HeadAfter(a.start, AsDigests(a.leaves)) == head
    requires a.fromGenesis ==> a.start == HashOf(GenesisHead(v.read.asset, SCHEMA_VERSION))
    ensures AllRecordable(asset, records)
    ensures var ls := ClaimedLeaves(a, asset, records, m);
      HeadAt(ClaimedAsset(a, v, asset), ls, |ls|) == head
  {
    hide HashOf, HeadAt, IsRun, Drive, Start, AllRecordable, HeadAfter;
    PrefixHead(asset, records, m);
    var own, first := AsDigests(a.leaves), LeafDigests(asset, records)[..m];
    var ls, c := first + own, ClaimedAsset(a, v, asset);
    HeadAtIsFold(c, ls, |ls|);
    assert ls[..|ls|] == ls;
    HeadAfterAppend(HashOf(GenesisHead(c, SCHEMA_VERSION)), first, own);
    HeadAtIsFold(asset, LeafDigests(asset, records), m);
    if a.fromGenesis { EmptyFold(a.start); assert first == []; }
  }

  lemma EmptyFold(start: Digest)
    ensures HeadAfter(start, []) == start
  {
  }

  /**
   A package verifies with its position established, and its head is a head of an accepted run. Then
   its record is the last of that run, or the package and the run hashed a collision.
   */
  lemma PositionIsSound(pkg: Package, o: Options, asset: Digest, records: seq<RecordInput>, m: nat)
    requires Verdict(pkg, o).Ok? && Verdict(pkg, o).value.established
    requires IsRun(Start(asset), records) && Drive(Start(asset), records).head == pkg.chain.head
    requires AnchorIsOnRun(AnchorOf(pkg, o, Verdict(pkg, o).value), asset, records, m)
    ensures (VerdictSays(pkg, o); EstablishedIsAnchored(pkg, o); PrefixHead(asset, records, m);
      var v := Verdict(pkg, o).value;
      var a := AnchorOf(pkg, o, v);
      CollisionBetween(PackageBytes(pkg, a, v, asset, records, m), RunBytes(asset, records))
      || (IsLastOf(pkg, v, asset, records) && m + |a.leaves| == |records|))
  {
    hide *;
    VerdictSays(pkg, o);
    EstablishedIsAnchored(pkg, o);
    var v := Verdict(pkg, o).value;
    var a := AnchorOf(pkg, o, v);
    AnchorInRange(a, asset, records, m);
    ClaimReachesHead(a, v, pkg.chain.head, asset, records, m);
    PrefixHead(asset, records, |records|);
    assert records[..|records|] == records;
    ClaimEndsAtLeaf(pkg, a, v, asset, records, m);
    var c, claimed := ClaimedAsset(a, v, asset), ClaimedLeaves(a, asset, records, m);
    var ls, n := LeafDigests(asset, records), |records|;
    var mine, theirs := PackageBytes(pkg, a, v, asset, records, m), RunBytes(asset, records);
    assert claimed[..|claimed|] == claimed && ls[..n] == ls;
    HeadsDetermineLeaves(c, claimed, |claimed|, asset, ls, n);
    if CollisionBetween(HeadBytes(c, claimed), HeadBytes(asset, ls)) {
      CollisionGrows(HeadBytes(c, claimed), HeadBytes(asset, ls), mine, theirs);
    } else {
      SameLeafSameRecord(v, asset, records, mine, theirs);
      SameStepSameHead(pkg.chain.prevHead, v.leaf, asset, ls, n, mine, theirs);
      PrefixHead(asset, records, n - 1);
      RunIsSigned(asset, records);
      if !CollisionBetween(mine, theirs) { LastOf(pkg, v, asset, records); }
    }
  }

  lemma LastOf(pkg: Package, v: Verified, asset: Digest, records: seq<RecordInput>)
    requires records != [] && v.read == LeafFromBytes(asset, LeafFieldsOf(records[|records| - 1]))
    requires LeafFieldsOf(records[|records| - 1]).seqNo == |records|
    requires pkg.chain.prevHead == Drive(Start(asset), records[..|records| - 1]).head
    ensures IsLastOf(pkg, v, asset, records)
  {
  }

  lemma AnchorInRange(a: Anchor, asset: Digest, records: seq<RecordInput>, m: nat)
    requires AnchorIsOnRun(a, asset, records, m)
    ensures m <= |records|
  {
  }

  lemma ClaimEndsAtLeaf(pkg: Package, a: Anchor, v: Verified, asset: Digest, records: seq<RecordInput>, m: nat)
    requires AreLeaves(a.leaves) && AllRecordable(asset, records) && m <= |records|
    requires WellFormed(Leaf(v.read.asset, v.read.fields)) && |pkg.chain.prevHead| == 32
    requires a.leaves != [] && a.leaves[|a.leaves| - 1] == v.leaf
    ensures var claimed := ClaimedLeaves(a, asset, records, m);
      |claimed| == m + |a.leaves| && claimed[|claimed| - 1] == v.leaf
    ensures HeadBytes(ClaimedAsset(a, v, asset), ClaimedLeaves(a, asset, records, m)) <= PackageBytes(pkg, a, v, asset, records, m)
    ensures Layout(Leaf(v.read.asset, v.read.fields)) in PackageBytes(pkg, a, v, asset, records, m)
    ensures Layout(StepHead(pkg.chain.prevHead, v.leaf)) in PackageBytes(pkg, a, v, asset, records, m)
    ensures RunBytes(asset, records) == HeadBytes(asset, LeafDigests(asset, records)) + LeafBytes(asset, records)
  {
    hide Layout, HeadBytes, WellFormed, AllRecordable, LeafDigests;
  }

  lemma SameLeafSameRecord(v: Verified, asset: Digest, records: seq<RecordInput>, mine: set<Bytes>, theirs: set<Bytes>)
    requires records != [] && AllRecordable(asset, records) && WellFormed(Leaf(v.read.asset, v.read.fields))
    requires HashOf(Leaf(v.read.asset, v.read.fields)) == LeafDigest(asset, records[|records| - 1])
    requires Layout(Leaf(v.read.asset, v.read.fields)) in mine && LeafBytes(asset, records) <= theirs
    ensures CollisionBetween(mine, theirs) || v.read == LeafFromBytes(asset, LeafFieldsOf(records[|records| - 1]))
  {
    hide HashOf, Layout;
    var last := Leaf(asset, LeafFieldsOf(records[|records| - 1]));
    assert Layout(last) in LeafBytes(asset, records);
    SameHash(Leaf(v.read.asset, v.read.fields), last, mine, theirs);
  }

  /** With the last leaf settled, the head before it is pinned by the head itself. */
  lemma SameStepSameHead(
      prevHead: Digest, leaf: Digest, asset: Digest, ls: seq<Digest>, n: nat, mine: set<Bytes>, theirs: set<Bytes>)
    requires 0 < n <= |ls| && ls[n - 1] == leaf && AdvanceHead(prevHead, leaf) == HeadAt(asset, ls, n)
    requires Layout(StepHead(prevHead, leaf)) in mine && HeadBytes(asset, ls) <= theirs
    ensures CollisionBetween(mine, theirs) || prevHead == HeadAt(asset, ls, n - 1)
  {
    hide HashOf, Layout;
    var step := HeadMessage(asset, ls, n);
    assert Layout(step) in HeadBytes(asset, ls);
    SameHash(StepHead(prevHead, leaf), step, mine, theirs);
    HeadAtIsFold(asset, ls, n - 1);
  }

  // What an unestablished position leaves open

  /** The segment of these leaves from any head. */
  function StepsFrom(start: Digest, leaves: seq<Digest>): (r: seq<SegmentEntry>)
    ensures |r| == |leaves|
    ensures forall i :: 0 <= i < |r| ==> r[i] == SegmentEntry(leaves[i], HeadAfter(start, leaves[..i + 1]))
  {
    seq(|leaves|, i requires 0 <= i < |leaves| => SegmentEntry(leaves[i], HeadAfter(start, leaves[..i + 1])))
  }

  /** The chain fields of another history: any earlier leaves, from any head, up to the same last leaf. */
  function AnotherChain(pkg: Package, leaf: Digest, start: Digest, earlier: seq<Digest>): ChainJson {
    var leaves := earlier + [leaf];
    ChainJson(HeadAfter(start, earlier), HeadAfter(start, leaves), pkg.chain.genesis,
              if pkg.chain.segment.Some? then Some(StepsFrom(start, leaves)) else None)
  }

  lemma StepsFromWalk(seqNo: int, start: Digest, earlier: seq<Digest>, leaf: Digest, genesis: Digest)
    requires |earlier| + 1 < seqNo
    ensures Walked(Some(StepsFrom(start, earlier + [leaf])), seqNo, leaf, HeadAfter(start, earlier),
                   HeadAfter(start, earlier + [leaf]), genesis, None) == Ok(Some(SegmentOutcome(false, |earlier| + 1)))
  {
    hide AdvanceHead, AdvanceFrom, HeadAfter;
    var leaves := earlier + [leaf];
    var steps, n := StepsFrom(start, leaves), |leaves|;
    forall i | 1 <= i < n ensures AdvanceHead(steps[i - 1].head, steps[i].leaf) == steps[i].head {
      HeadAfterNext(start, leaves, i);
    }
    assert leaves[..n] == leaves && leaves[..n - 1] == earlier;
  }

  lemma HeadAfterNext(start: Digest, leaves: seq<Digest>, i: nat)
    requires i < |leaves|
    ensures HeadAfter(start, leaves[..i + 1]) == AdvanceHead(HeadAfter(start, leaves[..i]), leaves[i])
  {
    hide AdvanceHead;
    assert leaves[..i + 1][..i] == leaves[..i];
  }

  /**
   Why an unestablished position is only reported: unless the caller named the previous head, the same
   signed bytes, proof and root verify just as well over any other history, from any head and with any
   earlier leaves, a segment among them if there was one. With none earlier, the head is any at all.
   */
  lemma UnestablishedMeansAnyHistory(pkg: Package, o: Options, start: Digest, earlier: seq<Digest>)
    requires Verdict(pkg, o).Ok? && !Verdict(pkg, o).value.established && ExpectedPrevHead(o).None?
    requires pkg.chain.segment.Some? ==> |earlier| + 1 < Verdict(pkg, o).value.read.fields.seqNo
    ensures var v := Verdict(pkg, o).value;
      Verdict(pkg.(chain := AnotherChain(pkg, v.leaf, start, earlier)), o) == Ok(v)
  {
    hide ReadLeafPreimage, CompareJsonToBytes, CheckInclusion, HashOf, AdvanceHead, JudgeFlags, Base64.Decode, Ed25519Verify,
      Walked, HeadAfter;
    EstablishedExactly(pkg, o);
    VerdictSays(pkg, o);
    var v := Verdict(pkg, o).value;
    var leaves, n := earlier + [v.leaf], v.read.fields.seqNo;
    HeadAfterNext(start, leaves, |earlier|);
    assert leaves[..|earlier| + 1] == leaves && leaves[..|earlier|] == earlier;
    var another := AnotherChain(pkg, v.leaf, start, earlier);
    if pkg.chain.segment.Some? {
      StepsFromWalk(n, start, earlier, v.leaf, pkg.chain.genesis);
    } else {
      NoSegment(n, v.leaf, another.prevHead, another.head, pkg.chain.genesis, TrustedHead(o));
    }
  }

  // What a verified package is

  /** A passed verification has every stage behind it. */
  lemma StagesPassed(pkg: Package, o: Options)
    requires Verdict(pkg, o).Ok?
    ensures var v := Verdict(pkg, o).value;
      && DecodedPreimage(pkg).Ok? && ReadLeafPreimage(DecodedPreimage(pkg).value) == Ok(v.read)
      && CompareJsonToBytes(pkg.record, v.read.fields).Ok?
      && CheckSignature(pkg, v.read.fields.qpKey, DecodedPreimage(pkg).value).Ok?
      && CheckInclusion(pkg.inclusion, o, v.leaf).Ok?
  {
    hide DecodedPreimage, ReadLeafPreimage, CompareJsonToBytes, CheckSignature, CheckChain, CheckInclusion, JudgeFlags;
  }

  function ProofOf(i: InclusionJson): InclusionProof {
    InclusionProof(i.height, i.siblings, i.slotIndex, i.epoch)
  }

  lemma InclusionPassed(i: InclusionJson, o: Options, leaf: Digest)
    requires CheckInclusion(i, o, leaf).Ok?
    ensures Accepts(leaf, ProofOf(i), o.root) && i.epoch == o.rootEpoch
    ensures o.configuredHeight.Some? ==> i.height == o.configuredHeight.value
  {
    hide Walk, Shl;
  }

  /** A verified package displays what its key signed, and its leaf walks to the caller's root. */
  lemma VerifiedIsSigned(pkg: Package, o: Options)
    requires Verdict(pkg, o).Ok?
    ensures var v := Verdict(pkg, o).value;
      && DisplayedFields(pkg.record) == v.read.fields
      && DecodedPreimage(pkg).Ok? && v.leaf == KECCAK256(DecodedPreimage(pkg).value) && pkg.qpSignature.Some?
      && Ed25519Verify(v.read.fields.qpKey, DecodedPreimage(pkg).value, pkg.qpSignature.value)
      && Accepts(v.leaf, ProofOf(pkg.inclusion), o.root) && pkg.inclusion.epoch == o.rootEpoch
  {
    hide DecodedPreimage, ReadLeafPreimage, CompareJsonToBytes, CheckInclusion, Accepts, Verdict, Layout, Ed25519Verify;
    StagesPassed(pkg, o);
    VerdictSays(pkg, o);
    InclusionPassed(pkg.inclusion, o, Verdict(pkg, o).value.leaf);
    DisplayMustAgree(pkg.record, DecodedPreimage(pkg).value);
  }

  lemma AcceptedShape(leaf: Digest, proof: InclusionProof, root: Bytes)
    requires Accepts(leaf, proof, root)
    ensures AreDigests(proof.siblings) && proof.slotIndex >= 0
  {
    hide Walk, Shl;
  }

  /**
   Against the root of a built epoch, a verified package's record is one that was submitted to it, and the
   package's own proof is the genuine one; or the walk and the build hashed a collision.
   */
  lemma VerifiedIsIncluded(pkg: Package, o: Options, x: EpochInput)
    requires Verdict(pkg, o).Ok? && Build(x).Ok? && o.root == Build(x).value.root && o.rootEpoch == x.epoch
    ensures AreDigests(pkg.inclusion.siblings) && pkg.inclusion.slotIndex >= 0
    ensures (BuiltShape(x);
      var v := Verdict(pkg, o).value;
      CollisionBetween(BuildBytes(x), WalkBytes(v.leaf, pkg.inclusion.siblings, pkg.inclusion.slotIndex))
      || exists s :: s in x.submitted && s.data == v.leaf && Proof(Build(x).value, s.id) == Ok(ProofOf(pkg.inclusion)))
  {
    hide *;
    BuiltShape(x);
    VerifiedIsSigned(pkg, o);
    var v, proof := Verdict(pkg, o).value, ProofOf(pkg.inclusion);
    AcceptedShape(v.leaf, proof, o.root);
    ProofOfIs(pkg.inclusion);
    InclusionIsSound(x, v.leaf, proof);
    assert proof.(epoch := x.epoch) == proof;
  }

  lemma ProofOfIs(i: InclusionJson)
    ensures ProofOf(i) == InclusionProof(i.height, i.siblings, i.slotIndex, i.epoch)
  {
  }
}

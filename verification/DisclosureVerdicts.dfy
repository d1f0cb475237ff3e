/**
 Exactly which packages verify, as which record, over the fields of the package and of the caller's
 options; and what each of the others is refused with.
 */
module DisclosureVerdicts {
  import opened Wrappers
  import opened Bytes
  import opened Preimages
  import opened Crypto
  import Base64
  import opened Merkle
  import opened EpochTree
  import opened Chain
  import opened Disclosure
  import opened DisclosureTheorems

  // What a verifying package says

  /** Its base64 is the leaf preimage of fields a chain could have accepted. */
  predicate BytesSay(pkg: Package, asset: Digest, f: LeafFields) {
    LeafPreimage(asset, f).Ok? && pkg.preimageBorsh == Base64.Encode(LeafPreimage(asset, f).value)
    && f.seqNo >= 1 && 0 <= f.category <= 4
  }

  predicate DisplaySays(r: RecordJson, f: LeafFields) {
    r.seqNo == f.seqNo && r.payloadDigest == f.payloadDigest && r.assessmentDigest == f.assessmentDigest && r.qpKey == f.qpKey
    && r.category == f.category && r.effectiveAt == f.effectiveAt && r.changeIdentifiedAt == f.changeIdentifiedAt
  }

  predicate SignatureSays(pkg: Package, qpKey: Bytes, preimage: Bytes) {
    pkg.qpSignature.Some? && |pkg.qpSignature.value| == 64 && Ed25519Verify(qpKey, preimage, pkg.qpSignature.value)
  }

  /** Every head follows from the one before, the last two are the package's, and the first has its anchor. */
  predicate SegmentSays(steps: seq<SegmentEntry>, c: ChainJson, o: Options, seqNo: int, leaf: Digest)
    requires |c.genesis| == 32
  {
    1 <= |steps| <= seqNo
    && (forall i :: 0 <= i < |steps| ==> |steps[i].leaf| == 32 && |steps[i].head| == 32)
    && (forall i :: 1 <= i < |steps| ==> AdvanceHead(steps[i - 1].head, steps[i].leaf) == steps[i].head)
    && steps[|steps| - 1] == SegmentEntry(leaf, c.head)
    && (|steps| > 1 ==> steps[|steps| - 2].head == c.prevHead)
    && (if |steps| == seqNo then
          AdvanceHead(c.genesis, steps[0].leaf) == steps[0].head && (|steps| == 1 ==> c.prevHead == c.genesis)
        else o.chainContext.Some? && o.chainContext.value.trustedHead.Some? ==>
          |o.chainContext.value.trustedHead.value| == 32
          && AdvanceHead(o.chainContext.value.trustedHead.value, steps[0].leaf) == steps[0].head)
  }

  predicate ChainSays(c: ChainJson, o: Options, asset: Digest, seqNo: int, leaf: Digest) {
    |c.prevHead| == |c.head| == |c.genesis| == 32 && c.genesis == KECCAK256(TAG_HEAD + asset + [1, 0])
    && (o.chainContext.Some? && o.chainContext.value.expectedPrevHead.Some? ==>
          c.prevHead == o.chainContext.value.expectedPrevHead.value)
    && (if c.segment.Some? then SegmentSays(c.segment.value, c, o, seqNo, leaf) else seqNo == 1 ==> c.prevHead == c.genesis)
    && AdvanceHead(c.prevHead, leaf) == c.head
  }

  predicate InclusionSays(i: InclusionJson, o: Options, leaf: Digest) {
    0 <= i.height <= 255 && 0 <= i.slotIndex <= 0xffff && i.epoch == o.rootEpoch
    && (o.configuredHeight.Some? ==> i.height == o.configuredHeight.value)
    && Accepts(leaf, InclusionProof(i.height, i.siblings, i.slotIndex, i.epoch), o.root)
  }

  predicate Says(pkg: Package, o: Options, asset: Digest, f: LeafFields) {
    pkg.schema == "certimining/v1/disclosure" && BytesSay(pkg, asset, f) && DisplaySays(pkg.record, f)
    && SignatureSays(pkg, f.qpKey, LeafPreimage(asset, f).value)
    && ChainSays(pkg.chain, o, asset, f.seqNo, KECCAK256(LeafPreimage(asset, f).value))
    && InclusionSays(pkg.inclusion, o, KECCAK256(LeafPreimage(asset, f).value))
    && 0 <= pkg.record.flags <= 0xffff
  }

  lemma BytesExactly(pkg: Package, asset: Digest, f: LeafFields)
    ensures DecodedPreimage(pkg).Ok? && ReadLeafPreimage(DecodedPreimage(pkg).value) == Ok(LeafFromBytes(asset, f))
      <==> BytesSay(pkg, asset, f)
    ensures BytesSay(pkg, asset, f) ==> DecodedPreimage(pkg) == LeafPreimage(asset, f)
  {
    hide ReadLeafPreimage, LeafPreimage, Base64.Decode, Base64.Encode;
    if LeafPreimage(asset, f).Ok? {
      var preimage := LeafPreimage(asset, f).value;
      Base64.DecodeInvertsEncode(pkg.preimageBorsh, preimage);
      ReadInvertsWrite(preimage, LeafFromBytes(asset, f));
    }
    if DecodedPreimage(pkg).Ok? {
      Base64.DecodeInvertsEncode(pkg.preimageBorsh, DecodedPreimage(pkg).value);
      ReadInvertsWrite(DecodedPreimage(pkg).value, LeafFromBytes(asset, f));
    }
  }

  lemma DisplayExactly(r: RecordJson, f: LeafFields)
    requires |f.payloadDigest| == |f.assessmentDigest| == |f.qpKey| == 32 && 0 <= f.category <= 255
    ensures CompareJsonToBytes(r, f).Ok? <==> DisplaySays(r, f)
  {
  }

  lemma SignatureExactly(pkg: Package, qpKey: Bytes, preimage: Bytes)
    ensures CheckSignature(pkg, qpKey, preimage).Ok? <==> SignatureSays(pkg, qpKey, preimage)
  {
    hide Ed25519Verify;
  }

  lemma SegmentExactly(pkg: Package, o: Options, seqNo: int, leaf: Digest)
    requires |pkg.chain.prevHead| == |pkg.chain.head| == |pkg.chain.genesis| == 32 && pkg.chain.segment.Some?
    ensures Walked(pkg.chain.segment, seqNo, leaf, pkg.chain.prevHead, pkg.chain.head, pkg.chain.genesis, TrustedHead(o)).Ok?
      <==> SegmentSays(pkg.chain.segment.value, pkg.chain, o, seqNo, leaf)
  {
    hide AdvanceHead, AdvanceFrom;
    var steps := pkg.chain.segment.value;
    if steps != [] && |steps[0].leaf| == 32 && TrustedHead(o).Some? { FromExactly(TrustedHead(o).value, steps[0].leaf); }
  }

  lemma FromExactly(head: Bytes, leaf: Digest)
    ensures if |head| == 32 then AdvanceFrom(head, leaf) == Ok(AdvanceHead(head, leaf))
            else AdvanceFrom(head, leaf) == Err(MalformedPayload)
  {
    hide AdvanceHead, Layout;
    if |head| == 32 { FromDigest(head, leaf); }
  }

  lemma ChainExactly(pkg: Package, o: Options, read: LeafFromBytes, leaf: Digest)
    ensures CheckChain(pkg, o, read, leaf).Ok? <==> ChainSays(pkg.chain, o, read.asset, read.fields.seqNo, leaf)
  {
    hide AdvanceHead, Walked, SegmentSays, HashOf, TAG_HEAD;
    GenesisIs(read.asset);
    if |pkg.chain.prevHead| == |pkg.chain.head| == |pkg.chain.genesis| == 32 {
      if pkg.chain.segment.Some? {
        SegmentExactly(pkg, o, read.fields.seqNo, leaf);
        if Walked(pkg.chain.segment, read.fields.seqNo, leaf, pkg.chain.prevHead, pkg.chain.head, pkg.chain.genesis, TrustedHead(o)).Ok? {
          WalkedSegment(pkg, read.fields.seqNo, leaf, pkg.chain.prevHead, pkg.chain.head, pkg.chain.genesis, TrustedHead(o));
        }
      } else {
        NoSegment(read.fields.seqNo, leaf, pkg.chain.prevHead, pkg.chain.head, pkg.chain.genesis, TrustedHead(o));
      }
    }
  }

  lemma GenesisIs(asset: Digest)
    ensures HashOf(GenesisHead(asset, SCHEMA_VERSION)) == KECCAK256(TAG_HEAD + asset + [1, 0])
  {
    hide HashOf, TAG_HEAD;
    DigestsAre(asset, asset, asset);
  }

  lemma InclusionExactly(i: InclusionJson, o: Options, leaf: Digest)
    ensures CheckInclusion(i, o, leaf).Ok? <==> InclusionSays(i, o, leaf)
  {
    hide Walk, CapacityOf;
  }

  /** A package verifies as a record exactly when it says so in every part: nothing less passes, and nothing more is asked. */
  lemma VerifiesExactly(pkg: Package, o: Options, asset: Digest, f: LeafFields)
    ensures Verdict(pkg, o).Ok? && Verdict(pkg, o).value.read == LeafFromBytes(asset, f) <==> Says(pkg, o, asset, f)
  {
    hide DecodedPreimage, ReadLeafPreimage, CompareJsonToBytes, CheckSignature, CheckChain, CheckInclusion, BytesSay, DisplaySays,
      SignatureSays, ChainSays, InclusionSays, LeafPreimage, ComputeFlags;
    BytesExactly(pkg, asset, f);
    if BytesSay(pkg, asset, f) {
      var preimage := DecodedPreimage(pkg).value;
      FieldsFit(pkg, asset, f);
      DisplayExactly(pkg.record, f);
      SignatureExactly(pkg, f.qpKey, preimage);
      ChainExactly(pkg, o, LeafFromBytes(asset, f), KECCAK256(preimage));
      InclusionExactly(pkg.inclusion, o, KECCAK256(preimage));
    }
  }

  lemma FieldsFit(pkg: Package, asset: Digest, f: LeafFields)
    requires BytesSay(pkg, asset, f)
    ensures |f.payloadDigest| == |f.assessmentDigest| == |f.qpKey| == 32 && 0 <= f.category <= 255 && f.seqNo >= 1
    ensures LeafPreimage(asset, f).Ok?
  {
    hide LeafPreimage, Layout, Base64.Encode;
    EncodeIsLayout(Leaf(asset, f));
    EncodeLeaf(Leaf(asset, f));
  }

  // What the others are refused with

  /** The stages, in order: what the first to fail says is what the verifier says. */
  lemma RefusedByStage(pkg: Package, o: Options)
    requires Verdict(pkg, o).Err?
    ensures Verdict(pkg, o).error ==
      if pkg.schema != "certimining/v1/disclosure" || Base64.Decode(pkg.preimageBorsh).Err? then MalformedPackage
      else
        var preimage := Base64.Decode(pkg.preimageBorsh).value;
        if ReadLeafPreimage(preimage).Err? then ReadLeafPreimage(preimage).error
        else
          var read, leaf := ReadLeafPreimage(preimage).value, KECCAK256(preimage);
          if CompareJsonToBytes(pkg.record, read.fields).Err? then CompareJsonToBytes(pkg.record, read.fields).error
          else if CheckSignature(pkg, read.fields.qpKey, preimage).Err? then CheckSignature(pkg, read.fields.qpKey, preimage).error
          else if CheckChain(pkg, o, read, leaf).Err? then CheckChain(pkg, o, read, leaf).error
          else if CheckInclusion(pkg.inclusion, o, leaf).Err? then CheckInclusion(pkg.inclusion, o, leaf).error
          else MalformedPackage
  {
    hide ReadLeafPreimage, CompareJsonToBytes, CheckSignature, CheckChain, CheckInclusion, Base64.Decode, ComputeFlags;
  }

  lemma ReadRefuses(preimage: Bytes)
    requires ReadLeafPreimage(preimage).Err?
    ensures ReadLeafPreimage(preimage).error ==
      if |preimage| != 161 then MalformedPayload
      else if preimage[..8] != TAG_LEAF then DomainTagMismatch
      else if ReadU64le(preimage, 40) == 0 then SequenceOutOfOrder else MalformedPayload
  {
    hide TAG_LEAF, FromLE;
    if |preimage| == 161 { assert preimage[8..][32..40] == preimage[40..48]; }
  }

  /** A field shown with another value is a mismatch, one that cannot be shown at all a malformed package. */
  lemma DisplayRefuses(r: RecordJson, f: LeafFields)
    requires CompareJsonToBytes(r, f).Err?
    ensures CompareJsonToBytes(r, f).error ==
      if r.seqNo != f.seqNo then JsonBorshMismatch
      else if |r.payloadDigest| != 32 then MalformedPackage
      else if r.payloadDigest != f.payloadDigest then JsonBorshMismatch
      else if |r.assessmentDigest| != 32 then MalformedPackage
      else if r.assessmentDigest != f.assessmentDigest then JsonBorshMismatch
      else if |r.qpKey| != 32 then MalformedPackage
      else if r.qpKey != f.qpKey then JsonBorshMismatch
      else if r.category < 0 || r.category > 255 then MalformedPackage else JsonBorshMismatch
  {
  }

  lemma SignatureRefuses(pkg: Package, qpKey: Bytes, preimage: Bytes)
    requires CheckSignature(pkg, qpKey, preimage).Err?
    ensures CheckSignature(pkg, qpKey, preimage).error ==
      if pkg.qpSignature.None? then AttestationMissing
      else if |pkg.qpSignature.value| != 64 then MalformedPackage else AttestationInvalid
  {
    hide Ed25519Verify;
  }

  /** Chain fields that are no digests are malformed; a chain that is not the one claimed is a head mismatch. */
  lemma ChainRefuses(pkg: Package, o: Options, read: LeafFromBytes, leaf: Digest)
    requires CheckChain(pkg, o, read, leaf).Err?
    ensures CheckChain(pkg, o, read, leaf).error ==
      var c := pkg.chain;
      if |c.prevHead| != 32 || |c.head| != 32 || |c.genesis| != 32 then MalformedPackage
      else if c.genesis != KECCAK256(TAG_HEAD + read.asset + [1, 0]) then HeadMismatch
      else if ExpectedPrevHead(o).Some? && c.prevHead != ExpectedPrevHead(o).value then HeadMismatch
      else if c.segment.None? || SegmentSays(c.segment.value, c, o, read.fields.seqNo, leaf) then HeadMismatch
      else SegmentFailure(c.segment.value, c, o, read.fields.seqNo, leaf)
  {
    hide AdvanceHead, Walked, SegmentSays, HashOf, TAG_HEAD, SegmentFailure;
    GenesisIs(read.asset);
    if |pkg.chain.prevHead| == |pkg.chain.head| == |pkg.chain.genesis| == 32 {
      if pkg.chain.segment.Some? {
        SegmentExactly(pkg, o, read.fields.seqNo, leaf);
        SegmentRefuses(pkg, o, read.fields.seqNo, leaf);
      } else {
        NoSegment(read.fields.seqNo, leaf, pkg.chain.prevHead, pkg.chain.head, pkg.chain.genesis, TrustedHead(o));
      }
    }
  }

  /** An empty segment, or one with an entry that is no digest, is malformed; every other bad one is a head mismatch. */
  function SegmentFailure(steps: seq<SegmentEntry>, c: ChainJson, o: Options, seqNo: int, leaf: Digest): Failure {
    if |steps| == 0 then MalformedPackage
    else if |steps| > seqNo then HeadMismatch
    else if exists i :: 0 <= i < |steps| && (|steps[i].leaf| != 32 || |steps[i].head| != 32) then MalformedPackage
    else if |steps| < seqNo && TrustedHead(o).Some? && |TrustedHead(o).value| != 32
      && (forall i :: 1 <= i < |steps| ==> AdvanceHead(steps[i - 1].head, steps[i].leaf) == steps[i].head)
      && steps[|steps| - 1] == SegmentEntry(leaf, c.head) && (|steps| > 1 ==> steps[|steps| - 2].head == c.prevHead)
    then MalformedPayload
    else HeadMismatch
  }

  lemma SegmentRefuses(pkg: Package, o: Options, seqNo: int, leaf: Digest)
    requires |pkg.chain.prevHead| == |pkg.chain.head| == |pkg.chain.genesis| == 32 && pkg.chain.segment.Some?
    ensures var w := Walked(pkg.chain.segment, seqNo, leaf, pkg.chain.prevHead, pkg.chain.head, pkg.chain.genesis, TrustedHead(o));
      w.Err? ==> w.error == SegmentFailure(pkg.chain.segment.value, pkg.chain, o, seqNo, leaf)
  {
    hide AdvanceHead, AdvanceFrom;
    var steps := pkg.chain.segment.value;
    if steps != [] && |steps[0].leaf| == 32 && TrustedHead(o).Some? { FromExactly(TrustedHead(o).value, steps[0].leaf); }
  }

  lemma InclusionRefuses(i: InclusionJson, o: Options, leaf: Digest)
    requires CheckInclusion(i, o, leaf).Err?
    ensures CheckInclusion(i, o, leaf).error ==
      if i.height < 0 || i.height > 255 || i.slotIndex < 0 || i.slotIndex > 0xffff || !AreDigests(i.siblings) then MalformedPackage
      else if i.epoch != o.rootEpoch then RootEpochMismatch else InclusionProofInvalid
  {
    hide Walk, CapacityOf;
  }

  /** The flag report: what was declared and, to a caller who gave a context, what the chain gives and whether they differ. */
  lemma FlagsReported(flags: int, o: Options, category: int)
    ensures JudgeFlags(flags, o, category) ==
      if flags < 0 || flags > 0xffff then Err(MalformedPackage)
      else if o.chainContext.None? then Ok(FlagReport(flags, None, None))
      else
        var c := o.chainContext.value;
        var given := (if category >= 3 && !c.sawResource then 1 else 0)
          + (if c.previousCategory.Some? && category < c.previousCategory.value then 2 else 0);
        Ok(FlagReport(flags, Some(given), Some(given != flags)))
  {
  }

  // What a report records of them

  /** The check a package that reads as this record comes to in this place of its trail, in its own words. */
  predicate Passes(pkg: Package, o: Options, asset: Digest, f: LeafFields, n: nat)
    requires LeafPreimage(asset, f).Ok?
  {
    var c, m := pkg.chain, if pkg.chain.segment.Some? then 8 else 7;
    var preimage := LeafPreimage(asset, f).value;
    var leaf := KECCAK256(preimage);
    (n == 2 ==> DisplaySays(pkg.record, f)) && (n == 4 ==> SignatureSays(pkg, f.qpKey, preimage))
    && (n == 5 ==> |c.prevHead| == |c.head| == |c.genesis| == 32 && c.genesis == KECCAK256(TAG_HEAD + asset + [1, 0]))
    && (n == 6 ==>
          |c.genesis| == 32 && (ExpectedPrevHead(o).Some? ==> c.prevHead == ExpectedPrevHead(o).value)
          && (if c.segment.Some? then SegmentSays(c.segment.value, c, o, f.seqNo, leaf) else f.seqNo == 1 ==> c.prevHead == c.genesis))
    && (n == m ==> |c.prevHead| == 32 && AdvanceHead(c.prevHead, leaf) == c.head)
    && (n == m + 1 ==> InclusionSays(pkg.inclusion, o, leaf)) && (n == m + 2 ==> 0 <= pkg.record.flags <= 0xffff)
  }

  /** What settles a position once its check has passed: all of the chain, a head the caller trusts, or one it named. */
  predicate Anchored(pkg: Package, o: Options, seqNo: int) {
    if pkg.chain.segment.Some? then |pkg.chain.segment.value| == seqNo || TrustedHead(o).Some?
    else seqNo == 1 || ExpectedPrevHead(o).Some?
  }

  /** Every check recorded passes, the first that does not is not recorded, and the position is settled if it came so far. */
  lemma RecordedExactly(pkg: Package, o: Options, asset: Digest, f: LeafFields)
    requires pkg.schema == "certimining/v1/disclosure" && BytesSay(pkg, asset, f)
    ensures LeafPreimage(asset, f).Ok?
    ensures var p, all := ProgressOf(pkg, o), if pkg.chain.segment.Some? then 11 else 10;
      && p.read == Some(LeafFromBytes(asset, f)) && 2 <= p.recorded <= all
      && p.leaf == (if p.recorded < 4 then None else Some(KECCAK256(LeafPreimage(asset, f).value)))
      && (forall n :: 2 <= n < p.recorded ==> Passes(pkg, o, asset, f, n))
      && (p.recorded < all ==> !Passes(pkg, o, asset, f, p.recorded))
      && (p.settled <==> p.recorded > 6 && Anchored(pkg, o, f.seqNo))
  {
    hide ReadLeafPreimage, DecodedPreimage, CompareJsonToBytes, CheckSignature, CheckChain, CheckInclusion, BytesSay, DisplaySays,
      SignatureSays, InclusionSays, LeafPreimage, ComputeFlags, HashOf, AdvanceHead, SegmentSays, Position, TAG_HEAD;
    BytesExactly(pkg, asset, f);
    FieldsFit(pkg, asset, f);
    var preimage, read := DecodedPreimage(pkg).value, LeafFromBytes(asset, f);
    var leaf := KECCAK256(preimage);
    DisplayExactly(pkg.record, f);
    SignatureExactly(pkg, f.qpKey, preimage);
    ChainStages(pkg, o, read, leaf);
    InclusionExactly(pkg.inclusion, o, leaf);
    GenesisIs(asset);
  }

  lemma ChainStages(pkg: Package, o: Options, read: LeafFromBytes, leaf: Digest)
    ensures CheckChain(pkg, o, read, leaf).Ok? <==> ChainReached(pkg, o, read, leaf) == if pkg.chain.segment.Some? then 9 else 8
    ensures ChainReads(pkg, read) && read.fields.seqNo >= 1 ==>
      var p, c := Position(pkg, o, read.fields.seqNo, leaf, pkg.chain.genesis), pkg.chain;
      && (p.Ok? <==> (ExpectedPrevHead(o).Some? ==> c.prevHead == ExpectedPrevHead(o).value)
                     && (if c.segment.Some? then SegmentSays(c.segment.value, c, o, read.fields.seqNo, leaf)
                         else read.fields.seqNo == 1 ==> c.prevHead == c.genesis))
      && (p.Ok? ==> p.value == Anchored(pkg, o, read.fields.seqNo))
  {
    hide AdvanceHead, Walked, SegmentSays, HashOf;
    var c := pkg.chain;
    if ChainReads(pkg, read) {
      if c.segment.Some? {
        SegmentExactly(pkg, o, read.fields.seqNo, leaf);
        SegmentSettles(pkg, o, read.fields.seqNo, leaf);
      } else {
        NoSegment(read.fields.seqNo, leaf, c.prevHead, c.head, c.genesis, TrustedHead(o));
      }
    }
  }

  lemma SegmentSettles(pkg: Package, o: Options, seqNo: int, leaf: Digest)
    requires |pkg.chain.prevHead| == |pkg.chain.head| == |pkg.chain.genesis| == 32 && pkg.chain.segment.Some?
    ensures var w := Walked(pkg.chain.segment, seqNo, leaf, pkg.chain.prevHead, pkg.chain.head, pkg.chain.genesis, TrustedHead(o));
      w.Ok? ==> w.value.Some? && w.value.value.established == (|pkg.chain.segment.value| == seqNo || TrustedHead(o).Some?)
  {
    hide AdvanceHead, AdvanceFrom;
  }

  /** Before the bytes are read, nothing is recorded but the closed list. */
  lemma NothingRead(pkg: Package, o: Options)
    ensures pkg.schema != "certimining/v1/disclosure" ==> ProgressOf(pkg, o) == Progress(None, None, false, 0)
    ensures pkg.schema == "certimining/v1/disclosure" && (forall asset, f :: !BytesSay(pkg, asset, f)) ==>
      ProgressOf(pkg, o) == Progress(None, None, false, 1)
  {
    hide ReadLeafPreimage, DecodedPreimage, BytesSay;
    if DecodedPreimage(pkg).Ok? && ReadLeafPreimage(DecodedPreimage(pkg).value).Ok? {
      var read := ReadLeafPreimage(DecodedPreimage(pkg).value).value;
      BytesExactly(pkg, read.asset, read.fields);
    }
  }
}

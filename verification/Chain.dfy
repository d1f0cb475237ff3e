/** The asset chain of ts/src/chain.ts: genesis, the transition and its refusals, and whole runs. */
module Chain {
  import opened Wrappers
  import opened Arith
  import opened Bytes
  import opened Preimages
  import opened Crypto

  const SCHEMA_VERSION: int := 1
  const FLAG_RESERVE_WITHOUT_PRIOR_RESOURCE: nat := 1
  const FLAG_CATEGORY_DOWNGRADE: nat := 2
  const CATEGORY_MIN: int := 0
  const CATEGORY_MAX: int := 4
  const RESOURCE_CATEGORIES: set<int> := {1, 2}
  const FIRST_RESERVE_CATEGORY: int := 3

  datatype RecordInput = RecordInput(
    prevHead: Bytes, seqNo: int, payloadDigest: Bytes, assessmentDigest: Bytes, qpKey: Bytes,
    expectedQpKey: Option<Bytes>, signature: Option<Bytes>, category: int, effectiveAt: int,
    changeIdentifiedAt: int, payloadUri: Bytes, extCommitment: Option<Bytes>)

  datatype ChainState = ChainState(
    asset: Digest, schemaVersion: int, head: Digest, seqNo: int, lastEffectiveAt: Option<int>,
    sawResource: bool, previousCategory: Option<int>)

  datatype Applied = Applied(leaf: Digest, head: Digest, flags: nat)

  function GenesisHeadOf(asset: Digest, schemaVersion: int): Result<Digest, Failure> {
    if schemaVersion != SCHEMA_VERSION then Err(UnsupportedSchemaVersion) else Ok(HashOf(GenesisHead(asset, schemaVersion)))
  }

  function AdvanceHead(prevHead: Digest, leaf: Digest): Digest {
    HashOf(StepHead(prevHead, leaf))
  }

  function LeafFieldsOf(r: RecordInput): LeafFields {
    LeafFields(r.seqNo, r.payloadDigest, r.assessmentDigest, r.qpKey, r.category, r.effectiveAt, r.changeIdentifiedAt)
  }

  // Well-formed locations

  const URI_SCHEMES: seq<Bytes> := [Ascii("ipfs://"), Ascii("https://"), Ascii("ar://")]

  predicate IsWellFormedPayloadUri(uri: Bytes) {
    1 <= |uri| <= 128
    && (forall i :: 0 <= i < |uri| ==> 0x20 < uri[i] < 0x7f)
    && exists k :: 0 <= k < |URI_SCHEMES| && URI_SCHEMES[k] < uri
  }

  method CheckPayloadUri(uri: Bytes) returns (r: bool)
    ensures r == IsWellFormedPayloadUri(uri)
  {
    if |uri| < 1 || |uri| > 128 { return false; }
    for i := 0 to |uri|
      invariant forall k :: 0 <= k < i ==> 0x20 < uri[k] < 0x7f
    {
      if uri[i] <= 0x20 || uri[i] >= 0x7f { return false; }
    }
    for k := 0 to |URI_SCHEMES|
      invariant forall j :: 0 <= j < k ==> !(URI_SCHEMES[j] < uri)
    {
      if URI_SCHEMES[k] <= uri && |uri| > |URI_SCHEMES[k]| { return true; }
    }
    return false;
  }

  // Flags

  /** What the engine noticed about a category, never a reason to refuse. */
  function ComputeFlags(sawResource: bool, previousCategory: Option<int>, category: int): nat {
    (if category >= FIRST_RESERVE_CATEGORY && !sawResource then FLAG_RESERVE_WITHOUT_PRIOR_RESOURCE else 0)
    + (if previousCategory.Some? && category < previousCategory.value then FLAG_CATEGORY_DOWNGRADE else 0)
  }

  method FlagsFor(state: ChainState, category: int) returns (flags: nat)
    ensures flags == ComputeFlags(state.sawResource, state.previousCategory, category)
  {
    flags := 0;
    if category >= FIRST_RESERVE_CATEGORY && !state.sawResource {
      flags := Or(flags, FLAG_RESERVE_WITHOUT_PRIOR_RESOURCE);
    }
    if state.previousCategory.Some? && category < state.previousCategory.value {
      flags := Or(flags, FLAG_CATEGORY_DOWNGRADE);
    }
  }

  // The transition

  function ApplyRecord(state: ChainState, r: RecordInput): Result<Applied, Failure> {
    if state.schemaVersion != SCHEMA_VERSION then Err(UnsupportedSchemaVersion)
    else if r.extCommitment.Some? then Err(UnsupportedSchemaVersion)
    else if r.prevHead != state.head then Err(HeadMismatch)
    else if state.seqNo >= U64_MAX then Err(ArithmeticOverflow)
    else if r.seqNo != state.seqNo + 1 then Err(SequenceOutOfOrder)
    else if r.expectedQpKey.Some? && r.expectedQpKey.value != r.qpKey then Err(AttestationKeyMismatch)
    else if r.signature.None? then Err(AttestationMissing)
    else
      var preimage :- LeafPreimage(state.asset, LeafFieldsOf(r));
      if !Ed25519Verify(r.qpKey, preimage, r.signature.value) then Err(AttestationInvalid)
      else if state.lastEffectiveAt.Some? && r.effectiveAt < state.lastEffectiveAt.value then Err(NonMonotonicEffectiveAt)
      else if r.category < CATEGORY_MIN || r.category > CATEGORY_MAX then Err(MalformedPayload)
      else if !IsWellFormedPayloadUri(r.payloadUri) then Err(MalformedPayload)
      else
        var leaf := KECCAK256(preimage);
        Ok(Applied(leaf, AdvanceHead(state.head, leaf), ComputeFlags(state.sawResource, state.previousCategory, r.category)))
  }

  function Commit(state: ChainState, r: RecordInput, applied: Applied): ChainState {
    state.(head := applied.head, seqNo := r.seqNo, lastEffectiveAt := Some(r.effectiveAt),
           sawResource := state.sawResource || r.category in RESOURCE_CATEGORIES,
           previousCategory := Some(r.category))
  }

  /** A chain before its first record. */
  function Start(asset: Digest): ChainState {
    ChainState(asset, SCHEMA_VERSION, HashOf(GenesisHead(asset, SCHEMA_VERSION)), 0, None, false, None)
  }

  /** A chain starts from its genesis head, and under no schema but this one. */
  lemma StartIsGenesis(asset: Digest, schemaVersion: int)
    ensures GenesisHeadOf(asset, schemaVersion)
      == if schemaVersion == SCHEMA_VERSION then Ok(Start(asset).head) else Err(UnsupportedSchemaVersion)
    ensures GenesisHeadOf(asset, schemaVersion).Err? ==>
      forall r :: ApplyRecord(Start(asset).(schemaVersion := schemaVersion), r) == Err(UnsupportedSchemaVersion)
  {
    hide HashOf;
  }

  // What is accepted, and what the rest is refused with

  predicate SignatureHolds(asset: Digest, r: RecordInput) {
    r.signature.Some? && LeafPreimage(asset, LeafFieldsOf(r)).Ok?
    && Ed25519Verify(r.qpKey, LeafPreimage(asset, LeafFieldsOf(r)).value, r.signature.value)
  }

  /** Exactly which records a chain accepts. */
  lemma AcceptedExactly(state: ChainState, r: RecordInput)
    ensures ApplyRecord(state, r).Ok? <==>
      state.schemaVersion == 1 && r.extCommitment.None?
      && r.prevHead == state.head && r.seqNo == state.seqNo + 1 && state.seqNo < 0xffff_ffff_ffff_ffff
      && (r.expectedQpKey.Some? ==> r.expectedQpKey.value == r.qpKey) && SignatureHolds(state.asset, r)
      && (state.lastEffectiveAt.Some? ==> state.lastEffectiveAt.value <= r.effectiveAt)
      && 0 <= r.category <= 4 && IsWellFormedPayloadUri(r.payloadUri)
    ensures ApplyRecord(state, r).Ok? ==>
      ApplyRecord(state, r).value.leaf == KECCAK256(LeafPreimage(state.asset, LeafFieldsOf(r)).value)
      && ApplyRecord(state, r).value.head == AdvanceHead(state.head, ApplyRecord(state, r).value.leaf)
  {
    hide LeafPreimage, IsWellFormedPayloadUri, AdvanceHead, Ed25519Verify, ComputeFlags;
  }

  /** What a record that is not accepted is refused with: the first it fails of all it must meet. */
  lemma RefusedByTheFirst(state: ChainState, r: RecordInput)
    requires ApplyRecord(state, r).Err?
    ensures ApplyRecord(state, r).error ==
      if state.schemaVersion != 1 || r.extCommitment.Some? then UnsupportedSchemaVersion
      else if r.prevHead != state.head then HeadMismatch
      else if state.seqNo >= 0xffff_ffff_ffff_ffff then ArithmeticOverflow
      else if r.seqNo != state.seqNo + 1 then SequenceOutOfOrder
      else if r.expectedQpKey.Some? && r.expectedQpKey.value != r.qpKey then AttestationKeyMismatch
      else if r.signature.None? then AttestationMissing
      else if LeafPreimage(state.asset, LeafFieldsOf(r)).Err? then LeafPreimage(state.asset, LeafFieldsOf(r)).error
      else if !SignatureHolds(state.asset, r) then AttestationInvalid
      else if state.lastEffectiveAt.Some? && r.effectiveAt < state.lastEffectiveAt.value then NonMonotonicEffectiveAt
      else MalformedPayload
  {
    hide LeafPreimage, IsWellFormedPayloadUri, AdvanceHead, Ed25519Verify, ComputeFlags;
  }

  /** The locations accepted: 1 to 128 printable bytes that go on past `ipfs://`, `https://` or `ar://`. */
  lemma LocationsAre(uri: Bytes)
    ensures IsWellFormedPayloadUri(uri) <==>
      1 <= |uri| <= 128 && (forall i :: 0 <= i < |uri| ==> 0x21 <= uri[i] <= 0x7e)
      && ((|uri| > 7 && uri[..7] == [0x69, 0x70, 0x66, 0x73, 0x3a, 0x2f, 0x2f])
          || (|uri| > 8 && uri[..8] == [0x68, 0x74, 0x74, 0x70, 0x73, 0x3a, 0x2f, 0x2f])
          || (|uri| > 5 && uri[..5] == [0x61, 0x72, 0x3a, 0x2f, 0x2f]))
  {
    SchemesAre();
    assert URI_SCHEMES[0] < uri <==> |uri| > 7 && uri[..7] == URI_SCHEMES[0];
    assert URI_SCHEMES[1] < uri <==> |uri| > 8 && uri[..8] == URI_SCHEMES[1];
    assert URI_SCHEMES[2] < uri <==> |uri| > 5 && uri[..5] == URI_SCHEMES[2];
  }

  lemma SchemesAre()
    ensures |URI_SCHEMES| == 3
    ensures URI_SCHEMES[0] == [0x69, 0x70, 0x66, 0x73, 0x3a, 0x2f, 0x2f]
    ensures URI_SCHEMES[1] == [0x68, 0x74, 0x74, 0x70, 0x73, 0x3a, 0x2f, 0x2f]
    ensures URI_SCHEMES[2] == [0x61, 0x72, 0x3a, 0x2f, 0x2f]
  {
  }

  /** The digests of a chain, by the bytes they are of. */
  lemma DigestsAre(asset: Digest, prevHead: Digest, leaf: Digest)
    ensures GenesisHeadOf(asset, 1) == Ok(KECCAK256(TAG_HEAD + asset + [1, 0]))
    ensures AdvanceHead(prevHead, leaf) == KECCAK256(TAG_HEAD + prevHead + leaf)
  {
    hide TAG_HEAD;
    LayoutsAre(GenesisHead(asset, SCHEMA_VERSION));
    LayoutsAre(StepHead(prevHead, leaf));
    assert LE(1, 2) == [1, 0];
  }

  // Runs: any attempts, of which the refused ones leave the chain where it was

  function Step(state: ChainState, r: RecordInput): ChainState {
    match ApplyRecord(state, r)
    case Ok(applied) => Commit(state, r, applied)
    case Err(_) => state
  }

  function Drive(state: ChainState, attempts: seq<RecordInput>): ChainState
    decreases |attempts|
  {
    if attempts == [] then state else Drive(Step(state, attempts[0]), attempts[1..])
  }

  /** The attempts a chain accepted, in order. */
  function Accepted(state: ChainState, attempts: seq<RecordInput>): seq<RecordInput>
    decreases |attempts|
  {
    if attempts == [] then []
    else
      (if ApplyRecord(state, attempts[0]).Ok? then [attempts[0]] else [])
      + Accepted(Step(state, attempts[0]), attempts[1..])
  }

  /** The flags each accepted attempt was answered with, in order. */
  function FlagsGiven(state: ChainState, attempts: seq<RecordInput>): seq<nat>
    decreases |attempts|
  {
    if attempts == [] then []
    else
      (match ApplyRecord(state, attempts[0]) case Ok(applied) => [applied.flags] case Err(_) => [])
      + FlagsGiven(Step(state, attempts[0]), attempts[1..])
  }

  /** All of these records are accepted, one after the other. */
  predicate IsRun(state: ChainState, records: seq<RecordInput>)
    decreases |records|
  {
    records == [] || (ApplyRecord(state, records[0]).Ok? && IsRun(Step(state, records[0]), records[1..]))
  }

  /** Refused attempts may be dropped: the accepted ones alone are a run to the same state. */
  lemma {:induction false} RefusalsChangeNothing(state: ChainState, attempts: seq<RecordInput>)
    ensures IsRun(state, Accepted(state, attempts))
    ensures Drive(state, Accepted(state, attempts)) == Drive(state, attempts)
    ensures FlagsGiven(state, Accepted(state, attempts)) == FlagsGiven(state, attempts)
    decreases |attempts|
  {
    hide ApplyRecord, HashOf;
    if attempts != [] {
      var next := Step(state, attempts[0]);
      RefusalsChangeNothing(next, attempts[1..]);
      if ApplyRecord(state, attempts[0]).Ok? {
        assert Accepted(state, attempts)[1..] == Accepted(next, attempts[1..]);
      } else {
        assert Accepted(state, attempts) == Accepted(next, attempts[1..]);
      }
    }
  }

  /** Stopping anywhere and resuming from the snapshot gives the same states and the same acceptances. */
  lemma {:induction false} ResumingIsTheSameRun(state: ChainState, first: seq<RecordInput>, rest: seq<RecordInput>)
    ensures Drive(state, first + rest) == Drive(Drive(state, first), rest)
    ensures Accepted(state, first + rest) == Accepted(state, first) + Accepted(Drive(state, first), rest)
    ensures FlagsGiven(state, first + rest) == FlagsGiven(state, first) + FlagsGiven(Drive(state, first), rest)
    ensures IsRun(state, first + rest) <==> IsRun(state, first) && IsRun(Drive(state, first), rest)
    decreases |first|
  {
    hide ApplyRecord, HashOf, Step;
    if first == [] {
      assert first + rest == rest;
    } else {
      assert (first + rest)[1..] == first[1..] + rest;
      ResumingIsTheSameRun(Step(state, first[0]), first[1..], rest);
    }
  }

  // The invariant of a run

  /** The head after these leaf digests, from a starting head. */
  function HeadAfter(start: Digest, leaves: seq<Digest>): Digest {
    if leaves == [] then start else AdvanceHead(HeadAfter(start, leaves[..|leaves| - 1]), leaves[|leaves| - 1])
  }

  predicate Recordable(asset: Digest, r: RecordInput) {
    WellFormed(Leaf(asset, LeafFieldsOf(r)))
  }

  predicate AllRecordable(asset: Digest, records: seq<RecordInput>) {
    forall i :: 0 <= i < |records| ==> Recordable(asset, records[i])
  }

  /** The digest of the 161 bytes a record is signed over. */
  function LeafDigest(asset: Digest, r: RecordInput): Digest
    requires Recordable(asset, r)
  {
    HashOf(Leaf(asset, LeafFieldsOf(r)))
  }

  function LeafDigests(asset: Digest, records: seq<RecordInput>): (r: seq<Digest>)
    requires AllRecordable(asset, records)
    ensures |r| == |records|
    ensures forall i :: 0 <= i < |r| ==> r[i] == LeafDigest(asset, records[i])
  {
    seq(|records|, i requires 0 <= i < |records| => LeafDigest(asset, records[i]))
  }

  predicate SawResource(records: seq<RecordInput>) {
    exists i :: 0 <= i < |records| && (records[i].category == 1 || records[i].category == 2)
  }

  /** What the flags of a record must be: a reserve no resource came before, a category below the last. */
  function FlagsFromHistory(history: seq<RecordInput>, category: int): nat {
    (if category >= 3 && !SawResource(history) then 1 else 0)
    + (if history != [] && category < history[|history| - 1].category then 2 else 0)
  }

  /** What every accepted record is, besides signed: of this schema, for the key expected, with a well-formed location. */
  predicate Admissible(r: RecordInput) {
    r.extCommitment.None? && (r.expectedQpKey.Some? ==> r.expectedQpKey.value == r.qpKey) && IsWellFormedPayloadUri(r.payloadUri)
  }

  /** A state says about its records exactly what they are. */
  ghost predicate Describes(asset: Digest, records: seq<RecordInput>, s: ChainState) {
    DescribesHead(asset, records, s) && DescribesHistory(records, s)
  }

  /** The head is the fold of the leaves, every one of them signed, and each record names the head before it. */
  ghost predicate DescribesHead(asset: Digest, records: seq<RecordInput>, s: ChainState) {
    && s.asset == asset && s.schemaVersion == 1
    && AllRecordable(asset, records)
    && s.head == HeadAfter(HashOf(GenesisHead(asset, 1)), LeafDigests(asset, records))
    && (forall i :: 0 <= i < |records| ==> SignedBy(asset, records[i]) && Admissible(records[i]))
    && (forall i :: 0 <= i < |records| ==>
          records[i].prevHead == HeadAfter(HashOf(GenesisHead(asset, 1)), LeafDigests(asset, records)[..i]))
  }

  /** The counters are those of the records, which are numbered, dated in order and of known category. */
  ghost predicate DescribesHistory(records: seq<RecordInput>, s: ChainState) {
    && s.seqNo == |records| <= 0xffff_ffff_ffff_ffff
    && s.lastEffectiveAt == (if records == [] then None else Some(records[|records| - 1].effectiveAt))
    && s.previousCategory == (if records == [] then None else Some(records[|records| - 1].category))
    && (s.sawResource <==> SawResource(records))
    && (forall i :: 0 <= i < |records| ==> records[i].seqNo == i + 1 && 0 <= records[i].category <= 4)
    && (forall i, j :: 0 <= i < j < |records| ==> records[i].effectiveAt <= records[j].effectiveAt)
  }

  /** The qualified person's key signed the leaf preimage of this record. */
  predicate SignedBy(asset: Digest, r: RecordInput) {
    Recordable(asset, r) && r.signature.Some?
    && Ed25519Verify(r.qpKey, Layout(Leaf(asset, LeafFieldsOf(r))), r.signature.value)
  }

  lemma StartDescribesNothing(asset: Digest)
    ensures Describes(asset, [], Start(asset))
  {
  }

  lemma AcceptanceIsSigned(state: ChainState, r: RecordInput)
    requires ApplyRecord(state, r).Ok?
    ensures SignedBy(state.asset, r)
    ensures ApplyRecord(state, r).value.leaf == LeafDigest(state.asset, r)
  {
    hide Layout, LeafPreimage, IsWellFormedPayloadUri;
    EncodeIsLayout(Leaf(state.asset, LeafFieldsOf(r)));
  }

  lemma HeadGrows(start: Digest, leaves: seq<Digest>, leaf: Digest)
    ensures HeadAfter(start, leaves + [leaf]) == AdvanceHead(HeadAfter(start, leaves), leaf)
  {
    hide AdvanceHead;
    assert (leaves + [leaf])[..|leaves|] == leaves;
  }

  lemma StepDescribesHead(asset: Digest, records: seq<RecordInput>, s: ChainState, r: RecordInput)
    requires DescribesHead(asset, records, s) && ApplyRecord(s, r).Ok?
    ensures DescribesHead(asset, records + [r], Step(s, r))
  {
    hide HashOf, LeafPreimage, IsWellFormedPayloadUri, Layout, ComputeFlags, Recordable, HeadAfter, Ed25519Verify;
    AcceptanceIsSigned(s, r);
    HeadGrows(HashOf(GenesisHead(asset, 1)), LeafDigests(asset, records), LeafDigest(asset, r));
    var all := records + [r];
    assert AllRecordable(asset, all);
    var leaves := LeafDigests(asset, all);
    assert leaves == LeafDigests(asset, records) + [LeafDigest(asset, r)];
    assert leaves[..|records|] == LeafDigests(asset, records);
    assert forall i :: 0 <= i <= |records| ==> leaves[..i] == leaves[..|records|][..i];
  }

  lemma StepDescribesHistory(records: seq<RecordInput>, s: ChainState, r: RecordInput)
    requires DescribesHistory(records, s) && ApplyRecord(s, r).Ok?
    ensures DescribesHistory(records + [r], Step(s, r))
    ensures ApplyRecord(s, r).value.flags == FlagsFromHistory(records, r.category) <= 3
  {
    hide HashOf, LeafPreimage, IsWellFormedPayloadUri, AdvanceHead;
    var all := records + [r];
    if r.category == 1 || r.category == 2 { assert all[|records|].category == r.category; }
    if SawResource(records) {
      var i :| 0 <= i < |records| && (records[i].category == 1 || records[i].category == 2);
      assert all[i].category == records[i].category;
    }
  }

  /** Flags recomputed, record by record, over the full history before each. */
  function RecomputedFlags(records: seq<RecordInput>): seq<nat> {
    if records == [] then []
    else
      var n := |records| - 1;
      RecomputedFlags(records[..n]) + [FlagsFromHistory(records[..n], records[n].category)]
  }

  /** After any run from genesis the state describes the records, and the flags kept are those recomputed. */
  lemma {:induction false} RunInvariant(asset: Digest, records: seq<RecordInput>)
    requires IsRun(Start(asset), records)
    ensures Describes(asset, records, Drive(Start(asset), records))
    ensures forall i :: 0 <= i < |records| ==> records[i].prevHead == Drive(Start(asset), records[..i]).head
    ensures FlagsGiven(Start(asset), records) == RecomputedFlags(records)
    ensures forall i :: 0 <= i < |RecomputedFlags(records)| ==> RecomputedFlags(records)[i] <= 3
  {
    hide ApplyRecord, HashOf, DescribesHead, DescribesHistory, FlagsFromHistory;
    var start := Start(asset);
    if records == [] {
      StartDescribesNothing(asset);
    } else {
      var n := |records| - 1;
      var before, r := records[..n], records[n];
      assert records == before + [r];
      ResumingIsTheSameRun(start, before, [r]);
      RunInvariant(asset, before);
      var s := Drive(start, before);
      assert Drive(s, [r]) == Step(s, r);
      assert IsRun(s, [r]);
      StepDescribesHead(asset, before, s, r);
      StepDescribesHistory(before, s, r);
      AcceptedExactly(s, r);
      assert forall i :: 0 <= i < n ==> records[..i] == before[..i];
      assert FlagsGiven(s, [r]) == [ApplyRecord(s, r).value.flags];
    }
  }

  /** The same for any attempts at all, accepted or refused. */
  lemma AnyAttemptsInvariant(asset: Digest, attempts: seq<RecordInput>)
    ensures Describes(asset, Accepted(Start(asset), attempts), Drive(Start(asset), attempts))
    ensures var accepted := Accepted(Start(asset), attempts);
      forall i :: 0 <= i < |accepted| ==> accepted[i].prevHead == Drive(Start(asset), accepted[..i]).head
    ensures FlagsGiven(Start(asset), attempts) == RecomputedFlags(Accepted(Start(asset), attempts))
  {
    hide *;
    RefusalsChangeNothing(Start(asset), attempts);
    RunInvariant(asset, Accepted(Start(asset), attempts));
  }

  // A head fixes its history

  /** What is hashed for the head at a position: the genesis message, or the step to it. */
  function HeadMessage(asset: Digest, leaves: seq<Digest>, i: nat): (m: Message)
    requires i <= |leaves|
    ensures WellFormed(m) && HashOf(m) == HeadAfter(HashOf(GenesisHead(asset, SCHEMA_VERSION)), leaves[..i])
  {
    if i == 0 then GenesisHead(asset, SCHEMA_VERSION)
    else
      assert leaves[..i][..i - 1] == leaves[..i - 1];
      StepHead(HeadAfter(HashOf(GenesisHead(asset, SCHEMA_VERSION)), leaves[..i - 1]), leaves[i - 1])
  }

  /** The head at a position of a chain with these leaves. */
  function HeadAt(asset: Digest, leaves: seq<Digest>, i: nat): Digest
    requires i <= |leaves|
  {
    HashOf(HeadMessage(asset, leaves, i))
  }

  function HeadBytes(asset: Digest, leaves: seq<Digest>): set<Bytes> {
    set i: nat | 0 <= i <= |leaves| :: Layout(HeadMessage(asset, leaves, i))
  }

  lemma HeadAtIsFold(asset: Digest, leaves: seq<Digest>, i: nat)
    requires i <= |leaves|
    ensures HeadAt(asset, leaves, i) == HeadAfter(HashOf(GenesisHead(asset, SCHEMA_VERSION)), leaves[..i])
  {
    hide HashOf;
  }

  lemma HeadAdvances(asset: Digest, leaves: seq<Digest>, i: nat)
    requires i < |leaves|
    ensures AdvanceHead(HeadAt(asset, leaves, i), leaves[i]) == HeadAt(asset, leaves, i + 1)
  {
    hide HashOf;
    assert leaves[..i + 1][..i] == leaves[..i];
  }

  /** Two heads that agree stand over one asset and one list of leaf digests, or are a collision. */
  lemma {:induction false} HeadsDetermineLeaves(a: Digest, ls: seq<Digest>, i: nat, b: Digest, ms: seq<Digest>, j: nat)
    requires i <= |ls| && j <= |ms|
    requires HeadAt(a, ls, i) == HeadAt(b, ms, j)
    ensures (a == b && i == j && ls[..i] == ms[..j]) || CollisionBetween(HeadBytes(a, ls), HeadBytes(b, ms))
  {
    hide HashOf, Layout;
    var m, n := HeadMessage(a, ls, i), HeadMessage(b, ms, j);
    assert Layout(m) in HeadBytes(a, ls) && Layout(n) in HeadBytes(b, ms);
    SameHash(m, n, HeadBytes(a, ls), HeadBytes(b, ms));
    if m == n && i > 0 {
      HeadsDetermineLeaves(a, ls, i - 1, b, ms, j - 1);
      assert ls[..i] == ls[..i - 1] + [ls[i - 1]] && ms[..j] == ms[..j - 1] + [ms[j - 1]];
    }
  }

  function LeafBytes(asset: Digest, records: seq<RecordInput>): set<Bytes>
    requires AllRecordable(asset, records)
  {
    set i | 0 <= i < |records| :: Layout(Leaf(asset, LeafFieldsOf(records[i])))
  }

  /** Every preimage a run hashed: its heads' and its leaves'. */
  function RunBytes(asset: Digest, records: seq<RecordInput>): set<Bytes>
    requires AllRecordable(asset, records)
  {
    HeadBytes(asset, LeafDigests(asset, records)) + LeafBytes(asset, records)
  }

  predicate SameHistory(a: Digest, rs: seq<RecordInput>, b: Digest, qs: seq<RecordInput>) {
    a == b && |rs| == |qs| && forall i :: 0 <= i < |rs| ==> LeafFieldsOf(rs[i]) == LeafFieldsOf(qs[i])
  }

  /** Equal leaf digests are equal signed fields, record by record, or a collision. */
  lemma LeavesDetermineFields(a: Digest, rs: seq<RecordInput>, b: Digest, qs: seq<RecordInput>)
    requires AllRecordable(a, rs) && AllRecordable(b, qs) && a == b && LeafDigests(a, rs) == LeafDigests(b, qs)
    ensures SameHistory(a, rs, b, qs) || CollisionBetween(LeafBytes(a, rs), LeafBytes(b, qs))
  {
    hide HashOf, Layout;
    if !SameHistory(a, rs, b, qs) {
      assert |rs| == |LeafDigests(a, rs)| == |qs|;
      var i :| 0 <= i < |rs| && LeafFieldsOf(rs[i]) != LeafFieldsOf(qs[i]);
      assert LeafDigest(a, rs[i]) == LeafDigests(a, rs)[i] == LeafDigest(b, qs[i]);
      SameHash(Leaf(a, LeafFieldsOf(rs[i])), Leaf(b, LeafFieldsOf(qs[i])), LeafBytes(a, rs), LeafBytes(b, qs));
    }
  }

  /** Two accepted runs that reach one head have one asset and one signed history, or are a collision. */
  lemma HeadFixesHistory(a: Digest, rs: seq<RecordInput>, b: Digest, qs: seq<RecordInput>)
    requires IsRun(Start(a), rs) && IsRun(Start(b), qs)
    requires Drive(Start(a), rs).head == Drive(Start(b), qs).head
    ensures AllRecordable(a, rs) && AllRecordable(b, qs)
    ensures SameHistory(a, rs, b, qs) || CollisionBetween(RunBytes(a, rs), RunBytes(b, qs))
  {
    hide HashOf, Layout, IsRun, Drive, Start, Recordable, AllRecordable;
    RunHead(a, rs);
    RunHead(b, qs);
    HeadAtIsFold(a, LeafDigests(a, rs), |rs|);
    HeadAtIsFold(b, LeafDigests(b, qs), |qs|);
    var ls, ms := LeafDigests(a, rs), LeafDigests(b, qs);
    assert ls[..|rs|] == ls && ms[..|qs|] == ms;
    HeadsDetermineLeaves(a, ls, |rs|, b, ms, |qs|);
    if CollisionBetween(HeadBytes(a, ls), HeadBytes(b, ms)) {
      CollisionGrows(HeadBytes(a, ls), HeadBytes(b, ms), RunBytes(a, rs), RunBytes(b, qs));
    } else {
      LeavesDetermineFields(a, rs, b, qs);
      if CollisionBetween(LeafBytes(a, rs), LeafBytes(b, qs)) {
        CollisionGrows(LeafBytes(a, rs), LeafBytes(b, qs), RunBytes(a, rs), RunBytes(b, qs));
      }
    }
  }

  /** No head comes back within a run, genesis included, unless the run hashed a collision itself. */
  lemma NoHeadRepeats(asset: Digest, records: seq<RecordInput>, i: nat, j: nat)
    requires IsRun(Start(asset), records) && i < j <= |records|
    requires Drive(Start(asset), records[..i]).head == Drive(Start(asset), records[..j]).head
    ensures AllRecordable(asset, records)
    ensures CollisionBetween(HeadBytes(asset, LeafDigests(asset, records)), HeadBytes(asset, LeafDigests(asset, records)))
  {
    hide HashOf, Layout, IsRun, Drive, Start, Recordable;
    PrefixHead(asset, records, i);
    PrefixHead(asset, records, j);
    HeadsDetermineLeaves(asset, LeafDigests(asset, records), i, asset, LeafDigests(asset, records), j);
  }

  /** The head after a prefix of a run is the head at that position of the whole. */
  lemma PrefixHead(asset: Digest, records: seq<RecordInput>, i: nat)
    requires IsRun(Start(asset), records) && i <= |records|
    ensures IsRun(Start(asset), records[..i]) && AllRecordable(asset, records)
    ensures Drive(Start(asset), records[..i]).head == HeadAt(asset, LeafDigests(asset, records), i)
  {
    hide *;
    assert records == records[..i] + records[i..];
    ResumingIsTheSameRun(Start(asset), records[..i], records[i..]);
    RunHead(asset, records);
    RunHead(asset, records[..i]);
    HeadAtIsFold(asset, LeafDigests(asset, records), i);
    assert LeafDigests(asset, records[..i]) == LeafDigests(asset, records)[..i];
  }

  lemma RunHead(asset: Digest, records: seq<RecordInput>)
    requires IsRun(Start(asset), records)
    ensures AllRecordable(asset, records)
    ensures Drive(Start(asset), records).head
      == HeadAfter(HashOf(GenesisHead(asset, SCHEMA_VERSION)), LeafDigests(asset, records))
  {
    hide HashOf, IsRun, Drive, Start, AllRecordable;
    RunInvariant(asset, records);
  }
}

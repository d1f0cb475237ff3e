/** The count-hiding epoch tree of ts/src/tree.ts: slot assignment, build, proof and verification. */
module EpochTree {
  import opened Wrappers
  import opened Arith
  import opened Bytes
  import opened Preimages
  import opened Crypto
  import opened Sorting
  import Probing
  import opened Merkle

  const MIN_HEIGHT: int := 4
  const MAX_HEIGHT: int := 16
  const USE_EPOCH_KEY: byte := 0x01
  const USE_SLOT: byte := 0x02
  const USE_PADDING: byte := 0x03

  type Submission = Entry<Digest>
  datatype Assigned = Assigned(id: Bytes, slot: nat, leaf: Digest)
  datatype InclusionProof = InclusionProof(height: int, siblings: seq<Bytes>, slotIndex: int, epoch: int)
  datatype BuiltEpoch = BuiltEpoch(
    epoch: int, height: nat, root: Digest, leaves: seq<Digest>, assignment: seq<Entry<nat>>)

  predicate IsHeight(height: int) {
    MIN_HEIGHT <= height <= MAX_HEIGHT
  }

  function CapacityOf(height: nat): (c: nat)
    ensures c > 0
  {
    Shl(1, height)
  }

  lemma CapacityIsPow2(height: nat)
    ensures CapacityOf(height) == Pow2(height)
    ensures height <= 16 ==> CapacityOf(height) <= 65536
  {
    PowConstants();
    if height <= 16 { Pow2Mono(height, 16); }
  }

  // The three uses of the keyed function

  function PrfOf(key: Digest, input: Bytes): Digest
    requires |input| <= 214
  {
    HashOf(Prf(key, input))
  }

  function EpochKey(master: Digest, epoch: int): Result<Digest, Failure> {
    var e :- U64le(epoch);
    Ok(PrfOf(master, [USE_EPOCH_KEY] + e))
  }

  function SlotSeed(epochKey: Digest, id: Bytes): Result<Digest, Failure> {
    if |id| != 16 then Err(MalformedPayload) else Ok(PrfOf(epochKey, [USE_SLOT] + id))
  }

  function SlotFromSeed(seed: Digest, height: int): Result<nat, Failure> {
    if !IsHeight(height) then Err(MalformedPayload)
    else Ok(And(ReadU16le(seed, 0), CapacityOf(height) - 1))
  }

  function PaddingMessage(epochKey: Digest, slot: nat): (m: Message)
    requires slot < 65536
    ensures WellFormed(m)
  {
    PaddingLeaf(PrfOf(epochKey, [USE_PADDING] + LE(slot, 2)))
  }

  /** No preimage of one use of the keyed function is a preimage of another, whatever the keys. */
  lemma PrfUsesDisjoint(k1: Digest, k2: Digest, k3: Digest, epoch: nat, id: Bytes, slot: nat)
    requires |id| == 16
    ensures Layout(Prf(k1, [USE_EPOCH_KEY] + LE(epoch, 8))) != Layout(Prf(k2, [USE_SLOT] + id))
    ensures Layout(Prf(k1, [USE_EPOCH_KEY] + LE(epoch, 8))) != Layout(Prf(k3, [USE_PADDING] + LE(slot, 2)))
    ensures Layout(Prf(k2, [USE_SLOT] + id)) != Layout(Prf(k3, [USE_PADDING] + LE(slot, 2)))
  {
    hide Layout;
    var a, b, c := Prf(k1, [USE_EPOCH_KEY] + LE(epoch, 8)), Prf(k2, [USE_SLOT] + id), Prf(k3, [USE_PADDING] + LE(slot, 2));
    assert a.input[0] == 1 && b.input[0] == 2 && c.input[0] == 3;
    if Layout(a) == Layout(b) { JointlyInjective(a, b); }
    if Layout(a) == Layout(c) { JointlyInjective(a, c); }
    if Layout(b) == Layout(c) { JointlyInjective(b, c); }
  }

  /** The two masked bytes are the whole 256-bit little-endian digest modulo the capacity. */
  lemma HomeIsDigestModCapacity(seed: Digest, height: nat)
    requires IsHeight(height)
    ensures SlotFromSeed(seed, height) == Ok(FromLE(seed) % CapacityOf(height))
  {
    hide And, Pow;
    var low := seed[0..2];
    FromLESplit(seed, 2);
    assert seed[..2] == low;
    CapacityIsPow2(height);
    PowConstants();
    AndMask(FromLE(low), height);
    PowAdd(2, 16 - height, height);
    ModIgnoresMultiple(FromLE(low), FromLE(seed[2..]), Pow2(16 - height), Pow2(height));
  }

  // Slot assignment

  function Home(epochKey: Digest, height: nat, id: Bytes): (h: nat)
    requires IsHeight(height) && |id| == 16
    ensures h < CapacityOf(height)
  {
    HomeIsDigestModCapacity(SlotSeed(epochKey, id).value, height);
    SlotFromSeed(SlotSeed(epochKey, id).value, height).value
  }

  predicate IdsAreSixteen<T>(s: seq<Entry<T>>) {
    forall i :: 0 <= i < |s| ==> |s[i].id| == 16
  }

  function Homes(epochKey: Digest, height: nat, s: seq<Submission>): (r: seq<nat>)
    requires IsHeight(height) && IdsAreSixteen(s)
    ensures |r| == |s| && Probing.AreHomes(r, CapacityOf(height))
    ensures forall i :: 0 <= i < |s| ==> r[i] == Home(epochKey, height, s[i].id)
  {
    seq(|s|, i requires 0 <= i < |s| => Home(epochKey, height, s[i].id))
  }

  function Placed(epochKey: Digest, height: nat, s: seq<Submission>): (r: seq<Assigned>)
    requires IsHeight(height) && IdsAreSixteen(s)
    ensures |r| == |s|
  {
    var slots := Probing.Slots({}, CapacityOf(height), Homes(epochKey, height, s));
    seq(|s|, i requires 0 <= i < |s| => Assigned(s[i].id, slots[i], s[i].data))
  }

  /** What assigning slots gives, refusals included. */
  function Assignment(epochKey: Digest, height: int, submitted: seq<Submission>): Result<seq<Assigned>, Failure> {
    if !IsHeight(height) then Err(MalformedPayload)
    else if |submitted| > CapacityOf(height) then Err(EpochCapacityExceeded)
    else if !StrictlyAscending(SortById(submitted)) then Err(MalformedPayload)
    else if !IdsAreSixteen(SortById(submitted)) then Err(MalformedPayload)
    else Ok(Placed(epochKey, height, SortById(submitted)))
  }

  method AssignSlots(epochKey: Digest, height: int, submitted: seq<Submission>) returns (r: Result<seq<Assigned>, Failure>)
    ensures r == Assignment(epochKey, height, submitted)
  {
    if !IsHeight(height) { return Err(MalformedPayload); }
    var capacity := CapacityOf(height);
    if |submitted| > capacity { return Err(EpochCapacityExceeded); }
    var ordered := SortById(submitted);
    SortAscending(submitted);
    var i := 1;
    while i < |ordered|
      invariant 1 <= i
      invariant forall k :: 1 <= k < i && k < |ordered| ==> ordered[k - 1].id != ordered[k].id
    {
      var c := CompareBytes(ordered[i - 1].id, ordered[i].id);
      if c == 0 {
        StrictIsNotEqual(ordered, i);
        return Err(MalformedPayload);
      }
      i := i + 1;
    }
    NeighboursDecide(ordered);
    r := ProbeAll(epochKey, height, ordered);
    SameSize(submitted, ordered);
  }

  lemma StrictIsNotEqual<T>(s: seq<Entry<T>>, i: nat)
    requires 1 <= i < |s| && s[i - 1].id == s[i].id
    ensures !StrictlyAscending(s)
  {
    BeforeIrreflexive(s[i].id);
  }

  lemma SameSize<T>(s: seq<T>, t: seq<T>)
    requires multiset(s) == multiset(t)
    ensures |s| == |t|
  {
    assert |multiset(s)| == |s| && |multiset(t)| == |t|;
  }

  ghost function TakenIn(taken: seq<bool>): set<nat> {
    set s: nat | s < |taken| && taken[s]
  }

  lemma NoneTaken(taken: seq<bool>)
    requires forall s :: 0 <= s < |taken| ==> !taken[s]
    ensures TakenIn(taken) == {}
  {
  }

  lemma OneMoreTaken(taken: seq<bool>, slot: nat)
    requires slot < |taken|
    ensures TakenIn(taken[slot := true]) == TakenIn(taken) + {slot}
  {
  }

  /** From the home slot upward, wrapping, past every taken slot. */
  method Probe(taken: array<bool>, start: nat) returns (slot: nat)
    requires start < taken.Length && |TakenIn(taken[..])| < taken.Length
    ensures slot == Probing.Landing(TakenIn(taken[..]), taken.Length, start) < taken.Length
    ensures !taken[slot]
  {
    var capacity := taken.Length;
    ghost var held := TakenIn(taken[..]);
    Probing.SpaceLeft(held, capacity, start);
    slot := start;
    var steps := 0;
    while taken[slot]
      invariant 0 <= steps <= Probing.Distance(held, capacity, start)
      invariant slot == Probing.At(capacity, start, steps)
      decreases capacity - steps
    {
      assert slot in held;
      Probing.AtIsModulo(capacity, start, steps);
      slot := (slot + 1) % capacity;
      steps := steps + 1;
      // Here the source refuses with "no free slot" when steps > capacity: it never is.
      assert steps <= capacity;
    }
    assert slot !in held;
  }

  /** The probe table: each submission in turn takes the first free slot from its home on. */
  method ProbeAll(epochKey: Digest, height: nat, ordered: seq<Submission>) returns (r: Result<seq<Assigned>, Failure>)
    requires IsHeight(height) && |ordered| <= CapacityOf(height)
    ensures r == if IdsAreSixteen(ordered) then Ok(Placed(epochKey, height, ordered)) else Err(MalformedPayload)
  {
    hide HashOf, And, Home, Homes, Placed, Shl, TakenIn;
    var taken := new bool[CapacityOf(height)](_ => false);
    var out: seq<Assigned> := [];
    NoneTaken(taken[..]);
    for i := 0 to |ordered|
      invariant IdsAreSixteen(ordered[..i])
      invariant out == Placed(epochKey, height, ordered[..i])
      invariant |TakenIn(taken[..])| == i
      invariant TakenIn(taken[..]) == Probing.Fill({}, taken.Length, Homes(epochKey, height, ordered[..i]))
    {
      var entry := ordered[i];
      var seed := SlotSeed(epochKey, entry.id);
      if seed.Err? { return Err(seed.error); }
      var start := Home(epochKey, height, entry.id);
      var slot := Probe(taken, start);
      ghost var before := taken[..];
      Probing.SpaceLeft(TakenIn(before), taken.Length, start);
      taken[slot] := true;
      assert taken[..] == before[slot := true];
      OneMoreTaken(before, slot);
      out := out + [Assigned(entry.id, slot, entry.data)];
      PlacedSnoc(epochKey, height, ordered, i);
    }
    assert ordered[..|ordered|] == ordered;
    return Ok(out);
  }

  lemma PlacedSnoc(epochKey: Digest, height: nat, ordered: seq<Submission>, i: nat)
    requires IsHeight(height) && i < |ordered| && IdsAreSixteen(ordered[..i]) && |ordered[i].id| == 16
    ensures IdsAreSixteen(ordered[..i + 1])
    ensures var c, homes := CapacityOf(height), Homes(epochKey, height, ordered[..i]);
      var held, home := Probing.Fill({}, c, homes), Home(epochKey, height, ordered[i].id);
      && Probing.Fill({}, c, Homes(epochKey, height, ordered[..i + 1])) == Probing.Insert(held, c, home)
      && Placed(epochKey, height, ordered[..i + 1]) == Placed(epochKey, height, ordered[..i])
           + [Assigned(ordered[i].id, Probing.Landing(held, c, home), ordered[i].data)]
  {
    hide HashOf, And;
    var c, homes, home := CapacityOf(height), Homes(epochKey, height, ordered[..i]), Home(epochKey, height, ordered[i].id);
    assert ordered[..i + 1] == ordered[..i] + [ordered[i]];
    assert Homes(epochKey, height, ordered[..i + 1]) == homes + [home];
    Probing.FillSnoc({}, c, homes, home);
  }

  // The build

  /** The chain leaf written to a slot, if any: the last write wins. */
  function WrittenTo(placed: seq<Assigned>, slot: nat): Option<Digest> {
    if placed == [] then None
    else
      var last := placed[|placed| - 1];
      if last.slot == slot then Some(last.leaf) else WrittenTo(placed[..|placed| - 1], slot)
  }

  /** What is hashed for a leaf of the tree: the submission in that slot, or the slot's own padding. */
  function Source(epochKey: Digest, placed: seq<Assigned>, slot: nat): (m: Message)
    requires slot < 65536
    ensures WellFormed(m) && (m.RealLeaf? || m.PaddingLeaf?)
  {
    match WrittenTo(placed, slot)
    case Some(leaf) => RealLeaf(leaf)
    case None => PaddingMessage(epochKey, slot)
  }

  function Sources(epochKey: Digest, height: nat, placed: seq<Assigned>): (r: seq<Message>)
    requires IsHeight(height)
    ensures |r| == Pow2(height) <= 65536
    ensures forall i :: 0 <= i < |r| ==> r[i] == Source(epochKey, placed, i)
  {
    CapacityIsPow2(height);
    seq(Pow2(height), i requires 0 <= i < Pow2(height) => Source(epochKey, placed, i))
  }

  function Leaves(sources: seq<Message>): (r: seq<Digest>)
    requires forall m :: m in sources ==> WellFormed(m)
    ensures |r| == |sources| && forall i :: 0 <= i < |r| ==> r[i] == HashOf(sources[i])
  {
    seq(|sources|, i requires 0 <= i < |sources| => HashOf(sources[i]))
  }

  function SlotEntries(placed: seq<Assigned>): (r: seq<Entry<nat>>)
    ensures |r| == |placed|
    ensures forall i :: 0 <= i < |r| ==> r[i] == Entry(placed[i].id, placed[i].slot)
  {
    seq(|placed|, i requires 0 <= i < |placed| => Entry(placed[i].id, placed[i].slot))
  }

  function EpochOf(epoch: int, height: nat, epochKey: Digest, placed: seq<Assigned>): BuiltEpoch
    requires IsHeight(height)
  {
    var leaves := Leaves(Sources(epochKey, height, placed));
    BuiltEpoch(epoch, height, Root(leaves, height), leaves, SortById(SlotEntries(placed)))
  }

  /** What an epoch is built from. */
  datatype EpochInput = EpochInput(epoch: int, height: int, master: Digest, submitted: seq<Submission>)

  function Build(x: EpochInput): Result<BuiltEpoch, Failure> {
    if !IsHeight(x.height) then Err(MalformedPayload)
    else
      var epochKey :- EpochKey(x.master, x.epoch);
      var placed :- Assignment(epochKey, x.height, x.submitted);
      Ok(EpochOf(x.epoch, x.height, epochKey, placed))
  }

  predicate SlotsBelow(placed: seq<Assigned>, capacity: nat) {
    forall i :: 0 <= i < |placed| ==> placed[i].slot < capacity
  }

  function Tagged(leaf: Option<Digest>): Option<Digest> {
    if leaf.Some? then Some(HashOf(RealLeaf(leaf.value))) else None
  }

  /** Submissions first, then the slot's own padding wherever nothing was written. */
  method FillLeaves(epochKey: Digest, height: nat, placed: seq<Assigned>) returns (leaves: seq<Digest>)
    requires IsHeight(height) && SlotsBelow(placed, Pow2(height))
    ensures leaves == Leaves(Sources(epochKey, height, placed))
  {
    hide HashOf;
    CapacityIsPow2(height);
    var capacity := CapacityOf(height);
    var a := new Option<Digest>[capacity](_ => None);
    for i := 0 to |placed|
      invariant forall s :: 0 <= s < capacity ==> a[s] == Tagged(WrittenTo(placed[..i], s))
    {
      assert placed[..i + 1][..i] == placed[..i];
      a[placed[i].slot] := Some(HashOf(RealLeaf(placed[i].leaf)));
    }
    assert placed[..|placed|] == placed;
    for i := 0 to capacity
      invariant forall s :: 0 <= s < i ==> a[s] == Some(HashOf(Source(epochKey, placed, s)))
      invariant forall s :: i <= s < capacity ==> a[s] == Tagged(WrittenTo(placed, s))
    {
      if a[i].None? { a[i] := Some(HashOf(PaddingMessage(epochKey, i))); }
    }
    leaves := seq(capacity, i requires 0 <= i < capacity && a[i].Some? reads a => a[i].value);
  }

  method BuildEpoch(epoch: int, height: int, master: Digest, submitted: seq<Submission>)
    returns (r: Result<BuiltEpoch, Failure>)
    ensures r == Build(EpochInput(epoch, height, master, submitted))
  {
    if !IsHeight(height) { return Err(MalformedPayload); }
    var epochKey := EpochKey(master, epoch);
    if epochKey.Err? { return Err(epochKey.error); }
    var placed := AssignSlots(epochKey.value, height, submitted);
    if placed.Err? { return Err(placed.error); }
    PlacedInRange(epochKey.value, height, submitted);
    var leaves := FillLeaves(epochKey.value, height, placed.value);
    var root := RootOf(leaves, height);
    return Ok(BuiltEpoch(epoch, height, root, leaves, SortById(SlotEntries(placed.value))));
  }

  /** The slots of an assignment are the probing slots: in range, and no two alike. */
  lemma PlacedInRange(epochKey: Digest, height: int, submitted: seq<Submission>)
    requires Assignment(epochKey, height, submitted).Ok?
    ensures var placed := Assignment(epochKey, height, submitted).value;
      && SlotsBelow(placed, Pow2(height))
      && forall i, j :: 0 <= i < j < |placed| ==> placed[i].slot != placed[j].slot
  {
    hide HashOf, And, Shl;
    var homes := Homes(epochKey, height, SortById(submitted));
    SameSize(submitted, SortById(submitted));
    Probing.ProbingIsTotal({}, CapacityOf(height), homes);
    CapacityIsPow2(height);
  }

  // Proofs

  predicate WellBuilt(b: BuiltEpoch) {
    |b.leaves| == Pow2(b.height)
    && forall i :: 0 <= i < |b.assignment| ==> b.assignment[i].data < |b.leaves|
  }

  function FindSlot(assignment: seq<Entry<nat>>, id: Bytes): (r: Option<nat>)
    ensures r.None? <==> forall i :: 0 <= i < |assignment| ==> assignment[i].id != id
    ensures r.Some? ==> Entry(id, r.value) in assignment
  {
    if assignment == [] then None
    else if assignment[0].id == id then Some(assignment[0].data)
    else FindSlot(assignment[1..], id)
  }

  function Proof(b: BuiltEpoch, id: Bytes): Result<InclusionProof, Failure>
    requires WellBuilt(b)
  {
    match FindSlot(b.assignment, id)
    case None => Err(SubmissionNotInEpoch)
    case Some(slot) =>
      assert Entry(id, slot) in b.assignment;
      Ok(InclusionProof(b.height, Path(b.leaves, b.height, slot), slot, b.epoch))
  }

  method ProofFor(b: BuiltEpoch, id: Bytes) returns (r: Result<InclusionProof, Failure>)
    requires WellBuilt(b)
    ensures r == Proof(b, id)
  {
    hide NodeAt;
    var slot := FindSlot(b.assignment, id);
    if slot.None? { return Err(SubmissionNotInEpoch); }
    assert Entry(id, slot.value) in b.assignment;
    var siblings := PathOf(b.leaves, slot.value, b.height);
    return Ok(InclusionProof(b.height, siblings, slot.value, b.epoch));
  }

  // Verification

  predicate ProofShaped(proof: InclusionProof) {
    IsHeight(proof.height) && |proof.siblings| == proof.height && 0 <= proof.slotIndex < CapacityOf(proof.height)
  }

  predicate Accepts(leaf: Digest, proof: InclusionProof, root: Bytes) {
    ProofShaped(proof) && AreDigests(proof.siblings)
    && Walk(leaf, proof.siblings, proof.slotIndex, proof.height) == root
  }

  method VerifyInclusion(leaf: Digest, proof: InclusionProof, root: Bytes) returns (r: Result<(), Failure>)
    ensures r == if Accepts(leaf, proof, root) then Ok(()) else Err(InclusionProofInvalid)
  {
    hide HashOf, Shl;
    if !IsHeight(proof.height) { return Err(InclusionProofInvalid); }
    if |proof.siblings| != proof.height { return Err(InclusionProofInvalid); }
    if proof.slotIndex < 0 || proof.slotIndex >= CapacityOf(proof.height) { return Err(InclusionProofInvalid); }
    var node := HashOf(RealLeaf(leaf));
    for level := 0 to proof.height
      invariant AreDigests(proof.siblings[..level])
      invariant node == Walk(leaf, proof.siblings[..level], proof.slotIndex, level)
    {
      var sibling := proof.siblings[level];
      if |sibling| != 32 { return Err(InclusionProofInvalid); }
      AncestorIsShift(proof.slotIndex, level);
      WalkOfPrefix(leaf, proof.siblings[..level + 1], proof.slotIndex, level);
      assert proof.siblings[..level + 1][..level] == proof.siblings[..level];
      node := if And(Shr(proof.slotIndex, level), 1) == 0
        then HashOf(Node(node, sibling)) else HashOf(Node(sibling, node));
    }
    assert proof.siblings[..proof.height] == proof.siblings;
    var same := BytesEqual(node, root);
    return if same then Ok(()) else Err(InclusionProofInvalid);
  }

  lemma {:induction false} WalkOfPrefix(leaf: Digest, siblings: seq<Bytes>, slot: nat, level: nat)
    requires AreDigests(siblings) && level <= |siblings|
    ensures Walk(leaf, siblings[..level], slot, level) == Walk(leaf, siblings, slot, level)
    decreases level
  {
    hide HashOf;
    WalkDependsOnPrefix(leaf, siblings[..level], siblings, slot, level);
  }

  lemma {:induction false} WalkDependsOnPrefix(leaf: Digest, s: seq<Bytes>, t: seq<Bytes>, slot: nat, level: nat)
    requires AreDigests(s) && AreDigests(t) && level <= |s| && level <= |t| && s[..level] == t[..level]
    ensures Walk(leaf, s, slot, level) == Walk(leaf, t, slot, level)
  {
    hide HashOf;
    if level > 0 {
      assert s[..level - 1] == s[..level][..level - 1] == t[..level - 1];
      assert s[level - 1] == s[..level][level - 1] == t[level - 1];
      WalkDependsOnPrefix(leaf, s, t, slot, level - 1);
    }
  }

  /** A proof of another height than the log's is refused before any hashing. */
  method VerifyInclusionForHeight(leaf: Digest, proof: InclusionProof, root: Bytes, configuredHeight: int)
    returns (r: Result<(), Failure>)
    ensures r == if proof.height == configuredHeight && Accepts(leaf, proof, root) then Ok(()) else Err(InclusionProofInvalid)
  {
    if proof.height != configuredHeight { return Err(InclusionProofInvalid); }
    r := VerifyInclusion(leaf, proof, root);
  }

  // The digests, by the bytes they are of

  /** The three uses of the keyed function: an epoch's key, a submission's slot, a slot's own padding. */
  lemma KeyedDigestsAre(k: Digest, epoch: int, id: Bytes, slot: nat)
    requires slot < 65536
    ensures EpochKey(k, epoch) ==
      if 0 <= epoch <= 0xffff_ffff_ffff_ffff then Ok(KECCAK256(TAG_PRF + k + [9, 0] + ([1] + LE(epoch, 8)))) else Err(RangeError)
    ensures SlotSeed(k, id) ==
      if |id| == 16 then Ok(KECCAK256(TAG_PRF + k + [17, 0] + ([2] + id))) else Err(MalformedPayload)
    ensures HashOf(PaddingMessage(k, slot)) == KECCAK256(TAG_PAD + KECCAK256(TAG_PRF + k + [3, 0] + ([3] + LE(slot, 2))))
  {
    assert LE(9, 2) == [9, 0] && LE(17, 2) == [17, 0] && LE(3, 2) == [3, 0];
    hide Layout, TAG_PRF, TAG_PAD, LE, FieldsOf, Pow2;
    if FitsU64(epoch) { LayoutsAre(Prf(k, [USE_EPOCH_KEY] + LE(epoch, 8))); }
    if |id| == 16 { LayoutsAre(Prf(k, [USE_SLOT] + id)); }
    LayoutsAre(Prf(k, [USE_PADDING] + LE(slot, 2)));
    LayoutsAre(PaddingMessage(k, slot));
  }

  lemma TreeDigestsAre(left: Digest, right: Digest)
    ensures HashOf(RealLeaf(left)) == KECCAK256(TAG_MTL0 + left)
    ensures InternalNode(left, right) == KECCAK256(TAG_MTN1 + left + right)
  {
    hide Layout, TAG_MTL0, TAG_MTN1;
    LayoutsAre(RealLeaf(left));
    LayoutsAre(Node(left, right));
  }

  /** One level of the walk: the node so far goes left of its sibling where the slot's bit is clear, right where it is set. */
  lemma WalkIs(leaf: Digest, siblings: seq<Bytes>, slot: nat, level: nat)
    requires AreDigests(siblings) && level < |siblings|
    ensures Walk(leaf, siblings, slot, 0) == KECCAK256(TAG_MTL0 + leaf)
    ensures var below := Walk(leaf, siblings, slot, level);
      Walk(leaf, siblings, slot, level + 1) ==
        if slot / Pow2(level) % 2 == 0 then KECCAK256(TAG_MTN1 + below + siblings[level])
        else KECCAK256(TAG_MTN1 + siblings[level] + below)
  {
    hide HashOf, TAG_MTL0, TAG_MTN1, Pow2;
    AncestorIsShift(slot, level);
    TreeDigestsAre(leaf, leaf);
    TreeDigestsAre(Walk(leaf, siblings, slot, level), siblings[level]);
    TreeDigestsAre(siblings[level], Walk(leaf, siblings, slot, level));
  }

  /** A proof is accepted exactly when it is of a height from 4 to 16, shaped for it, and its walk ends at the root. */
  lemma AcceptsExactly(leaf: Digest, proof: InclusionProof, root: Bytes)
    ensures Accepts(leaf, proof, root) <==>
      4 <= proof.height <= 16 && |proof.siblings| == proof.height && 0 <= proof.slotIndex < Pow2(proof.height)
      && (forall i :: 0 <= i < |proof.siblings| ==> |proof.siblings[i]| == 32)
      && Walk(leaf, proof.siblings, proof.slotIndex, proof.height) == root
  {
    hide Walk, Pow2;
    if proof.height >= 0 { CapacityIsPow2(proof.height); }
  }

  lemma HomesAre(seed: Digest, height: int)
    ensures SlotFromSeed(seed, height) ==
      if 4 <= height <= 16 then Ok(FromLE(seed) % Pow2(height)) else Err(MalformedPayload)
  {
    hide FromLE, Pow2, And;
    if IsHeight(height) {
      HomeIsDigestModCapacity(seed, height);
      CapacityIsPow2(height);
    }
  }
}

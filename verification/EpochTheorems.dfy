/** What the epoch tree promises: when it builds, completeness, soundness, independence of order. */
module EpochTheorems {
  import opened Wrappers
  import opened Arith
  import opened Bytes
  import opened Preimages
  import opened Crypto
  import opened Sorting
  import Probing
  import opened Merkle
  import opened EpochTree

  // When a build succeeds

  predicate Buildable(x: EpochInput) {
    4 <= x.height <= 16 && 0 <= x.epoch <= 0xffff_ffff_ffff_ffff && |x.submitted| <= CapacityOf(x.height)
    && (forall i, j :: 0 <= i < j < |x.submitted| ==> x.submitted[i].id != x.submitted[j].id)
    && (forall i :: 0 <= i < |x.submitted| ==> |x.submitted[i].id| == 16)
  }

  /** Slots are assigned exactly to so many distinct identifiers of sixteen bytes as there is room for. */
  lemma AssignmentRefusesExactly(epochKey: Digest, height: int, submitted: seq<Submission>)
    ensures Assignment(epochKey, height, submitted).Ok? <==>
      4 <= height <= 16 && |submitted| <= Pow2(height)
      && (forall i, j :: 0 <= i < j < |submitted| ==> submitted[i].id != submitted[j].id)
      && (forall i :: 0 <= i < |submitted| ==> |submitted[i].id| == 16)
    ensures Assignment(epochKey, height, submitted).Err? ==>
      Assignment(epochKey, height, submitted).error ==
      if 4 <= height <= 16 && |submitted| > Pow2(height) then EpochCapacityExceeded else MalformedPayload
  {
    hide Shl, Pow2, Placed;
    if height >= 0 { CapacityIsPow2(height); }
    var sorted := SortById(submitted);
    if DistinctIds(submitted) {
      DistinctAscends(submitted);
    } else if StrictlyAscending(sorted) {
      StrictIsDistinct(sorted);
      DistinctIgnoresOrder(sorted, submitted);
    }
    SixteenIgnoresOrder(submitted, sorted);
    SixteenIgnoresOrder(sorted, submitted);
  }

  /** Every refusal of a build, in the order the source decides them, and nothing else is refused. */
  lemma BuildRefusesExactly(x: EpochInput)
    ensures Build(x).Ok? <==> Buildable(x)
    ensures 4 <= x.height <= 16 ==> CapacityOf(x.height) == Pow2(x.height)
    ensures Build(x).Err? ==>
      Build(x).error ==
      if x.height < 4 || x.height > 16 then MalformedPayload
      else if x.epoch < 0 || x.epoch > 0xffff_ffff_ffff_ffff then RangeError
      else if |x.submitted| > Pow2(x.height) then EpochCapacityExceeded else MalformedPayload
  {
    hide HashOf, Shl, Pow2, EpochOf, Assignment;
    if x.height >= 0 { CapacityIsPow2(x.height); }
    if EpochKey(x.master, x.epoch).Ok? { AssignmentRefusesExactly(EpochKey(x.master, x.epoch).value, x.height, x.submitted); }
  }

  lemma SixteenIgnoresOrder(s: seq<Submission>, t: seq<Submission>)
    requires multiset(s) == multiset(t)
    ensures IdsAreSixteen(s) ==> IdsAreSixteen(t)
  {
    if IdsAreSixteen(s) {
      forall i | 0 <= i < |t| ensures |t[i].id| == 16 {
        assert t[i] in multiset(s);
      }
    }
  }

  // What a built epoch holds

  function KeyOf(master: Digest, epoch: int): Digest
    requires FitsU64(epoch)
  {
    EpochKey(master, epoch).value
  }

  function PlacedOf(x: EpochInput): seq<Assigned>
    requires Build(x).Ok?
  {
    Assignment(KeyOf(x.master, x.epoch), x.height, x.submitted).value
  }

  function SourcesOf(x: EpochInput): (r: seq<Message>)
    requires Build(x).Ok?
  {
    Sources(KeyOf(x.master, x.epoch), x.height, PlacedOf(x))
  }

  /** Every preimage the build hashed for a leaf or a node of the tree. */
  function BuildBytes(x: EpochInput): set<Bytes>
    requires Build(x).Ok?
  {
    var sources := SourcesOf(x);
    TreeBytes(Leaves(sources), sources, x.height)
  }

  predicate SlotsDistinct(placed: seq<Assigned>) {
    forall i, j :: 0 <= i < j < |placed| ==> placed[i].slot != placed[j].slot
  }

  lemma {:induction false} WrittenToFinds(placed: seq<Assigned>, i: nat)
    requires SlotsDistinct(placed) && i < |placed|
    ensures WrittenTo(placed, placed[i].slot) == Some(placed[i].leaf)
  {
    if i < |placed| - 1 { WrittenToFinds(placed[..|placed| - 1], i); }
  }

  lemma {:induction false} WrittenToIsPlaced(placed: seq<Assigned>, slot: nat) returns (i: nat)
    requires WrittenTo(placed, slot).Some?
    ensures i < |placed| && placed[i].slot == slot && Some(placed[i].leaf) == WrittenTo(placed, slot)
  {
    i := |placed| - 1;
    if placed[i].slot != slot { i := WrittenToIsPlaced(placed[..i], slot); }
  }

  lemma {:induction false} FindSlotFinds(entries: seq<Entry<nat>>, i: nat)
    requires DistinctIds(entries) && i < |entries|
    ensures FindSlot(entries, entries[i].id) == Some(entries[i].data)
  {
    if i > 0 { FindSlotFinds(entries[1..], i - 1); }
  }

  /** The built epoch in terms of the placed submissions. */
  lemma BuiltShape(x: EpochInput)
    requires Build(x).Ok?
    ensures Buildable(x)
    ensures var b, placed := Build(x).value, PlacedOf(x);
      && b.epoch == x.epoch && b.height == x.height && WellBuilt(b)
      && b.leaves == Leaves(SourcesOf(x)) && b.root == Root(b.leaves, x.height)
      && b.assignment == SlotEntries(placed) && DistinctIds(b.assignment)
      && SlotsDistinct(placed) && SlotsBelow(placed, Pow2(x.height))
  {
    hide HashOf, Shl, Source, Placed, NodeAt;
    BuildRefusesExactly(x);
    var epochKey, placed := KeyOf(x.master, x.epoch), PlacedOf(x);
    PlacedInRange(epochKey, x.height, x.submitted);
    PlacedIds(epochKey, x.height, x.submitted);
    SortFixesStrict(SlotEntries(placed));
    StrictIsDistinct(SlotEntries(placed));
  }

  lemma PlacedIds(epochKey: Digest, height: int, submitted: seq<Submission>)
    requires Assignment(epochKey, height, submitted).Ok?
    ensures StrictlyAscending(SlotEntries(Assignment(epochKey, height, submitted).value))
  {
    hide HashOf, Shl, Home;
  }

  /** Each submission is placed, and each placing is a submission's. */
  lemma PlacedAreSubmitted(x: EpochInput, id: Bytes, leaf: Digest)
    requires Build(x).Ok?
    ensures Entry(id, leaf) in x.submitted <==>
      exists i :: 0 <= i < |PlacedOf(x)| && PlacedOf(x)[i].id == id && PlacedOf(x)[i].leaf == leaf
  {
    hide HashOf, Shl, Home;
    var placed, sorted := PlacedOf(x), SortById(x.submitted);
    assert forall i :: 0 <= i < |placed| ==> sorted[i] == Entry(placed[i].id, placed[i].leaf);
    if Entry(id, leaf) in x.submitted {
      assert Entry(id, leaf) in multiset(sorted);
      var i :| 0 <= i < |sorted| && sorted[i] == Entry(id, leaf);
      assert placed[i].id == id && placed[i].leaf == leaf;
    }
    if i :| 0 <= i < |placed| && placed[i].id == id && placed[i].leaf == leaf {
      assert sorted[i] in multiset(x.submitted);
    }
  }

  /** The slot of a placed submission holds its tagged leaf, and its proof is the path of that slot. */
  lemma PlacedHasProof(x: EpochInput, i: nat)
    requires Build(x).Ok? && i < |PlacedOf(x)|
    ensures (BuiltShape(x);
      var b, p := Build(x).value, PlacedOf(x)[i];
      p.slot < |b.leaves| && SourcesOf(x)[p.slot] == RealLeaf(p.leaf) && b.leaves[p.slot] == HashOf(RealLeaf(p.leaf))
      && Proof(b, p.id) == Ok(InclusionProof(x.height, Path(b.leaves, x.height, p.slot), p.slot, x.epoch)))
  {
    hide HashOf, Shl, Placed, NodeAt, Build, PlacedOf, Assignment;
    BuiltShape(x);
    FindSlotFinds(Build(x).value.assignment, i);
    WrittenToFinds(PlacedOf(x), i);
  }

  // Completeness

  /** Every submission of a built epoch gets a proof of one sibling per level that the verifier accepts. */
  lemma TreeIsComplete(x: EpochInput, s: Submission)
    requires Build(x).Ok? && s in x.submitted
    ensures (BuiltShape(x);
      var b := Build(x).value;
      var p := Proof(b, s.id);
      p.Ok? && |p.value.siblings| == x.height && p.value.height == x.height && p.value.epoch == x.epoch
      && Accepts(s.data, p.value, b.root))
  {
    hide HashOf, Shl, Placed, NodeAt, Build, Proof, Assignment, SourcesOf;
    BuiltShape(x);
    var b, placed := Build(x).value, PlacedOf(x);
    PlacedAreSubmitted(x, s.id, s.data);
    var i :| 0 <= i < |placed| && placed[i].id == s.id && placed[i].leaf == s.data;
    PlacedHasProof(x, i);
    PathWalksToRoot(b.leaves, x.height, placed[i].slot, s.data, x.height);
    AncestorInRange(placed[i].slot, x.height, x.height);
    CapacityIsPow2(x.height);
  }

  /** A proof is given for exactly the identifiers submitted. */
  lemma ProofOnlyForSubmitted(x: EpochInput, id: Bytes)
    requires Build(x).Ok?
    ensures (BuiltShape(x);
      var p := Proof(Build(x).value, id);
      if exists s :: s in x.submitted && s.id == id then p.Ok? else p == Err(SubmissionNotInEpoch))
  {
    hide HashOf, Shl, Placed, NodeAt, EpochOf;
    BuiltShape(x);
    var placed := PlacedOf(x);
    if s :| s in x.submitted && s.id == id {
      TreeIsComplete(x, s);
    } else {
      forall i | 0 <= i < |placed| ensures placed[i].id != id {
        PlacedAreSubmitted(x, placed[i].id, placed[i].leaf);
        assert Entry(placed[i].id, placed[i].leaf) in x.submitted;
      }
    }
  }

  // Soundness

  /**
   Whatever proof of whatever height the verifier accepts against a built root is the genuine proof
   of a real submission with that leaf, or the walk and the build hashed a collision.
   */
  lemma InclusionIsSound(
      x: EpochInput, leaf: Digest, proof: InclusionProof)
    requires Build(x).Ok?
    requires Accepts(leaf, proof, Build(x).value.root)
    ensures CollisionBetween(BuildBytes(x),
                             WalkBytes(leaf, proof.siblings, proof.slotIndex))
      || (BuiltShape(x);
          exists s :: s in x.submitted && s.data == leaf
            && Proof(Build(x).value, s.id) == Ok(proof.(epoch := x.epoch)))
  {
    hide HashOf, Shl, Placed, NodeAt, Build, Proof, Assignment;
    BuiltShape(x);
    var b, placed, slot := Build(x).value, PlacedOf(x), proof.slotIndex;
    CapacityIsPow2(proof.height);
    AncestorInRange(slot, proof.height, proof.height);
    WalkMeetsTree(b.leaves, SourcesOf(x), x.height, leaf, proof.siblings, slot, proof.height, x.height, 0);
    if MeetsLeaf(b.leaves, SourcesOf(x), x.height, leaf, proof.siblings, slot, proof.height, x.height) {
      var i := WrittenToIsPlaced(placed, slot);
      PlacedAreSubmitted(x, placed[i].id, leaf);
      PlacedHasProof(x, i);
      assert proof.siblings == Path(b.leaves, x.height, slot);
      assert Entry(placed[i].id, leaf) in x.submitted;
    }
  }

  // Independence of order

  lemma BuildableIgnoresOrder(x: EpochInput, others: seq<Submission>)
    requires multiset(x.submitted) == multiset(others)
    ensures Buildable(x) ==> Buildable(x.(submitted := others))
  {
    hide HashOf, Shl, Before;
    SameSize(x.submitted, others);
    SixteenIgnoresOrder(x.submitted, others);
    if DistinctIds(x.submitted) { DistinctIgnoresOrder(x.submitted, others); }
  }

  lemma SortedAlike(s: seq<Submission>, t: seq<Submission>)
    requires multiset(s) == multiset(t) && DistinctIds(s) && DistinctIds(t)
    ensures SortById(s) == SortById(t)
  {
    hide *;
    DistinctAscends(s);
    DistinctAscends(t);
    StrictOrderIsUnique(SortById(s), SortById(t));
  }

  lemma BuildableIsDistinct(x: EpochInput)
    requires Buildable(x)
    ensures DistinctIds(x.submitted)
  {
  }

  /** Any reordering of the submissions builds the same epoch, or is refused the same way. */
  lemma BuildIgnoresOrder(x: EpochInput, others: seq<Submission>)
    requires multiset(x.submitted) == multiset(others)
    ensures Build(x) == Build(x.(submitted := others))
  {
    hide HashOf, CapacityOf, EpochOf, Placed, SortById, IdsAreSixteen, DistinctIds, StrictlyAscending, Buildable, Pow2;
    var y := x.(submitted := others);
    BuildableIgnoresOrder(x, others);
    BuildableIgnoresOrder(y, x.submitted);
    SameSize(x.submitted, others);
    if Buildable(x) {
      BuildableIsDistinct(x);
      BuildableIsDistinct(y);
      SortedAlike(x.submitted, others);
    } else {
      BuildRefusesExactly(x);
      BuildRefusesExactly(y);
    }
  }

  lemma SlotsOfPlaced(epochKey: Digest, height: nat, s: seq<Submission>)
    requires IsHeight(height) && IdsAreSixteen(s)
    ensures var placed := Placed(epochKey, height, s);
      (set i | 0 <= i < |placed| :: placed[i].slot)
        == Probing.Members(Probing.Slots({}, CapacityOf(height), Homes(epochKey, height, s)))
  {
    hide HashOf, Shl, Home, Probing.Slots;
    var placed, slots := Placed(epochKey, height, s), Probing.Slots({}, CapacityOf(height), Homes(epochKey, height, s));
    assert forall i :: 0 <= i < |placed| ==> placed[i].slot == slots[i];
  }

  /** The slots real leaves occupy depend on the home slots alone, in whatever order they are taken. */
  lemma OccupiedSlotsIgnoreOrder(x: EpochInput)
    requires Build(x).Ok?
    ensures Buildable(x)
    ensures (set i | 0 <= i < |PlacedOf(x)| :: PlacedOf(x)[i].slot)
      == Probing.Fill({}, CapacityOf(x.height), (BuiltShape(x); Homes(KeyOf(x.master, x.epoch), x.height, x.submitted)))
  {
    hide HashOf, Shl, Home, Placed, Probing.Fill, Probing.Slots, Probing.Members;
    BuiltShape(x);
    var epochKey, placed, sorted := KeyOf(x.master, x.epoch), PlacedOf(x), SortById(x.submitted);
    var homes, c := Homes(epochKey, x.height, sorted), CapacityOf(x.height);
    SameSize(x.submitted, sorted);
    Probing.ProbingIsTotal({}, c, homes);
    SlotsOfPlaced(epochKey, x.height, sorted);
    HomesOfReordering(epochKey, x.height, x.submitted, sorted);
    Probing.OccupancyIgnoresOrder({}, c, homes, Homes(epochKey, x.height, x.submitted));
  }

  /** Between a submission's home slot and its own, every slot holds a real leaf. */
  lemma AssignmentIsTight(x: EpochInput, i: nat)
    requires Build(x).Ok? && i < |PlacedOf(x)|
    ensures Buildable(x) && |PlacedOf(x)[i].id| == 16
    ensures Probing.Tight(
      (BuiltShape(x); Probing.Fill({}, CapacityOf(x.height), Homes(KeyOf(x.master, x.epoch), x.height, x.submitted))),
      CapacityOf(x.height), Home(KeyOf(x.master, x.epoch), x.height, PlacedOf(x)[i].id), PlacedOf(x)[i].slot)
  {
    hide HashOf, Shl, Home;
    BuiltShape(x);
    var epochKey, sorted, c := KeyOf(x.master, x.epoch), SortById(x.submitted), CapacityOf(x.height);
    SameSize(x.submitted, sorted);
    Probing.ProbingIsTight({}, c, Homes(epochKey, x.height, sorted), i);
    HomesOfReordering(epochKey, x.height, x.submitted, sorted);
    Probing.OccupancyIgnoresOrder({}, c, Homes(epochKey, x.height, sorted), Homes(epochKey, x.height, x.submitted));
  }

  lemma {:induction false} HomesOfReordering(epochKey: Digest, height: nat, s: seq<Submission>, t: seq<Submission>)
    requires IsHeight(height) && IdsAreSixteen(s) && IdsAreSixteen(t) && multiset(s) == multiset(t)
    ensures multiset(Homes(epochKey, height, s)) == multiset(Homes(epochKey, height, t))
    decreases |s|
  {
    hide *;
    SameSize(s, t);
    if s != [] {
      var i := Probing.FirstOf(s, t);
      assert s[..0] + s[1..] == s[1..];
      HomesWithoutOne(epochKey, height, s, 0, s[1..]);
      HomesWithoutOne(epochKey, height, t, i, t[..i] + t[i + 1..]);
      HomesOfReordering(epochKey, height, s[1..], t[..i] + t[i + 1..]);
    } else {
      assert Homes(epochKey, height, s) == Homes(epochKey, height, t);
    }
  }

  lemma HomesWithoutOne(epochKey: Digest, height: nat, s: seq<Submission>, i: nat, rest: seq<Submission>)
    requires IsHeight(height) && IdsAreSixteen(s) && i < |s| && rest == s[..i] + s[i + 1..]
    ensures |rest| == |s| - 1 && IdsAreSixteen(rest)
    ensures multiset(Homes(epochKey, height, s))
      == multiset(Homes(epochKey, height, rest)) + multiset{Home(epochKey, height, s[i].id)}
  {
    hide HashOf, Shl, Home;
    var homes := Homes(epochKey, height, s);
    assert Homes(epochKey, height, rest) == homes[..i] + homes[i + 1..];
    Probing.WithoutOne(homes, i);
    assert homes[i] in multiset(homes);
  }

  // Count hiding

  /** What is hashed for a slot's leaf: its tagged preimage and, for padding, the keyed one behind it. */
  function LeafPreimages(x: EpochInput, slot: nat): set<Bytes>
    requires Build(x).Ok? && slot < |SourcesOf(x)|
  {
    var source := SourcesOf(x)[slot];
    {Layout(source)} + (if source.PaddingLeaf? then {PaddingInput(KeyOf(x.master, x.epoch), slot)} else {})
  }

  function PaddingInput(epochKey: Digest, slot: nat): Bytes {
    Layout(Prf(epochKey, [3] + LE(slot, 2)))
  }

  /** The leaf of a slot: a submission's, tagged, or padding of the slot's own. */
  lemma LeafOfSlot(x: EpochInput, slot: nat)
    requires Build(x).Ok? && slot < |SourcesOf(x)|
    ensures slot < 65536 && WellFormed(SourcesOf(x)[slot]) && FitsU64(x.epoch)
    ensures SourcesOf(x)[slot].RealLeaf? || SourcesOf(x)[slot] == PaddingMessage(KeyOf(x.master, x.epoch), slot)
    ensures SourcesOf(x)[slot].RealLeaf? ==>
      exists i :: 0 <= i < |PlacedOf(x)| && PlacedOf(x)[i].slot == slot && PlacedOf(x)[i].leaf == SourcesOf(x)[slot].chainLeaf
  {
    hide HashOf, Placed, NodeAt, Assignment, PlacedOf, Pow2, Shl;
    BuildRefusesExactly(x);
    CapacityIsPow2(x.height);
    var placed := PlacedOf(x);
    if WrittenTo(placed, slot).Some? { var i := WrittenToIsPlaced(placed, slot); }
  }

  /** Two slots of one padding are one slot, or the keyed preimages or the tagged ones collide. */
  lemma PaddingsDiffer(x: EpochInput, i: nat, j: nat)
    requires Build(x).Ok? && i < j < |SourcesOf(x)| <= 65536 && FitsU64(x.epoch)
    requires SourcesOf(x)[i] == PaddingMessage(KeyOf(x.master, x.epoch), i)
    requires SourcesOf(x)[j] == PaddingMessage(KeyOf(x.master, x.epoch), j)
    requires SourcesOf(x)[i] == SourcesOf(x)[j]
    ensures CollisionBetween(LeafPreimages(x, i), LeafPreimages(x, j))
  {
    hide HashOf, Layout, Build, SourcesOf, KeyOf, LE;
    var k := KeyOf(x.master, x.epoch);
    SameHash(Prf(k, [3] + LE(i, 2)), Prf(k, [3] + LE(j, 2)), LeafPreimages(x, i), LeafPreimages(x, j));
    if [3] + LE(i, 2) == [3] + LE(j, 2) {
      assert LE(i, 2) == ([3] + LE(i, 2))[1..] == ([3] + LE(j, 2))[1..] == LE(j, 2);
      U16Injective(i, j);
    }
  }

  /** Two slots of a built epoch are assigned to two submissions of one chain leaf. */
  ghost predicate SharedBy(x: EpochInput, b: BuiltEpoch, i: nat, j: nat) {
    exists s, t :: s in x.submitted && t in x.submitted && s.id != t.id && s.data == t.data
      && Entry(s.id, i) in b.assignment && Entry(t.id, j) in b.assignment
  }

  /**
   No two slots of a built epoch look alike: they hold equal leaves only if two submissions of one chain
   leaf sit in them, or two distinct preimages collide, one hashed for each. Padding never repeats.
   */
  lemma LeavesTellNothing(x: EpochInput, i: nat, j: nat)
    requires Build(x).Ok? && i < j < |Build(x).value.leaves|
    requires Build(x).value.leaves[i] == Build(x).value.leaves[j]
    ensures |SourcesOf(x)| == |Build(x).value.leaves|
    ensures CollisionBetween(LeafPreimages(x, i), LeafPreimages(x, j)) || SharedBy(x, Build(x).value, i, j)
  {
    hide HashOf, Layout, Build, SourcesOf, KeyOf, PlacedOf, SharedBy;
    BuiltShape(x);
    var sources := SourcesOf(x);
    LeafOfSlot(x, i);
    LeafOfSlot(x, j);
    SameHash(sources[i], sources[j], LeafPreimages(x, i), LeafPreimages(x, j));
    if sources[i] == sources[j] {
      if sources[i].RealLeaf? {
        SharedLeaf(x, i, j);
      } else {
        LeafOfSlot(x, |sources| - 1);
        PaddingsDiffer(x, i, j);
      }
    }
  }

  lemma SharedLeaf(x: EpochInput, i: nat, j: nat)
    requires Build(x).Ok? && i < j < |SourcesOf(x)| && SourcesOf(x)[i] == SourcesOf(x)[j] && SourcesOf(x)[i].RealLeaf?
    ensures SharedBy(x, Build(x).value, i, j)
  {
    hide HashOf, Layout, Build, SourcesOf, KeyOf, PlacedOf;
    BuiltShape(x);
    LeafOfSlot(x, i);
    LeafOfSlot(x, j);
    var placed, b := PlacedOf(x), Build(x).value;
    var p :| 0 <= p < |placed| && placed[p].slot == i && placed[p].leaf == SourcesOf(x)[i].chainLeaf;
    var q :| 0 <= q < |placed| && placed[q].slot == j && placed[q].leaf == SourcesOf(x)[j].chainLeaf;
    PlacedAreSubmitted(x, placed[p].id, placed[p].leaf);
    PlacedAreSubmitted(x, placed[q].id, placed[q].leaf);
    var s: Submission, t: Submission := Entry(placed[p].id, placed[p].leaf), Entry(placed[q].id, placed[q].leaf);
    assert b.assignment[p] == Entry(placed[p].id, i) && b.assignment[q] == Entry(placed[q].id, j);
    assert s in x.submitted && t in x.submitted && Entry(s.id, i) in b.assignment && Entry(t.id, j) in b.assignment;
  }
}

# Certimining, verified

A Dafny model of the parts of Certimining that others have to be able to check: the count-hiding epoch
tree, the asset chain, the disclosure verifier, the encoders underneath them, and the decision loops of
the anchoring client. `dafny verify dfyconfig.toml` checks everything.

## What is modelled

- **The epoch tree** (`Probing`, `Sorting`, `Merkle`, `EpochTree`, `EpochTheorems`). Submissions are
  sorted, hashed to a home slot, probed into a table in place, padded, folded level by level; a proof is
  cut from the same fold and walked back by a verifier. All four are proved against one top-down
  definition of the tree and one function of the home slots. No two slots of a built epoch look alike, so
  its leaves do not tell how many are real (`EpochTheorems.LeavesTellNothing`).
- **The chain and its packages** (`Preimages`, `Crypto`, `Chain`, `ListedFields`, `Disclosure`,
  `DisclosureVerdicts`, `DisclosureTheorems`). Nine tagged writers over one bounded sink; the transition
  with its refusals in order; whole runs; and the offline verifier that decides from one record where it
  sits. A package verifies exactly when its every part says so (`DisclosureVerdicts.VerifiesExactly`), an
  honest one does, and an established position is the true one.
- **The encoders** (`Bytes`, `Base64`, `Numerals`, `Base58`, `CivilDate`, `NumberScan`). Each loop is
  proved to compute a plain definition, and the definition is proved to be what it should be.
- **The client's decisions** (`Schedule`, `Handoff`, `Fetch`, `Worker`, `Observe`, `WorkerRuns`,
  `Alert`). The write-once handoffs and the worker's cycle are state machines; their theorems are about
  every run of them.

## How hashing and signatures are treated

Keccak-256 and Ed25519 verification are uninterpreted functions, so every theorem holds whatever they
are. Injectivity is never assumed, as it would be false. A soundness theorem concludes either what one
wants or that two different byte strings with one digest exist, one in each of two given finite sets:
the preimages that two particular computations hashed (`Crypto.CollisionBetween`, with the sets
`EpochTheorems.BuildBytes`, `EpochTheorems.LeafPreimages`, `Merkle.WalkBytes`, `Chain.RunBytes` and
`DisclosureTheorems.PackageBytes`).

Failures that the source throws are a `Result` carrying the failure's name. Reading the clock, files,
the network and git is passed in as a value or a function.

## What the proofs found

- The "no free slot" refusal of the probe loop and the "short decode" refusal of the base64 decoder can
  never be taken; the proofs say so at the two places.
- The scan for a number counts exactly every needle that begins with an ASCII character and cannot stand
  alone inside itself, and no other (`NumberScan.CountsExactly`). A number is such a needle; `--`, or a
  needle that begins with a longer character, is not.
- The expiry gate accepts dates no calendar holds, such as 31 April. It then expires them as if they were
  the last day of their month (`CivilDate.ExpiryIsByDay`).
- Under a schedule other than the deployed one the batcher can accept a handoff the worker will never
  publish: `Worker.LateSchedulesStrand` gives one, `Worker.StrandedExactly` says exactly which, and
  `Worker.DeployedStrandsNothing` that the deployed schedule has none.
- The waiting time of an alert saturates at the ends of a 64-bit integer. That changes no verdict but
  that of the largest budget there is, which no wait passes (`Alert.OverdueIsPlainDifference`,
  `Alert.LargestBudgetIsNeverPassed`).
- A package that carries part of its chain, for a caller who named the previous head and trusts no
  earlier one, is reported as unestablished; without that part it would be established
  (`DisclosureTheorems.PartialSegmentUnsettles`). `DisclosureTheorems.EstablishedExactly` has the
  condition for every package.
- The closed-list walk sees what an array's `forEach` hands it and what `Object.entries` enumerates.
  Beside the elements of an array, in a field that is not enumerable, behind an accessor element, or in
  any element of an array with a `forEach` of its own, a value not parsed from JSON can carry a field the
  list does not have (`ListedFields.HiddenEpochKeyPasses`, `ListedFields.UnwalkedEpochKeyPasses`). Of the
  values modelled, exactly these do (`ListedFields.CarriesOnlyWhatItHides`); parsed from JSON none does,
  which is what the source asks of its callers.
- Under an offset below zero a worker can publish an epoch on its own day and then refuses its own log as
  ahead of the calendar until the day is over (`WorkerRuns.AheadExactly`).

## Model

| member | source | states |
|---|---|---|
| Bytes.Concat | ts/src/bytes.ts:26-33 | the parts end to end, in order |
| Bytes.BytesEqual | ts/src/bytes.ts:35-40 | the accumulated xor is zero exactly for equal strings, lengths included |
| Bytes.CompareBytes | ts/src/bytes.ts:43-49 | 0 exactly for equal strings, otherwise the sign of the lexicographic order, a proper prefix first |
| Bytes.BeforeIsTotalOrder | ts/src/bytes.ts:43-49 | that order is irreflexive, asymmetric, total and transitive, so sorting by it is lawful |
| Bytes.WordsRoundTrip | ts/src/bytes.ts:51-80 | each reader gives back what the writer of its width and sign wrote, at any offset |
| Bytes.WordsCover | ts/src/bytes.ts:51-80 | any eight bytes are the encoding of exactly the unsigned and the signed word read from them |
| Preimages.PreimageSink.constructor | ts/src/preimage.ts:15-18 | a new sink is empty |
| Preimages.PreimageSink.Write | ts/src/preimage.ts:19-25 | appends, or refuses exactly past 256 bytes and leaves the sink as it was |
| Preimages.PreimageSink.ToBytes | ts/src/preimage.ts:27-29 | the concatenation of everything written |
| Preimages.BuildPreimage | ts/src/preimage.ts:32-37 | stopping at the first field past the limit is refusing exactly when the whole is past it |
| Preimages.EncodeIsLayout | ts/src/preimage.ts:58-144 | each of the nine writers accepts exactly its well-formed fields and emits tag and fields end to end |
| Preimages.LayoutsAre | ts/src/preimage.ts:58-144 | byte for byte, what each of the nine writers emits: which tag, which fields, in which order and width |
| Preimages.WritersAccept | ts/src/preimage.ts:58-144 | the lengths and ranges each writer accepts, in numbers |
| Preimages.WritersRefuse | ts/src/preimage.ts:58-144 | an input is refused as out of range exactly when its lengths are right and an integer does not fit, otherwise as malformed |
| Preimages.LayoutHasLength | ts/src/preimage.ts:13-37 | no writer's output exceeds 256 bytes; each has the stated length, 161 for a leaf |
| Preimages.JointlyInjective | ts/src/preimage.ts:58-144 | over all nine writers together, equal bytes mean the same writer and the same field values |
| Preimages.ReadTaggedExactly | ts/src/preimage.ts:49-55 | reading under a tag accepts exactly the strings that begin with it and gives the rest; shorter strings and other tags are refused as such |
| Preimages.ReadTaggedIsExact | ts/src/preimage.ts:49-55 | what any writer wrote is read under its own tag as its fields, and refused under every other |
| Crypto.SameHash | ts/src/hash.ts:14-16 | equal digests of two messages mean one message, or their own preimages collide |
| Probing.ProbingIsTotal | ts/src/tree.ts:113-126 | with room for every home slot each gets a free slot in range, no two the same |
| Probing.ProbingIsTight | ts/src/tree.ts:113-126 | every slot cyclically between a home slot and its assigned slot is occupied |
| Probing.ProbeResumesAtLanding | ts/src/tree.ts:113-126 | with its landing taken, a home slot probes on just as the landing itself would |
| Probing.InsertionsCommute | ts/src/tree.ts:113-126 | two insertions occupy the same slots in either order |
| Probing.OccupancyIgnoresOrder | ts/src/tree.ts:113-126 | the set of occupied slots depends on the multiset of home slots alone |
| Sorting.NeighboursDecide | ts/src/tree.ts:105-112 | comparing neighbours of a sorted list is enough to find any duplicate |
| Sorting.StrictOrderIsUnique | ts/src/tree.ts:105-112 | a multiset of distinct submissions has one sorted order, whatever the caller's was |
| EpochTree.PrfUsesDisjoint | ts/src/tree.ts:48-79 | the three uses of the keyed function never share a preimage, whatever the keys |
| EpochTree.KeyedDigestsAre | ts/src/tree.ts:48-79 | the bytes hashed for an epoch key, a slot seed and a padding leaf, the slot number among those of the last |
| EpochTree.HomeIsDigestModCapacity | ts/src/tree.ts:69-72 | the two masked bytes are the whole 256-bit little-endian digest modulo the capacity |
| EpochTree.Probe | ts/src/tree.ts:113-126 | the in-place probe ends at the first free slot cyclically from the home slot |
| EpochTree.ProbeAll | ts/src/tree.ts:113-128 | the table loop assigns each submission its probing slot in turn, or refuses a malformed identifier |
| EpochTree.AssignSlots | ts/src/tree.ts:95-128 | assignment with its refusals in order: height, capacity, duplicates, identifier length |
| EpochTheorems.AssignmentRefusesExactly | ts/src/tree.ts:95-128 | slots are assigned exactly to at most capacity distinct 16-byte identifiers under a height of 4 to 16; more are past capacity, anything else is malformed |
| EpochTree.FillLeaves | ts/src/tree.ts:152-160 | every slot holds its tagged submission, or where there is none the padding of that very slot |
| EpochTree.BuildEpoch | ts/src/tree.ts:145-167 | the in-place build gives the assignment, the leaves and the root of the definition |
| EpochTree.ProofFor | ts/src/tree.ts:170-187 | the genuine path of the submission's slot, or the refusal of an identifier not held |
| EpochTree.VerifyInclusion | ts/src/tree.ts:194-215 | the shifting loop accepts exactly well-shaped proofs whose walk ends at the root |
| EpochTree.WalkIs | ts/src/tree.ts:194-215 | each level of the walk hashes the node so far left of its sibling where the slot's bit is clear and right of it where it is set |
| EpochTree.VerifyInclusionForHeight | ts/src/tree.ts:221-231 | and for a known height, exactly those of that height |
| Merkle.RootOf | ts/src/tree.ts:131-139 | folding level by level reaches the top node of the top-down definition |
| Merkle.PathOf | ts/src/tree.ts:170-187 | the path cut while folding with `%2` and `/2` is the sibling of every ancestor |
| Merkle.AncestorIsShift | ts/src/tree.ts:170-215 | the builder's repeated halving is the verifier's shift, and its parity the bit the verifier tests |
| Merkle.PathWalksToRoot | ts/src/tree.ts:170-215 | the path of a slot walks its leaf up through every ancestor |
| Merkle.WalkMeetsTree | ts/src/tree.ts:194-215 | a walk that meets any node met a real leaf at equal depth by the genuine path, or walk and build collide |
| EpochTheorems.BuildRefusesExactly | ts/src/tree.ts:95-167 | a build succeeds exactly for a height of 4 to 16, a 64-bit epoch and at most capacity distinct 16-byte identifiers |
| EpochTheorems.LeavesTellNothing | ts/src/tree.ts:75-167 | two slots of a built epoch hold equal leaves only if both hold submissions of one chain leaf, or two distinct preimages collide, one hashed for each of them; so no two free slots look alike and none looks like a real one |
| EpochTheorems.TreeIsComplete | ts/src/tree.ts:130-215 | every submission of a built epoch gets one sibling per level, and the verifier accepts them |
| EpochTheorems.ProofOnlyForSubmitted | ts/src/tree.ts:170-187 | a proof is given for exactly the identifiers submitted |
| EpochTheorems.InclusionIsSound | ts/src/tree.ts:194-215 | what is accepted against a built root, at any claimed height, is the genuine proof of a real submission of that leaf, or walk and build collide |
| EpochTheorems.BuildIgnoresOrder | ts/src/tree.ts:105-167 | reordering the submissions changes neither the built epoch nor the refusal |
| EpochTheorems.OccupiedSlotsIgnoreOrder | ts/src/tree.ts:95-128 | the occupied slots of a built epoch follow from the home slots in the caller's own order |
| EpochTheorems.AssignmentIsTight | ts/src/tree.ts:95-128 | from each submission's home slot to its own, every slot of a built epoch holds a real leaf |
| Chain.CheckPayloadUri | ts/src/chain.ts:103-121 | accepts exactly 1 to 128 printable bytes that properly extend a known scheme |
| Chain.LocationsAre | ts/src/chain.ts:103-121 | the three schemes and the bounds, byte for byte: a bare scheme is refused |
| Chain.FlagsFor | ts/src/chain.ts:124-133 | or-ing the bits into a local gives the two independent flags: reserve without a prior resource, and a category below the one before |
| Chain.StartIsGenesis | ts/src/chain.ts:70-75 | a chain starts at its genesis head, and schema 1 alone has one; under any other every record is refused |
| Chain.DigestsAre | ts/src/chain.ts:70-101 | the bytes the genesis head and each next head are digests of |
| Chain.AcceptanceIsSigned | ts/src/chain.ts:141-197 | an accepted record is signed by its own key over the 161 bytes whose digest is its leaf |
| Chain.AcceptedExactly | ts/src/chain.ts:141-197 | a record is accepted exactly when it names the state's head and next number, is of the expected key and signed by it, has no extension, does not go back in time, and its category and location are in range |
| Chain.RefusedByTheFirst | ts/src/chain.ts:141-197 | a record refused is refused with the name of the first of those it fails |
| Chain.RefusalsChangeNothing | ts/src/chain.ts:141-210 | dropping refused attempts leaves states, flags and acceptances as they were |
| Chain.ResumingIsTheSameRun | ts/src/chain.ts:141-210 | stopping at any snapshot and resuming gives the same states, acceptances and flags |
| Chain.StepDescribesHistory | ts/src/chain.ts:124-210 | one step keeps the counters true of the history and its flags equal those recomputed from all of it |
| Chain.RunInvariant | ts/src/chain.ts:124-210 | after any run: each record names the head it follows, `seq` counts the records, the head folds their leaves, dates never decrease, categories are 0 to 4, flags are the recomputed ones |
| Chain.AnyAttemptsInvariant | ts/src/chain.ts:141-210 | the same after any attempts, refused ones among them |
| Chain.HeadsDetermineLeaves | ts/src/chain.ts:70-101 | equal heads stand over one asset, one length and one list of leaves, or the two chains' heads collide |
| Chain.HeadFixesHistory | ts/src/chain.ts:70-210 | two accepted runs of any lengths and assets with one head have the same signed fields record by record, or collide |
| Chain.NoHeadRepeats | ts/src/chain.ts:70-101 | no head returns within a run, genesis included, unless the run itself hashed a collision |
| ListedFields.PassesExactlyTheListed | ts/src/disclosure.ts:268-374 | the walk passes exactly the values every place of which that it comes to, at any depth, the list allows |
| ListedFields.RefusedFor | ts/src/disclosure.ts:339-374 | a refusal names what is wrong at a place the walk came to: a structure or field not listed, or a part of the wrong kind |
| ListedFields.NoNameHides | ts/src/disclosure.ts:268-374 | no field the walk comes to in a passed value bears a name outside the list |
| ListedFields.CarriesOnlyWhatItHides | ts/src/disclosure.ts:339-374 | a passed value carries an unlisted name, anywhere, exactly when it hides it: beside an array's elements, in a field not enumerated, behind an accessor element, or in an array with a `forEach` of its own |
| ListedFields.NoEpochKey | ts/src/disclosure.ts:339-374 | a package that passes carries an epoch key exactly when it hides one, and parsed from JSON it carries none |
| ListedFields.HiddenEpochKeyPasses | ts/src/disclosure.ts:339-374 | a package not parsed from JSON that passes and carries one |
| ListedFields.UnwalkedEpochKeyPasses | ts/src/disclosure.ts:339-374 | another that carries one in a plain element, of an array with a `forEach` of its own |
| Disclosure.ReadInvertsWrite | ts/src/disclosure.ts:413-442 | reading a leaf preimage is the exact inverse of writing it, on the fields a chain could have accepted |
| Disclosure.DisplayMustAgree | ts/src/disclosure.ts:449-477 | the display copy passes exactly when every signed field in it is the signed value |
| Disclosure.WalkSegment | ts/src/disclosure.ts:166-266 | the link loop decides a segment: every head recomputed, the last two pinned, and what that establishes |
| Disclosure.JudgeChain | ts/src/disclosure.ts:549-646 | the chain fields are judged in order, the previous head against the one the caller expects among them; each is recorded in its place, and the position as a pass exactly when settled |
| Disclosure.VerifyDisclosurePackage | ts/src/disclosure.ts:493-706 | the report tells the verdict: the first refusal by name, and every check that ran, in order, with the position recorded as settled or not |
| DisclosureVerdicts.VerifiesExactly | ts/src/disclosure.ts:493-706 | a package verifies as a record exactly when every part of it says so: bytes, display copy, signature, genesis, expected previous head, segment, last step and inclusion walk |
| DisclosureVerdicts.RecordedExactly | ts/src/disclosure.ts:493-706 | every check a report records passes in its own terms and the first that does not is not recorded; the position is settled exactly if it came that far with something to anchor it |
| DisclosureVerdicts.ChainRefuses | ts/src/disclosure.ts:549-646 | chain fields that are no digests are malformed; another genesis, another previous head than the caller's or another last step is a head mismatch; a segment is refused for its own first fault |
| DisclosureVerdicts.FlagsReported | ts/src/disclosure.ts:664-692 | flags out of range are malformed; to a caller with a context the two flags recomputed from it are reported, and whether they differ |
| DisclosureTheorems.ExpectedHeadIsMet | ts/src/disclosure.ts:549-646 | a passed verification has the previous head its caller named, if it named one |
| DisclosureTheorems.HonestPackageVerifies | ts/src/disclosure.ts:493-706 | the package of any run's last record in any epoch built over its leaf verifies; with a segment from any record on, its position is established exactly from genesis or from a head the caller trusts, without one exactly at `seq` 1 or against the caller's previous head |
| DisclosureTheorems.DiscrepancyIsTrue | ts/src/disclosure.ts:664-692 | to a caller who knows the history, a discrepancy is shown exactly for flags the chain did not give |
| DisclosureTheorems.HonestPackageShowsItsFlags | ts/src/disclosure.ts:664-692 | so an honest package shows one exactly if it declares other flags than the chain gave its record |
| DisclosureTheorems.RecordReadsBack | ts/src/disclosure.ts:413-442 | what a chain accepted is read back as its own asset and fields |
| DisclosureTheorems.VerdictSays | ts/src/disclosure.ts:493-706 | a passed verification has pinned its bytes, the genesis head, the position and the last step |
| DisclosureTheorems.VerifiedIsSigned | ts/src/disclosure.ts:493-706 | a verified package displays exactly the fields its key signed, and their digest walks to the caller's root |
| DisclosureTheorems.VerifiedIsIncluded | ts/src/disclosure.ts:493-706 | against a built epoch's root, a verified package's record was submitted to that epoch and its proof is the genuine one, or walk and build collide |
| DisclosureTheorems.EstablishedExactly | ts/src/disclosure.ts:166-266 | exactly when a passed verification establishes the position, for every shape of segment |
| DisclosureTheorems.PartialSegmentUnsettles | ts/src/disclosure.ts:236-266 | where the caller named the previous head and trusts none, a partial segment leaves unestablished what the same package without it establishes |
| DisclosureTheorems.EstablishedIsAnchored | ts/src/disclosure.ts:166-266 | an established position is a fold of leaves up to the package's head from genesis, from the head the caller trusts, or from the previous head the caller named |
| DisclosureTheorems.PositionIsSound | ts/src/disclosure.ts:549-646 | if the package's head is a run's head, the record is that run's last, at its number, with its bytes and its previous head, or package and run collide |
| DisclosureTheorems.SameStepSameHead | ts/src/disclosure.ts:625-646 | the previous head is pinned by the later head check, once the leaf is |
| DisclosureTheorems.UnestablishedMeansAnyHistory | ts/src/disclosure.ts:66-83 | without establishment, and unless the caller named the previous head, the same record verifies as well over any other history, from any head, its segment included |
| Base64.Base64Encode | ts/src/bytes.ts:126-138 | the bit operations give the sextets of the bytes, padded |
| Base64.SextetsAreTheNumber | ts/src/bytes.ts:126-138 | the sextets are the digits, in base 64, of the number the bytes spell, the last group filled up with zero bits |
| Base64.EncodeIs | ts/src/bytes.ts:126-138 | one character of the alphabet for each sextet, then `=` up to a multiple of four |
| Base64.DecodeBody | ts/src/bytes.ts:108-123 | the unmasked 32-bit accumulator fills exactly the bytes, refusing a foreign character or a left-over bit |
| Base64.Base64Decode | ts/src/bytes.ts:98-124 | decoding with its refusals in order: length, inner padding, character, left-over bits |
| Base64.ShiftedIn | ts/src/bytes.ts:108-123 | shifting in a sextet loses only bits that are never read again |
| Base64.ByteOut | ts/src/bytes.ts:108-123 | the sign an arithmetic shift copies in never reaches the byte kept |
| Base64.DecodeInvertsEncode | ts/src/bytes.ts:98-138 | a string decodes to some bytes exactly when it is their encoding |
| Base64.DecodeRefuses | ts/src/bytes.ts:98-124 | a string that is no encoding is refused for its length, an `=` inside, a foreign character or left-over bits, whichever comes first in that order |
| CivilDate.YearOfEraIsRight | xtask/src/advisories.rs:145-148 | the three corrections find the one year of the era whose days include the day |
| CivilDate.MarchDatesFollow | xtask/src/advisories.rs:149-154 | month and day arithmetic yields dates, each followed by the next day's |
| CivilDate.ConversionFollows | xtask/src/advisories.rs:145-154 | the day after converts to the day after, across months, leap days, centuries and eras |
| CivilDate.ConversionIsCalendar | xtask/src/advisories.rs:145-154 | for every day since 1970 the arithmetic equals walking the Gregorian calendar day by day |
| CivilDate.TodayUtc | xtask/src/advisories.rs:138-155 | the straight-line conversion of a time is the date its day has walked to |
| CivilDate.ComparisonIsOfDays | xtask/src/advisories.rs:302-304 | comparing date tuples is comparing day numbers |
| CivilDate.EveryDateIsReached | xtask/src/advisories.rs:138-155 | every date from 1970 on is the date of some day |
| CivilDate.ExpiryIsByDay | xtask/src/advisories.rs:302-304 | an exception has expired exactly when today is past its date, clipped to its month |
| Numerals.RebaseInverts | scripts/live-values-from-chain.py:272-298 | changing base with leading zeros kept is undone by changing back |
| Base58.MultiplyAdd | xtask/src/main.rs:648-658 | one digit's in-place carry pass multiplies by 58 and adds, with no leading zero byte |
| Base58.CarryStep | xtask/src/main.rs:650-653 | the carry between bytes is at most 57 and no bit of the product is lost |
| Base58.DecodeInPlace | xtask/src/main.rs:638-664 | the carry decoder returns exactly the bytes the text spells, if they are 32 |
| Base58.DecodedLength | xtask/src/live_values.rs:433-452 | the length-only decoder returns the length of those bytes, for any text |
| Base58.DecodedIs | scripts/live-values-from-chain.py:272-298 | what a text spells: the bytes of its number in base 58, after one zero byte for each leading `1` |
| Base58.DecodeBigInteger | scripts/live-values-from-chain.py:272-283 | the big-integer decoder returns the same bytes, for any text |
| Base58.ToBytesIsMinimal | scripts/live-values-from-chain.py:281-281 | rounding the bit length up to bytes leaves no leading zero and cuts nothing off |
| Base58.EncodeBigInteger | scripts/live-values-from-chain.py:286-298 | the dividing loop writes the number in base 58, one leading character for each zero byte |
| Base58.DecodeInvertsEncode | scripts/live-values-from-chain.py:272-298 | a text decodes to some bytes exactly when it is their encoding |
| NumberScan.OccurrencesAsANumber | xtask/src/live_values.rs:133-156 | for a number the jumping scan returns how many places it occurs at with neither neighbour in `0123456789abcdef`; for any needle never more |
| NumberScan.ApartIsAlone | xtask/src/live_values.rs:133-156 | a hit with a digit or a letter `a` to `f` beside it is never counted, one without always stands alone |
| NumberScan.JumpingLosesNothing | xtask/src/live_values.rs:133-156 | skipping past an accepted hit loses none and a rejected hit hides none |
| NumberScan.CountsExactly | xtask/src/live_values.rs:133-156 | exactly which needles are counted exactly in every text |
| NumberScan.CountableIs | xtask/src/live_values.rs:133-156 | those needles by their characters: the first is ASCII, and no proper suffix is a prefix with no hexadecimal character at the seam |
| NumberScan.StripDigitSeparators | xtask/src/live_values.rs:104-118 | the one pass keeps every character but underscores between two digits |
| NumberScan.StripsExactly | xtask/src/live_values.rs:104-118 | a character is left out exactly when it is an underscore with a decimal digit on either side |
| NumberScan.NoSeparatorLeft | xtask/src/live_values.rs:104-118 | one pass leaves no separator behind |
| NumberScan.StrippingKeepsTheSpelling | xtask/src/live_values.rs:104-118 | nothing but underscores is removed |
| NumberScan.SeparatedNumberIsFound | xtask/src/live_values.rs:95-118 | a number written with separators becomes its digits alone |
| NumberScan.SeparatedNumberIsCounted | xtask/src/live_values.rs:95-156 | in any text that does not run on into it, such a number is found by the scan of the stripped text |
| Schedule.PublicationTimesAscend | crates/certimining-client/src/schedule.rs:40-46 | publication times are whole days apart and their overflow is upward-closed |
| Schedule.PublicationTimeIs | crates/certimining-client/src/schedule.rs:40-51 | an epoch is published the offset after its day ends, and built the lead before that, where every step fits in 64 signed bits; otherwise it is unschedulable |
| Schedule.DaysAre | crates/certimining-client/src/worker.rs:434-440 | a time's day is the one whose 86,400 seconds it is among; a time before 1970 has none |
| Schedule.DeployedBuildsAfterTheDay | crates/certimining-client/src/schedule.rs:31-51 | under the deployed schedule a build starts only after the epoch's UTC day |
| Handoff.Encode | crates/certimining-client/src/handoff.rs:84-99 | the moving cursor fills all 137 bytes with the five fields |
| Handoff.FieldsAre | crates/certimining-client/src/handoff.rs:84-99 | where each of the five fields is in the 137 bytes |
| Handoff.DecodeInvertsEncode | crates/certimining-client/src/handoff.rs:84-130 | decoding accepts exactly the 137-byte strings, each as the handoff it encodes |
| Handoff.GateOpensExactly | crates/certimining-client/src/handoff.rs:236-290 | a write passes exactly as a re-run of what is stored or as a first write inside its window |
| Handoff.StoredNeverChanges | crates/certimining-client/src/handoff.rs:236-290 | over any gated attempts, on any disk to begin with, what is stored for an epoch never changes |
| Handoff.FilesAreWindowed | crates/certimining-client/src/handoff.rs:236-290 | every stored file was first written at or after its build start and by its last publishable day |
| Handoff.DeployedFilesAreTimely | crates/certimining-client/src/handoff.rs:236-290 | under the deployed schedule, only after its UTC day had ended |
| Fetch.SequenceLag | crates/certimining-client/src/fetch.rs:272-413 | the batched scan answers exactly when every view is usable and none of its epochs is missing, each listed by the bounds and the account of its own view; else it names the first obstacle |
| Fetch.JudgeBatch | crates/certimining-client/src/fetch.rs:345-405 | one batch adds its epochs in order to the lists their own view puts them in, and stops at the first in range without an account |
| Fetch.AnswerExactly | crates/certimining-client/src/fetch.rs:345-405 | an epoch is before the log exactly when below its own view's start, not yet published exactly when at or above that and past the last, refused exactly when its account is no checkpoint of it, and in no list exactly when it is |
| Fetch.CheckpointsAre | crates/certimining-client/src/fetch.rs:170-227 | an account is an epoch's checkpoint exactly when the program owns it and its length, discriminator, schema and epoch are right; otherwise it is refused for the first that is not |
| Fetch.ViewsAre | crates/certimining-client/src/fetch.rs:272-343 | a view is usable exactly when it answers every address asked about and the first is a configuration of the program |
| Fetch.RequestsAre | crates/certimining-client/src/fetch.rs:272-343 | the range is asked about in as few requests as 99 epochs each allow, all full but the last |
| Fetch.OnlyAsked | crates/certimining-client/src/fetch.rs:345-405 | nothing but epochs asked about is listed |
| Fetch.StopsAtTheFirstGap | crates/certimining-client/src/fetch.rs:345-405 | the scan stops with a gap exactly at the first epoch in range without an account, every view up to its own usable |
| Fetch.StopsAtTheFirstBadView | crates/certimining-client/src/fetch.rs:272-413 | and at a view exactly when it is the first not usable, no epoch in range before it without its account |
| Fetch.ReadableExactly | crates/certimining-client/src/fetch.rs:272-413 | and it answers exactly when every view is usable and no epoch in range is without its account |
| Fetch.SelectIsPointwise | crates/certimining-client/src/fetch.rs:345-405 | an epoch is listed exactly when its own classification says so, in ascending order |
| Fetch.SelectRefusedIsPointwise | crates/certimining-client/src/fetch.rs:345-405 | a refusal is listed exactly for the epoch and the reason its own account gives |
| Fetch.RefusedAscend | crates/certimining-client/src/fetch.rs:345-405 | the refusals ascend by epoch |
| Fetch.ListsPartition | crates/certimining-client/src/fetch.rs:345-405 | the three lists and the placed epochs make up the whole range |
| Fetch.EmptyMeansAllPlaced | crates/certimining-client/src/fetch.rs:458-464 | nothing is reported exactly when every epoch asked about is placed |
| Fetch.NothingToReport | crates/certimining-client/src/fetch.rs:458-464 | so nothing is reported exactly when every epoch asked about has its checkpoint in its own view |
| Fetch.BehindIsPlainDifference | crates/certimining-client/src/fetch.rs:466-475 | without movement, being behind is the plain difference from the last epoch asked about |
| Fetch.BehindIsMaximum | crates/certimining-client/src/fetch.rs:466-475 | moved or not, it is the furthest any epoch not yet published is past the last that is, and never below zero |
| Worker.PublishesExactly | crates/certimining-client/src/worker.rs:278-432 | an epoch is published exactly as the successor, nothing outstanding, due, on its day or later and within the slip |
| Worker.PublishedIsWritable | crates/certimining-client/src/worker.rs:278-432 | what the worker publishes the batcher could write at that moment, exactly if its build has started |
| Worker.AcceptedIsAwaited | crates/certimining-client/src/worker.rs:396-431 | an accepted handoff is waited for, published, or past its last publishable day; never refused otherwise |
| Worker.StrandedExactly | crates/certimining-client/src/worker.rs:64-80 | an accepted handoff can still be published exactly when writing and due time fall by its last publishable day |
| Worker.DeployedStrandsNothing | crates/certimining-client/src/worker.rs:64-80 | under the deployed schedule the worker can publish every handoff the batcher accepts |
| Worker.LateSchedulesStrand | crates/certimining-client/src/worker.rs:64-80 | a schedule under which one is accepted that never can be |
| Observe.Pass | crates/certimining-client/src/observe.rs:87-113 | one pass finds the least single epoch, the least with a receipt and the last submitted, ending even at the largest epoch |
| Observe.Observe | crates/certimining-client/src/observe.rs:73-123 | the observation describes chain and receipts over the published range, or names the first question unanswered |
| Observe.ObservedIsConsistent | crates/certimining-client/src/worker.rs:335-358 | no observation trips the worker's three consistency refusals |
| WorkerRuns.PublishKeeps | crates/certimining-client/src/worker.rs:396-431 | an epoch is published only when the one before is attached |
| WorkerRuns.SubmitKeeps | crates/certimining-client/src/worker.rs:365-372 | a submission is always of the newest epoch, the one epoch without a receipt |
| WorkerRuns.AttachKeeps | crates/certimining-client/src/worker.rs:360-364 | an attachment is always of the newest epoch |
| WorkerRuns.RunKeeps | crates/certimining-client/src/bin/anchor-b-worker.rs:317-505 | every turn of the loop, landed or not, keeps the log contiguous, timely and anchored but for its newest epoch |
| WorkerRuns.RunOnlyGrows | crates/certimining-client/src/bin/anchor-b-worker.rs:317-505 | nothing published, submitted or attached is undone or redated |
| WorkerRuns.EveryRun | crates/certimining-client/src/worker.rs:278-432 | over any run from a new log that invariant holds, only the newest epoch can be outstanding, and the worker refuses only for the calendar |
| WorkerRuns.DeployedRunIsNeverEarly | crates/certimining-client/src/worker.rs:278-432 | under the deployed schedule every epoch of a run was published an hour or more after its day and within the slip |
| WorkerRuns.NewestIsServed | crates/certimining-client/src/worker.rs:360-372 | once the newest epoch's day has ended, the worker submits it if it has no receipt and attaches it if it has, and the log is settled exactly then |
| WorkerRuns.DueIsPublished | crates/certimining-client/src/worker.rs:396-431 | with the newest epoch attached, the next is published at any time in its window |
| WorkerRuns.CycleAdvances | crates/certimining-client/src/worker.rs:278-432 | three turns that land, the first in the window, publish, submit and attach the next epoch, change nothing else and leave the log ready for the one after |
| WorkerRuns.AheadExactly | crates/certimining-client/src/worker.rs:328-333 | the worker finds its own log ahead of the calendar exactly while the day of its newest epoch still runs, which takes an offset below zero |
| Alert.Alerts | crates/certimining-client/src/alert.rs:181-263 | exactly the conditions that hold, each once, in reading order |
| Alert.OldestIsEnough | crates/certimining-client/src/alert.rs:240-251 | with a datable clock the receipt alert is raised exactly when some published epoch is single past its budget |
| Alert.LeastIsNamed | crates/certimining-client/src/alert.rs:240-251 | it names the least single epoch, which none has out-waited |
| Alert.OverdueIsPlainDifference | crates/certimining-client/src/alert.rs:242-243 | for every budget, being overdue is a plain difference past it, and it not being the largest there is |
| Alert.LargestBudgetIsNeverPassed | crates/certimining-client/src/alert.rs:242-243 | a wait longer than the largest budget that is not reported |
| Alert.WorkerCannotAccuseItself | crates/certimining-client/src/alert.rs:62-89 | the worker can raise only the three conditions about the log |
| Alert.MissedIsOwed | crates/certimining-client/src/alert.rs:208-219 | a missed publication of a settled log is one the worker would publish now, or leaves to an operator past the slip |

## Left out

- Keccak-256, SHA-256, Ed25519 and NFKD themselves: uninterpreted or not modelled.
- JSON, hex and decimal text: a package is a parsed value. Missing or ill-typed fields, the wording of
  notes and details, and non-integer heights or slots are not part of the model. `ListedFields` models
  the closed-list walk on values with prototypes, accessors and properties it does not enumerate; a
  proxy, and an accessor or a `forEach` that changes another part of the package already walked, are not
  values of it. `Disclosure` starts from a
  package that passed the walk.
- The asset commitment's canonical tenure (`ts/src/canonical.ts`) and `ts/src/promise.ts`.
- The library sort is taken as a stable insertion sort; nothing but the order of the result is used.
- `EpochTree.BuildEpoch`: the map from identifier to slot is a list of pairs in ascending order.
- Sequences handed to functions are values, so a caller that mutates a buffer it has passed is not modelled.
- `Fetch.SequenceLag`: decoding an account's bytes is an abstract result, program layouts are unnamed
  constants, addresses are implied by position, and running out of memory for the range is not modelled.
- `Observe.Observe`: an epoch's status is one answer or none; why it could not be asked is not kept.
- `Handoff.DecodeInvertsEncode`: covers the bytes only; `Handoff::verify` is not part of this model.
- `WorkerRuns.EveryRun`: receipts, once written, stay; a lost or unreadable one, retries, backoff and the
  chain's own clock check are not part of the runs. A step that does not land changes nothing.
- `NumberScan.OccurrencesAsANumber`: texts are sequences of characters rather than of UTF-8 bytes.
- The scanning of `deny.toml` for exceptions and the text of an expiry: a date is given, in the ranges the
  reader admits. The paths of `today_utc` for a clock before 1970 or beyond 64 bits are not modelled.
- An existing handoff file that cannot be read: the binary takes it for absent, so it can be
  overwritten. The disk of `Handoff` reads every file it holds.
- RPC, signing, slots, retry policy, address derivation, the on-chain program, demo, benches and fuzzing.

/** The batcher's handoff (handoff.rs): its fixed-width encoding and the gate before every write. */
module Handoff {
  import opened Wrappers
  import opened Arith
  import opened Bytes
  import opened Schedule

  const HANDOFF_LEN: nat := 137

  datatype Handoff = Handoff(epoch: u64, height: byte, root: Bytes, batcherKey: Bytes, signature: Bytes)

  /** The fields are of the widths their Rust types fix. */
  predicate WellTyped(h: Handoff) {
    |h.root| == 32 && |h.batcherKey| == 32 && |h.signature| == 64
  }

  datatype HandoffRefused = WrongLength(found: nat)

  // The encoding

  function Encoded(h: Handoff): Bytes {
    LE(h.epoch, 8) + [h.height] + h.root + h.batcherKey + h.signature
  }

  /** Writes one field at the cursor, or nothing when it does not fit, and moves the cursor on. */
  method Put(out: array<byte>, at: nat, bytes: Bytes) returns (next: nat)
    modifies out
    ensures next == at + |bytes|
    ensures at + |bytes| <= out.Length ==> out[at..next] == bytes
    ensures at + |bytes| <= out.Length ==> out[..at] == old(out[..at])
    ensures at + |bytes| > out.Length ==> out[..] == old(out[..])
  {
    if at + |bytes| <= out.Length {
      forall k | 0 <= k < |bytes| { out[at + k] := bytes[k]; }
    }
    next := at + |bytes|;
  }

  method Encode(h: Handoff) returns (r: Bytes)
    requires WellTyped(h)
    ensures r == Encoded(h) && |r| == HANDOFF_LEN
  {
    hide LE;
    var out := new byte[HANDOFF_LEN](_ => 0);
    var at := Put(out, 0, LE(h.epoch, 8));
    assert out[..at] == LE(h.epoch, 8);
    ghost var done := out[..at];
    var next := Put(out, at, [h.height]);
    assert out[..next] == done + [h.height];
    done, at := out[..next], next;
    next := Put(out, at, h.root);
    assert out[..next] == done + h.root;
    done, at := out[..next], next;
    next := Put(out, at, h.batcherKey);
    assert out[..next] == done + h.batcherKey;
    done, at := out[..next], next;
    next := Put(out, at, h.signature);
    assert out[..next] == done + h.signature;
    assert next == HANDOFF_LEN && out[..next] == out[..];
    r := out[..];
  }

  function Decode(bytes: Bytes): Result<Handoff, HandoffRefused> {
    if |bytes| != HANDOFF_LEN then Err(WrongLength(|bytes|))
    else
      WordAt(bytes, 0);
      Ok(Handoff(ReadU64le(bytes, 0), bytes[8], bytes[9..41], bytes[41..73], bytes[73..137]))
  }

  lemma WordAt(bytes: Bytes, off: nat)
    requires off + 8 <= |bytes|
    ensures 0 <= ReadU64le(bytes, off) <= U64_MAX && LE(ReadU64le(bytes, off), 8) == bytes[off..off + 8]
  {
    WordsCover(bytes, off);
  }

  /** Decoding accepts exactly the encodings, each as the handoff it encodes: all 137-byte strings. */
  lemma DecodeInvertsEncode(bytes: Bytes, h: Handoff)
    requires WellTyped(h)
    ensures Decode(bytes) == Ok(h) <==> bytes == Encoded(h)
    ensures Decode(bytes).Ok? <==> |bytes| == HANDOFF_LEN
    ensures Decode(bytes).Ok? ==> WellTyped(Decode(bytes).value)
  {
    hide LE, FromLE;
    if Decode(bytes) == Ok(h) {
      WordAt(bytes, 0);
      assert bytes == bytes[0..8] + [bytes[8]] + bytes[9..41] + bytes[41..73] + bytes[73..137];
    }
    if bytes == Encoded(h) {
      WordsRoundTrip(h.epoch, [], bytes[8..]);
      assert bytes == [] + LE(h.epoch, 8) + bytes[8..];
      assert U64le(h.epoch).Ok? && ReadU64le(bytes, 0) == h.epoch;
      assert bytes[8] == h.height && bytes[9..41] == h.root && bytes[41..73] == h.batcherKey && bytes[73..137] == h.signature;
    }
  }

  // The gate

  datatype WriteRefused =
    | EpochAheadOfToday(epoch: u64, today: u64)
    | AlreadyWrittenDifferently(epoch: u64)
    | BeforeBuildStart(epoch: u64, now: i64, start: i64)
    | UndatableClock(now: i64)
    | PastTheSlipAllowance(epoch: u64, today: u64, latestDay: u64)
    | Unschedulable(epoch: u64)

  function RefuseToWrite(
      s: Schedule, maxEpochSlip: u64, epoch: u64, now: i64, existing: Option<Bytes>, bytes: Bytes): Result<(), WriteRefused>
  {
    if existing == Some(bytes) then Ok(())
    else
      var today := DayIndex(now);
      if today.None? then Err(UndatableClock(now))
      else if epoch > today.value then Err(EpochAheadOfToday(epoch, today.value))
      else
        var start := BuildStart(s, epoch);
        if start.None? then Err(Unschedulable(epoch))
        else if now < start.value then Err(BeforeBuildStart(epoch, now, start.value))
        else
          var latestDay := LastPublishableDay(maxEpochSlip, epoch);
          if today.value > latestDay then Err(PastTheSlipAllowance(epoch, today.value, latestDay))
          else if existing.Some? then Err(AlreadyWrittenDifferently(epoch)) else Ok(())
  }

  /** The days and hours an epoch's handoff may first be written in. */
  predicate InWindow(s: Schedule, maxEpochSlip: u64, epoch: u64, now: i64) {
    DayIndex(now).Some? && epoch <= DayIndex(now).value <= LastPublishableDay(maxEpochSlip, epoch)
    && BuildStart(s, epoch).Some? && now >= BuildStart(s, epoch).value
  }

  /** The gate opens exactly for a re-run of what is there, or for a first write inside the window. */
  lemma GateOpensExactly(s: Schedule, maxEpochSlip: u64, epoch: u64, now: i64, existing: Option<Bytes>, bytes: Bytes)
    ensures RefuseToWrite(s, maxEpochSlip, epoch, now, existing, bytes).Ok? <==>
      existing == Some(bytes) || (existing.None? && InWindow(s, maxEpochSlip, epoch, now))
  {
  }

  // The disk, under any sequence of gated writes

  datatype Attempt = Attempt(epoch: u64, now: i64, bytes: Bytes)

  /** What is stored for each epoch, and when it was first. */
  datatype Disk = Disk(files: map<int, Bytes>, firstWritten: map<int, i64>)

  const EMPTY_DISK: Disk := Disk(map[], map[])

  function Stored(d: Disk, epoch: u64): Option<Bytes> {
    if epoch in d.files then Some(d.files[epoch]) else None
  }

  function Write(s: Schedule, maxEpochSlip: u64, d: Disk, a: Attempt): Disk {
    if RefuseToWrite(s, maxEpochSlip, a.epoch, a.now, Stored(d, a.epoch), a.bytes).Err? then d
    else Disk(d.files[a.epoch := a.bytes],
              if a.epoch in d.firstWritten then d.firstWritten else d.firstWritten[a.epoch := a.now])
  }

  function WriteAll(s: Schedule, maxEpochSlip: u64, d: Disk, attempts: seq<Attempt>): Disk
    decreases |attempts|
  {
    if attempts == [] then d else WriteAll(s, maxEpochSlip, Write(s, maxEpochSlip, d, attempts[0]), attempts[1..])
  }

  /** Every stored file was first written inside its window. */
  predicate Windowed(s: Schedule, maxEpochSlip: u64, d: Disk) {
    d.files.Keys == d.firstWritten.Keys
    && forall e :: e in d.files ==> 0 <= e <= U64_MAX && InWindow(s, maxEpochSlip, e, d.firstWritten[e])
  }

  /**
   Whatever is attempted, in whatever order and at whatever times, what is stored stays as it is, and so
   does the time it was first stored at where that is known. The disk may hold anything to begin with.
   */
  lemma {:induction false} StoredNeverChanges(s: Schedule, maxEpochSlip: u64, d: Disk, attempts: seq<Attempt>, epoch: u64)
    requires epoch in d.files
    ensures var after := WriteAll(s, maxEpochSlip, d, attempts);
      epoch in after.files && after.files[epoch] == d.files[epoch]
    ensures var after := WriteAll(s, maxEpochSlip, d, attempts);
      epoch in d.firstWritten ==> epoch in after.firstWritten && after.firstWritten[epoch] == d.firstWritten[epoch]
    decreases |attempts|
  {
    hide RefuseToWrite, InWindow;
    if attempts != [] {
      var a := attempts[0];
      GateOpensExactly(s, maxEpochSlip, a.epoch, a.now, Stored(d, a.epoch), a.bytes);
      StoredNeverChanges(s, maxEpochSlip, Write(s, maxEpochSlip, d, a), attempts[1..], epoch);
    }
  }

  lemma WriteKeepsWindows(s: Schedule, maxEpochSlip: u64, d: Disk, a: Attempt)
    requires Windowed(s, maxEpochSlip, d)
    ensures Windowed(s, maxEpochSlip, Write(s, maxEpochSlip, d, a))
  {
    hide RefuseToWrite, InWindow;
    GateOpensExactly(s, maxEpochSlip, a.epoch, a.now, Stored(d, a.epoch), a.bytes);
  }

  /** Where every stored file was first written in its epoch's window, gated writes leave it so; an empty disk is such. */
  lemma {:induction false} FilesAreWindowed(s: Schedule, maxEpochSlip: u64, d: Disk, attempts: seq<Attempt>)
    requires Windowed(s, maxEpochSlip, d)
    ensures Windowed(s, maxEpochSlip, WriteAll(s, maxEpochSlip, d, attempts))
    decreases |attempts|
  {
    hide Windowed, Write;
    if attempts != [] {
      WriteKeepsWindows(s, maxEpochSlip, d, attempts[0]);
      FilesAreWindowed(s, maxEpochSlip, Write(s, maxEpochSlip, d, attempts[0]), attempts[1..]);
    }
  }

  /**
   Under the deployed schedule no handoff is frozen while its day is still running, and none after
   the last day the worker would publish it on.
   */
  lemma DeployedFilesAreTimely(maxEpochSlip: u64, attempts: seq<Attempt>, epoch: u64)
    requires epoch in WriteAll(DEPLOYED, maxEpochSlip, EMPTY_DISK, attempts).files
    ensures var after := WriteAll(DEPLOYED, maxEpochSlip, EMPTY_DISK, attempts);
      && epoch in after.firstWritten
      && DayIndex(after.firstWritten[epoch]).Some?
      && epoch + 1 <= DayIndex(after.firstWritten[epoch]).value <= epoch + maxEpochSlip
  {
    FilesAreWindowed(DEPLOYED, maxEpochSlip, EMPTY_DISK, attempts);
    var after := WriteAll(DEPLOYED, maxEpochSlip, EMPTY_DISK, attempts);
    assert InWindow(DEPLOYED, maxEpochSlip, epoch, after.firstWritten[epoch]);
    DeployedBuildsAfterTheDay(epoch, after.firstWritten[epoch]);
  }

  // Field by field, and reason by reason

  /** Where each field of a handoff is in its 137 bytes. */
  lemma FieldsAre(h: Handoff)
    requires WellTyped(h)
    ensures |Encoded(h)| == 137 && Encoded(h)[0..8] == LE(h.epoch, 8) && Encoded(h)[8] == h.height
    ensures Encoded(h)[9..41] == h.root && Encoded(h)[41..73] == h.batcherKey && Encoded(h)[73..137] == h.signature
  {
    hide LE;
  }

  /** A string of another length is refused as such, with the length it has. */
  lemma LengthIsChecked(bytes: Bytes)
    ensures Decode(bytes).Err? <==> |bytes| != 137
    ensures Decode(bytes).Err? ==> Decode(bytes).error == WrongLength(|bytes|)
  {
  }

  /** What a write that may not be is refused with: the calendar's reasons first, then what is stored. */
  lemma GateRefuses(s: Schedule, maxEpochSlip: u64, epoch: u64, now: i64, existing: Option<Bytes>, bytes: Bytes)
    requires RefuseToWrite(s, maxEpochSlip, epoch, now, existing, bytes).Err?
    ensures existing != Some(bytes) && RefuseToWrite(s, maxEpochSlip, epoch, now, existing, bytes).error ==
      if now < 0 then UndatableClock(now)
      else if epoch > DayIndex(now).value then EpochAheadOfToday(epoch, DayIndex(now).value)
      else if BuildStart(s, epoch).None? then Unschedulable(epoch)
      else if now < BuildStart(s, epoch).value then BeforeBuildStart(epoch, now, BuildStart(s, epoch).value)
      else if DayIndex(now).value > LastPublishableDay(maxEpochSlip, epoch) then
        PastTheSlipAllowance(epoch, DayIndex(now).value, LastPublishableDay(maxEpochSlip, epoch))
      else AlreadyWrittenDifferently(epoch)
  {
    hide BuildStart, LastPublishableDay;
  }
}

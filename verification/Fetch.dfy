/**
 Reading the published sequence in batches (fetch.rs): each batch carries the configuration, and the
 scan must say of each epoch what testing it alone would.
 */
module Fetch {
  import opened Wrappers
  import opened Schedule

  type Pubkey = int

  datatype Refused = NotTheProgram | TooShort | WrongDiscriminator | UnsupportedSchema | WrongEpoch | Malformed

  /** What deserialising an account's bytes gives, or nothing when they do not decode. */
  datatype CheckpointBody = CheckpointBody(schemaVersion: int, epoch: u64)
  datatype ConfigBody = ConfigBody(schemaVersion: int, startEpoch: u64, lastEpoch: u64)

  datatype Account = Account(
    owner: Pubkey, length: nat, discriminator: int, asCheckpoint: Option<CheckpointBody>, asConfig: Option<ConfigBody>)

  /** The layout of the two accounts belongs to the program, which is not part of this model. */
  const CHECKPOINT_LEN: nat
  const CONFIG_LEN: nat
  const CHECKPOINT_DISCRIMINATOR: int
  const CONFIG_DISCRIMINATOR: int
  const SCHEMA_VERSION: int

  function DecodeCheckpoint(programId: Pubkey, a: Account, epoch: u64): Result<u64, Refused> {
    if a.owner != programId then Err(NotTheProgram)
    else if a.length < CHECKPOINT_LEN then Err(TooShort)
    else if a.discriminator != CHECKPOINT_DISCRIMINATOR then Err(WrongDiscriminator)
    else if a.asCheckpoint.None? then Err(Malformed)
    else if a.asCheckpoint.value.schemaVersion != SCHEMA_VERSION then Err(UnsupportedSchema)
    else if a.asCheckpoint.value.epoch != epoch then Err(WrongEpoch)
    else Ok(a.asCheckpoint.value.epoch)
  }

  datatype Bounds = Bounds(start: u64, last: u64)

  function DecodeConfig(programId: Pubkey, a: Account): Result<Bounds, Refused> {
    if a.owner != programId then Err(NotTheProgram)
    else if a.length < CONFIG_LEN then Err(TooShort)
    else if a.discriminator != CONFIG_DISCRIMINATOR then Err(WrongDiscriminator)
    else if a.asConfig.None? then Err(Malformed)
    else if a.asConfig.value.schemaVersion != SCHEMA_VERSION then Err(UnsupportedSchema)
    else Ok(Bounds(a.asConfig.value.startEpoch, a.asConfig.value.lastEpoch))
  }

  // What the source answers

  type View = seq<Option<Account>>

  /** The answer to each request in turn, or none where the source could not be asked. */
  type Replies = nat -> Option<View>

  datatype Unreachable = NotAsked | WrongCount | NoConfiguration | ConfigurationRefused(reason: Refused) | Gap(epoch: u64)

  const ONE_VIEW_LIMIT: nat := 100
  const PER_VIEW: nat := ONE_VIEW_LIMIT - 1

  /** How many epochs are asked about. */
  function RangeSize(first: u64, last: u64): nat {
    if first <= last then last - first + 1 else 0
  }

  /** One request for every 99 epochs begun, and one even when there is none to ask about. */
  function ViewCount(n: nat): nat {
    if n == 0 then 1 else (n + PER_VIEW - 1) / PER_VIEW
  }

  /** How many epochs a request carries beside the configuration. */
  function BatchSize(n: nat, v: nat): nat {
    if n <= v * PER_VIEW then 0 else if n - v * PER_VIEW < PER_VIEW then n - v * PER_VIEW else PER_VIEW
  }

  /** A view that answers every address asked about and holds a configuration this client accepts. */
  function ViewBounds(programId: Pubkey, view: Option<View>, size: nat): Result<Bounds, Unreachable> {
    if view.None? then Err(NotAsked)
    else if |view.value| != size + 1 then Err(WrongCount)
    else if view.value[0].None? then Err(NoConfiguration)
    else
      match DecodeConfig(programId, view.value[0].value)
      case Ok(b) => Ok(b)
      case Err(reason) => Err(ConfigurationRefused(reason))
  }

  // Judging one epoch alone

  datatype Class = BeforeLogStart | NotYetPublished | Placed | RefusedAs(reason: Refused) | Missing

  function Classify(programId: Pubkey, bounds: Bounds, entry: Option<Account>, epoch: u64): Class {
    if epoch < bounds.start then BeforeLogStart
    else if epoch > bounds.last then NotYetPublished
    else
      match entry
      case None => Missing
      case Some(a) =>
        match DecodeCheckpoint(programId, a, epoch)
        case Ok(_) => Placed
        case Err(reason) => RefusedAs(reason)
  }

  datatype Scan = Scan(programId: Pubkey, replies: Replies, first: u64, last: u64) {
    function Size(): nat {
      RangeSize(first, last)
    }

    function BoundsOf(v: nat): Result<Bounds, Unreachable> {
      ViewBounds(programId, replies(v), BatchSize(Size(), v))
    }

    /** The k-th epoch asked about, by its own entry and the configuration of its own view. */
    function ClassOf(k: nat): Class
      requires k < Size() && BoundsOf(k / PER_VIEW).Ok?
    {
      EntryExists(Size(), k);
      Classify(programId, BoundsOf(k / PER_VIEW).value, replies(k / PER_VIEW).value[k % PER_VIEW + 1], first + k)
    }

    /** The views of the first k epochs asked about can all be used. */
    predicate Seen(k: nat) {
      forall i :: 0 <= i < k ==> BoundsOf(i / PER_VIEW).Ok?
    }

    predicate ViewsUsable(views: nat) {
      forall v :: 0 <= v < views ==> BoundsOf(v).Ok?
    }

    predicate NoneMissing(k: nat)
      requires k <= Size() && Seen(k)
    {
      forall i :: 0 <= i < k ==> ClassOf(i) != Missing
    }

    /** The epochs among the first k of one judged, in the order asked. */
    function Select(c: Class, k: nat): seq<u64>
      requires k <= Size() && Seen(k)
    {
      if k == 0 then []
      else
        Select(c, k - 1) + (if ClassOf(k - 1) == c then [first + (k - 1)] else [])
    }

    function SelectRefused(k: nat): seq<(u64, Refused)>
      requires k <= Size() && Seen(k)
    {
      if k == 0 then []
      else
        SelectRefused(k - 1) + (match ClassOf(k - 1) case RefusedAs(reason) => [(first + (k - 1), reason)] case _ => [])
    }

    predicate Moved(views: nat)
      requires ViewsUsable(views)
    {
      exists v :: 0 <= v < views && BoundsOf(v) != BoundsOf(0)
    }
  }

  lemma EntryExists(n: nat, k: nat)
    requires k < n
    ensures k % PER_VIEW + 1 < BatchSize(n, k / PER_VIEW) + 1
  {
  }

  lemma InViews(n: nat, k: nat)
    requires k < n
    ensures k / PER_VIEW < ViewCount(n)
  {
  }

  datatype Lag = Lag(
    startEpoch: u64, lastPublished: u64, beforeLogStart: seq<u64>, notYetPublished: seq<u64>,
    refused: seq<(u64, Refused)>, views: nat, configurationMoved: bool)
  {
    predicate IsEmpty() {
      beforeLogStart == [] && notYetPublished == [] && refused == []
    }
  }

  lemma UsableIsSeen(s: Scan, views: nat, k: nat)
    requires s.ViewsUsable(views) && k <= views * PER_VIEW
    ensures s.Seen(k)
  {
    forall i | 0 <= i < k ensures s.BoundsOf(i / PER_VIEW).Ok? {
      assert 0 <= i / PER_VIEW < views;
    }
  }

  lemma CountCovers(n: nat)
    ensures ViewCount(n) >= 1 && n <= ViewCount(n) * PER_VIEW
    ensures forall v :: 0 <= v < ViewCount(n) ==> v * PER_VIEW <= n
  {
  }

  /** What the scan answers when it can answer at all. */
  predicate Answers(s: Scan, lag: Lag)
    requires s.ViewsUsable(ViewCount(s.Size()))
  {
    var n, views := s.Size(), ViewCount(s.Size());
    CountCovers(n);
    UsableIsSeen(s, views, n);
    && lag.views == views && lag.configurationMoved == s.Moved(views)
    && Bounds(lag.startEpoch, lag.lastPublished) == s.BoundsOf(views - 1).value
    && lag.beforeLogStart == s.Select(BeforeLogStart, n)
    && lag.notYetPublished == s.Select(NotYetPublished, n)
    && lag.refused == s.SelectRefused(n)
  }

  /** Every view can be used and no published epoch is missing from its own view. */
  predicate Readable(s: Scan) {
    s.ViewsUsable(ViewCount(s.Size()))
    && (CountCovers(s.Size()); UsableIsSeen(s, ViewCount(s.Size()), s.Size()); s.NoneMissing(s.Size()))
  }

  /** The first thing, in the order of the scan, that makes it unreadable. */
  ghost predicate FirstFailure(s: Scan, e: Unreachable) {
    (exists v :: 0 <= v < ViewCount(s.Size()) && FailsAtView(s, v, e))
    || (exists k :: 0 <= k < s.Size() && FailsAtEpoch(s, k, e))
  }

  predicate FailsAtView(s: Scan, v: nat, e: Unreachable)
    requires v < ViewCount(s.Size())
  {
    s.ViewsUsable(v) && s.BoundsOf(v) == Err(e)
    && (CountCovers(s.Size()); UsableIsSeen(s, v, v * PER_VIEW); s.NoneMissing(v * PER_VIEW))
  }

  predicate FailsAtEpoch(s: Scan, k: nat, e: Unreachable)
    requires k < s.Size()
  {
    s.Seen(k) && s.NoneMissing(k) && s.BoundsOf(k / PER_VIEW).Ok? && s.ClassOf(k) == Missing && e == Gap(s.first + k)
  }

  /** The lists so far are those of the first k epochs. */
  predicate Collected(s: Scan, k: nat, lag: Lag)
    requires k <= s.Size() && s.Seen(k)
  {
    lag.beforeLogStart == s.Select(BeforeLogStart, k) && lag.notYetPublished == s.Select(NotYetPublished, k)
    && lag.refused == s.SelectRefused(k) && s.NoneMissing(k)
  }

  lemma ListsKept(s: Scan, k: nat, before: Lag, lag: Lag)
    requires k <= s.Size() && s.Seen(k) && Collected(s, k, before)
    requires lag == before.(startEpoch := lag.startEpoch, lastPublished := lag.lastPublished)
    ensures Collected(s, k, lag)
  {
  }

  lemma CollectedMissesNone(s: Scan, k: nat, lag: Lag)
    requires k <= s.Size() && s.Seen(k) && Collected(s, k, lag)
    ensures s.NoneMissing(k)
  {
  }

  /** Where the scan stands after some views: what it has collected and what it has seen move. */
  predicate Standing(s: Scan, views: nat, k: nat, firstConfig: Option<Bounds>, moved: bool, lag: Lag) {
    views <= ViewCount(s.Size()) && s.ViewsUsable(views)
    && k == (if views * PER_VIEW < s.Size() then views * PER_VIEW else s.Size()) && s.Seen(k) && Collected(s, k, lag)
    && firstConfig == (if views == 0 then None else Some(s.BoundsOf(0).value))
    && moved == s.Moved(views)
    && (views > 0 ==> Bounds(lag.startEpoch, lag.lastPublished) == s.BoundsOf(views - 1).value)
  }

  lemma NothingRead(s: Scan)
    ensures Standing(s, 0, 0, None, false, Lag(0, 0, [], [], [], 0, false))
  {
  }

  lemma ViewFails(s: Scan, views: nat, k: nat, firstConfig: Option<Bounds>, moved: bool, lag: Lag)
    requires Standing(s, views, k, firstConfig, moved, lag) && views < ViewCount(s.Size()) && s.BoundsOf(views).Err?
    ensures !Readable(s) && FirstFailure(s, s.BoundsOf(views).error)
  {
    hide ViewBounds, Classify;
    BatchFits(s.Size(), views);
    UsableIsSeen(s, views, k);
    assert FailsAtView(s, views, s.BoundsOf(views).error);
  }

  lemma EpochFails(s: Scan, k: nat)
    requires k < s.Size() && s.Seen(k) && s.NoneMissing(k) && s.BoundsOf(k / PER_VIEW).Ok? && s.ClassOf(k) == Missing
    ensures !Readable(s) && FirstFailure(s, Gap(s.first + k))
  {
    hide ViewBounds, Classify;
    assert FailsAtEpoch(s, k, Gap(s.first + k));
  }

  /** One more view read: its bounds are the latest, compared with the first ones. */
  lemma ViewRead(s: Scan, views: nat, k: nat, firstConfig: Option<Bounds>, moved: bool, before: Lag, bounds: Bounds, lag: Lag)
    requires Standing(s, views, k, firstConfig, moved, before) && views < ViewCount(s.Size()) && s.BoundsOf(views) == Ok(bounds)
    requires lag.startEpoch == bounds.start && lag.lastPublished == bounds.last
    requires var k' := k + BatchSize(s.Size(), views); k' <= s.Size() && s.Seen(k') && Collected(s, k', lag)
    ensures Standing(s, views + 1, k + BatchSize(s.Size(), views),
                     if firstConfig.None? then Some(bounds) else firstConfig,
                     moved || (firstConfig.Some? && firstConfig.value != bounds), lag)
  {
    hide ViewBounds, Classify, Collected, BatchSize, ViewCount;
    BatchFits(s.Size(), views);
    MovedNext(s, views);
  }

  lemma MovedNext(s: Scan, views: nat)
    requires s.ViewsUsable(views + 1)
    ensures s.Moved(views + 1) <==> s.Moved(views) || s.BoundsOf(views) != s.BoundsOf(0)
  {
    hide ViewBounds;
  }

  lemma AllRead(s: Scan, k: nat, firstConfig: Option<Bounds>, moved: bool, lag: Lag)
    requires Standing(s, ViewCount(s.Size()), k, firstConfig, moved, lag)
    ensures Readable(s) && Answers(s, lag.(views := ViewCount(s.Size()), configurationMoved := moved))
  {
    hide ViewBounds, Classify;
    CountCovers(s.Size());
  }

  method SequenceLag(programId: Pubkey, replies: Replies, first: u64, last: u64) returns (r: Result<Lag, Unreachable>)
    ensures var s := Scan(programId, replies, first, last);
      && (r.Ok? <==> Readable(s)) && (r.Ok? ==> Answers(s, r.value)) && (r.Err? ==> FirstFailure(s, r.error))
  {
    hide ViewBounds, Classify, Answers, Readable, FirstFailure, Collected;
    ghost var s := Scan(programId, replies, first, last);
    var n := RangeSize(first, last);
    var count := ViewCount(n);
    var lag := Lag(0, 0, [], [], [], 0, false);
    var firstConfig: Option<Bounds> := None;
    var views, moved := 0, false;
    var k := 0;
    NothingRead(s);
    while views < count
      invariant views <= count && Standing(s, views, k, firstConfig, moved, lag)
    {
      var size := BatchSize(n, views);
      var judged := ViewBounds(programId, replies(views), size);
      assert judged == s.BoundsOf(views);
      if judged.Err? {
        ViewFails(s, views, k, firstConfig, moved, lag);
        return Err(judged.error);
      }
      var bounds, view := judged.value, ViewOf(programId, replies(views), size);
      assert s.ViewsUsable(views + 1);
      BatchFits(n, views);
      UsableIsSeen(s, views + 1, k + size);
      ghost var before := lag;
      var at, gap;
      lag := lag.(startEpoch := bounds.start, lastPublished := bounds.last);
      ListsKept(s, k, before, lag);
      lag, at, gap := JudgeBatch(s, programId, first, view, bounds, size, k, lag);
      if gap {
        assert s.NoneMissing(at) by { CollectedMissesNone(s, at, lag); }
        EpochFails(s, at);
        return Err(Gap(first + at));
      }
      ViewRead(s, views, k, firstConfig, moved, before, bounds, lag);
      if firstConfig.None? { firstConfig := Some(bounds); } else if firstConfig.value != bounds { moved := true; }
      k := k + size;
      views := views + 1;
    }
    AllRead(s, k, firstConfig, moved, lag);
    return Ok(lag.(views := views, configurationMoved := moved));
  }

  /** The entries of a view already judged usable. */
  function ViewOf(programId: Pubkey, view: Option<View>, size: nat): (r: View)
    requires ViewBounds(programId, view, size).Ok?
    ensures view == Some(r) && |r| == size + 1
  {
    view.value
  }

  lemma BatchFits(n: nat, v: nat)
    requires v < ViewCount(n)
    ensures v * PER_VIEW % PER_VIEW == 0 && v * PER_VIEW / PER_VIEW == v && v * PER_VIEW + BatchSize(n, v) <= n
    ensures v * PER_VIEW + BatchSize(n, v) == if (v + 1) * PER_VIEW < n then (v + 1) * PER_VIEW else n
  {
  }

  lemma OffsetInView(from: nat, offset: nat)
    requires from % PER_VIEW == 0 && offset < PER_VIEW
    ensures (from + offset) / PER_VIEW == from / PER_VIEW && (from + offset) % PER_VIEW == offset
  {
  }

  /** One more epoch judged: it joins the list of its judged, and no other. */
  lemma CollectedNext(s: Scan, k: nat, judged: Class, before: Lag, after: Lag)
    requires k < s.Size() && s.Seen(k + 1) && s.Seen(k) && Collected(s, k, before)
    requires s.ClassOf(k) == judged != Missing
    requires after.beforeLogStart == before.beforeLogStart + (if judged == BeforeLogStart then [s.first + k] else [])
    requires after.notYetPublished == before.notYetPublished + (if judged == NotYetPublished then [s.first + k] else [])
    requires after.refused == before.refused + (if judged.RefusedAs? then [(s.first + k, judged.reason)] else [])
    ensures Collected(s, k + 1, after)
  {
    hide Classify, ViewBounds;
  }

  /** Each epoch of a batch is judged by the configuration that came back with it. */
  lemma JudgedInItsView(s: Scan, from: nat, offset: nat, view: View, bounds: Bounds)
    requires from % PER_VIEW == 0 && offset < PER_VIEW && from + offset < s.Size() && offset + 1 < |view|
    requires s.replies(from / PER_VIEW) == Some(view) && s.BoundsOf(from / PER_VIEW) == Ok(bounds)
    ensures s.BoundsOf((from + offset) / PER_VIEW).Ok?
    ensures s.ClassOf(from + offset) == Classify(s.programId, bounds, view[offset + 1], s.first + (from + offset))
  {
    hide ViewBounds, Classify;
    OffsetInView(from, offset);
  }

  lemma SeenNext(s: Scan, k: nat)
    requires s.Seen(k) && s.BoundsOf(k / PER_VIEW).Ok?
    ensures s.Seen(k + 1)
  {
    hide Scan.BoundsOf;
  }

  /** One batch: each epoch against the configuration that came back with it. */
  method JudgeBatch(
      ghost s: Scan, programId: Pubkey, first: u64, view: View, bounds: Bounds, size: nat, from: nat, before: Lag)
    returns (lag: Lag, k: nat, gap: bool)
    requires s.programId == programId && s.first == first
    requires from + size <= s.Size() && size <= PER_VIEW && from % PER_VIEW == 0
    requires s.Seen(from) && Collected(s, from, before)
    requires s.replies(from / PER_VIEW) == Some(view) && |view| == size + 1
    requires s.BoundsOf(from / PER_VIEW) == Ok(bounds)
    ensures from <= k <= from + size && s.Seen(k) && Collected(s, k, lag)
    ensures lag.startEpoch == before.startEpoch && lag.lastPublished == before.lastPublished
    ensures !gap ==> k == from + size
    ensures gap ==> k < from + size && s.BoundsOf(k / PER_VIEW).Ok? && s.ClassOf(k) == Missing
  {
    hide DecodeCheckpoint, ViewBounds, Collected, Scan.ClassOf, Scan.BoundsOf, Scan.Seen;
    lag := before;
    for offset := 0 to size
      invariant lag.startEpoch == before.startEpoch && lag.lastPublished == before.lastPublished
      invariant s.Seen(from + offset) && Collected(s, from + offset, lag)
    {
      JudgedInItsView(s, from, offset, view, bounds);
      SeenNext(s, from + offset);
      var epoch := first + (from + offset);
      ghost var judged := s.ClassOf(from + offset);
      ghost var was := lag;
      if epoch < bounds.start {
        lag := lag.(beforeLogStart := lag.beforeLogStart + [epoch]);
      } else if epoch > bounds.last {
        lag := lag.(notYetPublished := lag.notYetPublished + [epoch]);
      } else if view[offset + 1].None? {
        return lag, from + offset, true;
      } else {
        var decoded := DecodeCheckpoint(programId, view[offset + 1].value, epoch);
        if decoded.Err? { lag := lag.(refused := lag.refused + [(epoch, decoded.error)]); }
      }
      CollectedNext(s, from + offset, judged, was, lag);
    }
    return lag, from + size, false;
  }

  // What the lists say

  /** An epoch is listed exactly when its own classification says so, and the lists ascend. */
  lemma {:induction false} SelectIsPointwise(s: Scan, c: Class, k: nat)
    requires k <= s.Size() && s.Seen(k)
    ensures forall e :: e in s.Select(c, k) <==> s.first <= e < s.first + k && s.ClassOf(e - s.first) == c
    ensures forall i, j :: 0 <= i < j < |s.Select(c, k)| ==> s.Select(c, k)[i] < s.Select(c, k)[j]
  {
    hide Classify;
    if k > 0 {
      SelectIsPointwise(s, c, k - 1);
      var shorter := s.Select(c, k - 1);
      assert forall i :: 0 <= i < |shorter| ==> shorter[i] in shorter;
    }
  }

  lemma {:induction false} SelectRefusedIsPointwise(s: Scan, k: nat, e: u64, reason: Refused)
    requires k <= s.Size() && s.Seen(k)
    ensures (e, reason) in s.SelectRefused(k) <==> s.first <= e < s.first + k && s.ClassOf(e - s.first) == RefusedAs(reason)
  {
    hide Classify;
    if k > 0 { SelectRefusedIsPointwise(s, k - 1, e, reason); }
  }

  lemma {:induction false} RefusedAscend(s: Scan, k: nat)
    requires k <= s.Size() && s.Seen(k)
    ensures forall i :: 0 <= i < |s.SelectRefused(k)| ==> s.SelectRefused(k)[i].0 < s.first + k
    ensures forall i, j :: 0 <= i < j < |s.SelectRefused(k)| ==> s.SelectRefused(k)[i].0 < s.SelectRefused(k)[j].0
  {
    hide Classify;
    if k > 0 { RefusedAscend(s, k - 1); }
  }

  /** The three lists and the placed epochs are the whole range, each epoch in one of them. */
  lemma {:induction false} ListsPartition(s: Scan, k: nat)
    requires k <= s.Size() && s.Seen(k) && s.NoneMissing(k)
    ensures |s.Select(BeforeLogStart, k)| + |s.Select(NotYetPublished, k)| + |s.SelectRefused(k)|
      + |s.Select(Placed, k)| == k
  {
    hide Classify;
    if k > 0 { ListsPartition(s, k - 1); }
  }

  lemma {:induction false} NothingListed(s: Scan, k: nat)
    requires k <= s.Size() && s.Seen(k) && s.NoneMissing(k)
    ensures s.Select(BeforeLogStart, k) == [] && s.Select(NotYetPublished, k) == [] && s.SelectRefused(k) == []
      <==> forall i :: 0 <= i < k ==> s.ClassOf(i) == Placed
  {
    hide Classify;
    if k > 0 { NothingListed(s, k - 1); }
  }

  /** Nothing to report exactly when every epoch asked about is placed in its own view. */
  lemma EmptyMeansAllPlaced(s: Scan, lag: Lag)
    requires Readable(s) && Answers(s, lag)
    ensures s.Seen(s.Size()) && (lag.IsEmpty() <==> forall k :: 0 <= k < s.Size() ==> s.ClassOf(k) == Placed)
  {
    hide Classify;
    CountCovers(s.Size());
    UsableIsSeen(s, ViewCount(s.Size()), s.Size());
    NothingListed(s, s.Size());
  }

  // How far behind

  function Highest(epochs: seq<u64>): Option<u64> {
    if epochs == [] then None
    else
      match Highest(epochs[1..])
      case None => Some(epochs[0])
      case Some(h) => Some(if h > epochs[0] then h else epochs[0])
  }

  function EpochsBehind(lag: Lag): u64 {
    match Highest(lag.notYetPublished)
    case None => 0
    case Some(highest) => SaturatingSubU(highest, lag.lastPublished)
  }

  lemma {:induction false} HighestIsMaximum(epochs: seq<u64>)
    ensures epochs != [] ==> Highest(epochs).Some? && Highest(epochs).value in epochs
    ensures forall e :: e in epochs ==> Highest(epochs).Some? && e <= Highest(epochs).value
  {
    if epochs != [] {
      HighestIsMaximum(epochs[1..]);
      assert epochs == [epochs[0]] + epochs[1..];
    }
  }

  /**
   When the configuration did not move, the sequence is behind by the plain difference to the last
   epoch asked about, if that is past the published range and not before the log's start.
   */
  lemma BehindIsPlainDifference(s: Scan, lag: Lag)
    requires Readable(s) && Answers(s, lag) && !lag.configurationMoved
    ensures EpochsBehind(lag) ==
      if s.first <= s.last && s.last > lag.lastPublished && s.last >= lag.startEpoch then s.last - lag.lastPublished else 0
  {
    var n := s.Size();
    CountCovers(n);
    UsableIsSeen(s, ViewCount(n), n);
    SelectIsPointwise(s, NotYetPublished, n);
    HighestIsMaximum(lag.notYetPublished);
    forall k | 0 <= k < n
      ensures s.ClassOf(k) == NotYetPublished <==> s.first + k >= lag.startEpoch && s.first + k > lag.lastPublished
    {
      InViews(n, k);
      assert s.BoundsOf(k / PER_VIEW) == s.BoundsOf(0) == s.BoundsOf(ViewCount(n) - 1);
    }
    if n > 0 && s.last > lag.lastPublished && s.last >= lag.startEpoch {
      assert s.last in s.Select(NotYetPublished, n);
    }
  }

  // What the answer says of bounds and accounts

  /** A published checkpoint of this epoch: the program's own account, whole, of the right kind and schema. */
  predicate IsCheckpoint(programId: Pubkey, a: Account, epoch: u64) {
    a.owner == programId && a.length >= CHECKPOINT_LEN && a.discriminator == CHECKPOINT_DISCRIMINATOR
    && a.asCheckpoint.Some? && a.asCheckpoint.value == CheckpointBody(SCHEMA_VERSION, epoch)
  }

  predicate IsConfig(programId: Pubkey, a: Account, bounds: Bounds) {
    a.owner == programId && a.length >= CONFIG_LEN && a.discriminator == CONFIG_DISCRIMINATOR
    && a.asConfig.Some? && a.asConfig.value == ConfigBody(SCHEMA_VERSION, bounds.start, bounds.last)
  }

  lemma CheckpointsAre(programId: Pubkey, a: Account, epoch: u64)
    ensures DecodeCheckpoint(programId, a, epoch) == Ok(epoch) <==> IsCheckpoint(programId, a, epoch)
    ensures !IsCheckpoint(programId, a, epoch) ==>
      DecodeCheckpoint(programId, a, epoch) == Err(
        if a.owner != programId then NotTheProgram
        else if a.length < CHECKPOINT_LEN then TooShort
        else if a.discriminator != CHECKPOINT_DISCRIMINATOR then WrongDiscriminator
        else if a.asCheckpoint.None? then Malformed
        else if a.asCheckpoint.value.schemaVersion != SCHEMA_VERSION then UnsupportedSchema else WrongEpoch)
  {
  }

  lemma ConfigsAre(programId: Pubkey, a: Account, bounds: Bounds)
    ensures DecodeConfig(programId, a) == Ok(bounds) <==> IsConfig(programId, a, bounds)
    ensures DecodeConfig(programId, a).Err? ==>
      DecodeConfig(programId, a).error ==
        if a.owner != programId then NotTheProgram
        else if a.length < CONFIG_LEN then TooShort
        else if a.discriminator != CONFIG_DISCRIMINATOR then WrongDiscriminator
        else if a.asConfig.None? then Malformed else UnsupportedSchema
  {
  }

  /** A view is usable exactly when it answers every address asked about and its first is the configuration. */
  lemma ViewsAre(programId: Pubkey, view: Option<View>, size: nat, bounds: Bounds)
    ensures ViewBounds(programId, view, size) == Ok(bounds) <==>
      view.Some? && |view.value| == size + 1 && view.value[0].Some? && IsConfig(programId, view.value[0].value, bounds)
    ensures ViewBounds(programId, view, size).Err? ==>
      ViewBounds(programId, view, size).error ==
        if view.None? then NotAsked
        else if |view.value| != size + 1 then WrongCount
        else if view.value[0].None? then NoConfiguration
        else ConfigurationRefused(DecodeConfig(programId, view.value[0].value).error)
  {
    hide DecodeConfig;
    if view.Some? && |view.value| == size + 1 && view.value[0].Some? { ConfigsAre(programId, view.value[0].value, bounds); }
  }

  /** A request carries the configuration and at most 99 epochs; there are no more requests than that takes. */
  lemma RequestsAre(first: u64, last: u64, v: nat)
    ensures RangeSize(first, last) == if first <= last then last - first + 1 else 0
    ensures var n := RangeSize(first, last);
      1 <= ViewCount(n) && n <= 99 * ViewCount(n) && (ViewCount(n) > 1 ==> 99 * (ViewCount(n) - 1) < n)
    ensures var n := RangeSize(first, last);
      v < ViewCount(n) ==> BatchSize(n, v) == if n - 99 * v < 99 then n - 99 * v else 99
  {
  }

  /** An epoch asked about, in the view that carries it. */
  datatype Asked = Asked(epoch: u64, bounds: Bounds, entry: Option<Account>) {
    predicate InRange() {
      bounds.start <= epoch <= bounds.last
    }
  }

  function AskedAt(s: Scan, k: nat): Asked
    requires k < s.Size() && s.BoundsOf(k / 99).Ok?
  {
    EntryExists(s.Size(), k);
    Asked(s.first + k, s.BoundsOf(k / 99).value, s.replies(k / 99).value[k % 99 + 1])
  }

  /** The class of an epoch, by the bounds of its view and its account there. */
  lemma ClassesAre(s: Scan, k: nat)
    requires k < s.Size() && s.BoundsOf(k / 99).Ok?
    ensures var a, c := AskedAt(s, k), s.ClassOf(k);
      && (c == BeforeLogStart <==> a.epoch < a.bounds.start)
      && (c == NotYetPublished <==> a.bounds.start <= a.epoch && a.bounds.last < a.epoch)
      && (c == Missing <==> a.InRange() && a.entry.None?)
      && (c == Placed <==> a.InRange() && a.entry.Some? && IsCheckpoint(s.programId, a.entry.value, a.epoch))
      && (forall reason :: c == RefusedAs(reason) <==>
            a.InRange() && a.entry.Some? && DecodeCheckpoint(s.programId, a.entry.value, a.epoch) == Err(reason))
  {
    hide DecodeCheckpoint, IsCheckpoint, ViewBounds;
    var a := AskedAt(s, k);
    if a.entry.Some? {
      CheckpointsAre(s.programId, a.entry.value, a.epoch);
      DecodesAsAsked(s.programId, a.entry.value, a.epoch);
    }
  }

  lemma DecodesAsAsked(programId: Pubkey, a: Account, epoch: u64)
    ensures DecodeCheckpoint(programId, a, epoch).Ok? ==> DecodeCheckpoint(programId, a, epoch) == Ok(epoch)
  {
  }

  /**
   What an answer says of each epoch asked about: it is before the log exactly when it precedes its own
   view's start, not yet published exactly when it is past that view's last, refused exactly when its
   account there is no checkpoint of it, and in no list exactly when it is.
   */
  lemma AnswerExactly(s: Scan, lag: Lag, k: nat)
    requires Readable(s) && Answers(s, lag) && k < s.Size()
    ensures s.BoundsOf(k / 99).Ok?
    ensures var a := AskedAt(s, k);
      && (a.epoch in lag.beforeLogStart <==> a.epoch < a.bounds.start)
      && (a.epoch in lag.notYetPublished <==> a.bounds.start <= a.epoch && a.bounds.last < a.epoch)
      && (forall reason :: (a.epoch, reason) in lag.refused <==>
            a.InRange() && a.entry.Some? && DecodeCheckpoint(s.programId, a.entry.value, a.epoch) == Err(reason))
      && (a.epoch !in lag.beforeLogStart && a.epoch !in lag.notYetPublished && (forall reason :: (a.epoch, reason) !in lag.refused)
          <==> a.InRange() && a.entry.Some? && IsCheckpoint(s.programId, a.entry.value, a.epoch))
  {
    hide Classify, ViewBounds, DecodeCheckpoint, IsCheckpoint;
    var n := s.Size();
    CountCovers(n);
    UsableIsSeen(s, ViewCount(n), n);
    ClassesAre(s, k);
    SelectIsPointwise(s, BeforeLogStart, n);
    SelectIsPointwise(s, NotYetPublished, n);
    var a := AskedAt(s, k);
    forall reason
      ensures (a.epoch, reason) in lag.refused <==> s.ClassOf(k) == RefusedAs(reason)
      ensures (a.epoch, reason) in lag.refused <==>
        a.InRange() && a.entry.Some? && DecodeCheckpoint(s.programId, a.entry.value, a.epoch) == Err(reason)
    {
      SelectRefusedIsPointwise(s, n, a.epoch, reason);
    }
    if s.ClassOf(k).RefusedAs? { assert (a.epoch, s.ClassOf(k).reason) in lag.refused; }
  }

  /** Nothing but epochs asked about is listed. */
  lemma OnlyAsked(s: Scan, lag: Lag, e: u64, reason: Refused)
    requires Readable(s) && Answers(s, lag)
    requires e in lag.beforeLogStart || e in lag.notYetPublished || (e, reason) in lag.refused
    ensures s.first <= e <= s.last
  {
    hide Classify, ViewBounds;
    var n := s.Size();
    CountCovers(n);
    UsableIsSeen(s, ViewCount(n), n);
    SelectIsPointwise(s, BeforeLogStart, n);
    SelectIsPointwise(s, NotYetPublished, n);
    SelectRefusedIsPointwise(s, n, e, reason);
  }

  /** In its own view's published range and without an account there. */
  predicate Absent(s: Scan, k: nat)
    requires k < s.Size() && s.BoundsOf(k / 99).Ok?
  {
    AskedAt(s, k).InRange() && AskedAt(s, k).entry.None?
  }

  /** The scan stops at an epoch exactly when it is the first without an account, every view up to its own usable. */
  lemma StopsAtTheFirstGap(s: Scan, k: nat)
    requires k < s.Size()
    ensures FailsAtEpoch(s, k, Gap(s.first + k)) <==>
      forall i :: 0 <= i <= k ==> s.BoundsOf(i / 99).Ok? && (Absent(s, i) <==> i == k)
    ensures forall e :: FailsAtEpoch(s, k, e) ==> e == Gap(s.first + k)
  {
    hide Classify, ViewBounds, Absent;
    forall i | 0 <= i <= k && s.BoundsOf(i / 99).Ok? ensures s.ClassOf(i) == Missing <==> Absent(s, i) { MissingIsAbsent(s, i); }
  }

  /** And at a view exactly when it is the first not usable, every epoch in range before it with its account. */
  lemma StopsAtTheFirstBadView(s: Scan, v: nat, e: Unreachable)
    requires v < ViewCount(s.Size())
    ensures FailsAtView(s, v, e) <==>
      s.BoundsOf(v) == Err(e) && (forall u :: 0 <= u < v ==> s.BoundsOf(u).Ok?)
      && forall k :: 0 <= k < 99 * v && k < s.Size() ==> s.BoundsOf(k / 99).Ok? && !Absent(s, k)
  {
    hide Classify, ViewBounds, Absent;
    CountCovers(s.Size());
    if s.ViewsUsable(v) {
      UsableIsSeen(s, v, v * PER_VIEW);
      forall k | 0 <= k < 99 * v ensures s.BoundsOf(k / 99).Ok? && (s.ClassOf(k) == Missing <==> Absent(s, k)) {
        assert s.BoundsOf(k / PER_VIEW).Ok?;
        MissingIsAbsent(s, k);
      }
    }
  }

  lemma MissingIsAbsent(s: Scan, k: nat)
    requires k < s.Size() && s.BoundsOf(k / 99).Ok?
    ensures s.ClassOf(k) == Missing <==> Absent(s, k)
  {
    hide Classify, ViewBounds;
    ClassesAre(s, k);
  }

  /** And it answers exactly when every view is usable and no epoch of its own view is without its account. */
  lemma ReadableExactly(s: Scan)
    ensures Readable(s) <==>
      s.ViewsUsable(ViewCount(s.Size()))
      && forall k :: 0 <= k < s.Size() ==> s.BoundsOf(k / 99).Ok? && !Absent(s, k)
  {
    hide Classify, ViewBounds, Absent;
    var n := s.Size();
    CountCovers(n);
    if s.ViewsUsable(ViewCount(n)) {
      UsableIsSeen(s, ViewCount(n), n);
      forall k | 0 <= k < n ensures s.BoundsOf(k / 99).Ok? && (s.ClassOf(k) == Missing <==> Absent(s, k)) {
        assert s.BoundsOf(k / PER_VIEW).Ok?;
        MissingIsAbsent(s, k);
      }
    }
  }

  /** Nothing is reported exactly when every epoch asked about has its checkpoint in its own view. */
  lemma NothingToReport(s: Scan, lag: Lag)
    requires Readable(s) && Answers(s, lag)
    ensures lag.beforeLogStart == [] && lag.notYetPublished == [] && lag.refused == [] <==> lag.IsEmpty()
    ensures lag.IsEmpty() <==>
      forall k :: 0 <= k < s.Size() ==>
        s.BoundsOf(k / 99).Ok? && AskedAt(s, k).InRange() && AskedAt(s, k).entry.Some?
        && IsCheckpoint(s.programId, AskedAt(s, k).entry.value, AskedAt(s, k).epoch)
  {
    hide Classify, ViewBounds, IsCheckpoint, Answers;
    EmptyMeansAllPlaced(s, lag);
    forall k | 0 <= k < s.Size() && s.BoundsOf(k / 99).Ok?
      ensures s.ClassOf(k) == Placed <==>
        AskedAt(s, k).InRange() && AskedAt(s, k).entry.Some?
        && IsCheckpoint(s.programId, AskedAt(s, k).entry.value, AskedAt(s, k).epoch)
    {
      ClassesAre(s, k);
    }
    assert forall k :: 0 <= k < s.Size() ==> s.BoundsOf(k / PER_VIEW).Ok?;
  }

  /** How far behind: the highest epoch not yet published past the last that is, moved or not. */
  lemma BehindIsMaximum(lag: Lag)
    ensures lag.notYetPublished == [] ==> EpochsBehind(lag) == 0
    ensures forall e :: e in lag.notYetPublished ==> EpochsBehind(lag) >= e - lag.lastPublished
    ensures lag.notYetPublished != [] ==>
      exists e :: e in lag.notYetPublished && EpochsBehind(lag) == if e < lag.lastPublished then 0 else e - lag.lastPublished
  {
    HighestIsMaximum(lag.notYetPublished);
  }
}

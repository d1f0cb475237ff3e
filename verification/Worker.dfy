/**
 What the anchoring worker does next (worker.rs), decided from one observation, and how its calendar
 agrees with the gate the batcher writes handoffs through (handoff.rs).
 */
module Worker {
  import opened Wrappers
  import opened Arith
  import opened Bytes
  import opened Schedule
  import Handoff

  datatype Observed = Observed(
    now: i64, startEpoch: u64, lastEpoch: u64,
    awaitingAttach: Option<u64>, lastSubmitted: Option<u64>, oldestSingle: Option<u64>)
  {
    function Today(): Option<u64> {
      DayIndex(now)
    }

    /** The newest epoch whose day has ended. */
    function NewestPublishable(): Option<u64> {
      var today := Today();
      if today.None? || today.value == 0 then None else Some(today.value - 1)
    }
  }

  datatype Refusal =
    | LogAheadOfCalendar(lastEpoch: u64, newestPublishable: u64)
    | UndatableClock(now: i64)
    | LastBeforeStart(lastEpoch: u64, startEpoch: u64)
    | EpochSlipExceeded(lastEpoch: u64, newestPublishable: u64, maxEpochSlip: u64)
    | AwaitingAttachOutsideLog(awaitingAttach: u64, startEpoch: u64, lastEpoch: u64)
    | SubmissionAheadOfLog(lastSubmitted: u64, lastEpoch: u64)
    | AttachmentAheadOfSubmission(awaitingAttach: u64, submittedThrough: Option<u64>)
    | Unschedulable(epoch: u64)

  datatype Step =
    | Publish(epoch: u64)
    | Submit(epoch: u64)
    | Attach(epoch: u64)
    | Wait(until: i64)
    | Refuse(refusal: Refusal)

  /** The receipt fields contradict the log, or each other. */
  function Inconsistency(o: Observed): Option<Refusal> {
    var submitted := o.lastSubmitted;
    var awaiting := o.awaitingAttach;
    if awaiting.Some? && (awaiting.value < o.startEpoch || awaiting.value > o.lastEpoch) then
      Some(AwaitingAttachOutsideLog(awaiting.value, o.startEpoch, o.lastEpoch))
    else if awaiting.Some? && (submitted.None? || awaiting.value > submitted.value) then
      Some(AttachmentAheadOfSubmission(awaiting.value, submitted))
    else if submitted.Some? && submitted.value > o.lastEpoch then
      Some(SubmissionAheadOfLog(submitted.value, o.lastEpoch))
    else None
  }

  /** The highest epoch known to have been submitted, or the one before the log when none is. */
  function SubmittedThrough(o: Observed): u64 {
    o.lastSubmitted.GetOr(SaturatingSubU(o.startEpoch, 1))
  }

  function NextStep(s: Schedule, o: Observed, maxEpochSlip: u64): Step {
    var today, newest := o.Today(), o.NewestPublishable();
    if today.None? || newest.None? then Refuse(UndatableClock(o.now))
    else if SaturatingAddU(o.lastEpoch, 1) < o.startEpoch then Refuse(LastBeforeStart(o.lastEpoch, o.startEpoch))
    else if o.lastEpoch > newest.value then Refuse(LogAheadOfCalendar(o.lastEpoch, newest.value))
    else if Inconsistency(o).Some? then Refuse(Inconsistency(o).value)
    else if o.awaitingAttach.Some? then Attach(o.awaitingAttach.value)
    else if SubmittedThrough(o) < o.lastEpoch then Submit(o.lastEpoch)
    else if o.lastEpoch == U64_MAX then Refuse(LogAheadOfCalendar(o.lastEpoch, newest.value))
    else
      var candidate := o.lastEpoch + 1;
      if today.value > LastPublishableDay(maxEpochSlip, candidate) then
        Refuse(EpochSlipExceeded(o.lastEpoch, newest.value, maxEpochSlip))
      else
        var at := PublicationTime(s, candidate);
        if at.None? then Refuse(Unschedulable(candidate))
        else if o.now < at.value then Wait(at.value)
        else Publish(candidate)
  }

  /** Nothing about receipts is outstanding and the log can still grow. */
  predicate Settled(o: Observed) {
    Inconsistency(o).None? && o.awaitingAttach.None? && SubmittedThrough(o) >= o.lastEpoch
    && o.lastEpoch + 1 >= o.startEpoch && o.lastEpoch < U64_MAX
  }

  /**
   An epoch is published only as the successor of the last, with nothing outstanding, never before its
   publication time nor its day, and never after its last publishable day; and then it always is.
   */
  lemma PublishesExactly(s: Schedule, o: Observed, maxEpochSlip: u64, epoch: u64)
    ensures NextStep(s, o, maxEpochSlip) == Publish(epoch) <==>
      Settled(o) && epoch == o.lastEpoch + 1
      && o.Today().Some? && epoch <= o.Today().value <= LastPublishableDay(maxEpochSlip, epoch)
      && PublicationTime(s, epoch).Some? && PublicationTime(s, epoch).value <= o.now
  {
  }

  // The batcher and the worker

  /** A fresh handoff for an epoch is accepted at this time. */
  predicate Writable(s: Schedule, maxEpochSlip: u64, epoch: u64, now: i64, bytes: Bytes) {
    Handoff.RefuseToWrite(s, maxEpochSlip, epoch, now, None, bytes).Ok?
  }

  /**
   Whatever the worker publishes, the batcher could have written at that very moment, exactly when the
   epoch's build has started by then; with a schedule of non-negative distances it always has.
   */
  lemma PublishedIsWritable(s: Schedule, o: Observed, maxEpochSlip: u64, epoch: u64, bytes: Bytes)
    requires NextStep(s, o, maxEpochSlip) == Publish(epoch)
    ensures Writable(s, maxEpochSlip, epoch, o.now, bytes) <==>
      BuildStart(s, epoch).Some? && BuildStart(s, epoch).value <= o.now
    ensures s.publishOffset >= 0 && s.buildLead >= 0 ==> Writable(s, maxEpochSlip, epoch, o.now, bytes)
  {
    PublishesExactly(s, o, maxEpochSlip, epoch);
    Handoff.GateOpensExactly(s, maxEpochSlip, epoch, o.now, None, bytes);
  }

  /** The same observation made at another time. */
  function At(o: Observed, now: i64): Observed {
    o.(now := now)
  }

  /**
   After a handoff for the next epoch was accepted, a settled worker waits for its publication time,
   publishes it, or finds its last publishable day gone: it never refuses it for any other reason.
   */
  lemma AcceptedIsAwaited(s: Schedule, o: Observed, maxEpochSlip: u64, written: i64, bytes: Bytes)
    requires Settled(o) && written <= o.now
    requires Writable(s, maxEpochSlip, o.lastEpoch + 1, written, bytes)
    ensures var epoch, step := o.lastEpoch + 1, NextStep(s, o, maxEpochSlip);
      && PublicationTime(s, epoch).Some? && o.Today().Some?
      && (step.Refuse? <==> o.Today().value > LastPublishableDay(maxEpochSlip, epoch))
      && (step.Refuse? ==> step.refusal.EpochSlipExceeded?)
      && (step.Wait? ==> step.until == PublicationTime(s, epoch).value && o.now < step.until)
      && (!step.Refuse? && !step.Wait? ==> step == Publish(epoch))
  {
    Handoff.GateOpensExactly(s, maxEpochSlip, o.lastEpoch + 1, written, None, bytes);
    DaysAscend(written, o.now);
  }

  lemma DaysAscend(a: i64, b: i64)
    requires a <= b && DayIndex(a).Some?
    ensures DayIndex(b).Some? && DayIndex(a).value <= DayIndex(b).value
  {
    var day := a / EPOCH_SECONDS;
    assert day * EPOCH_SECONDS <= b;
  }

  /** The first moment from which a handoff written now could be published. */
  function Earliest(s: Schedule, epoch: u64, written: i64): i64
    requires PublicationTime(s, epoch).Some?
  {
    var at := PublicationTime(s, epoch).value;
    if at < written then written else at
  }

  /**
   An accepted handoff can still be published at some later time exactly when the later of its writing
   and its publication time falls on or before its last publishable day.
   */
  lemma StrandedExactly(s: Schedule, o: Observed, maxEpochSlip: u64, written: i64, bytes: Bytes)
    requires Settled(o) && Writable(s, maxEpochSlip, o.lastEpoch + 1, written, bytes)
    ensures PublicationTime(s, o.lastEpoch + 1).Some?
    ensures (exists now: i64 :: written <= now && NextStep(s, At(o, now), maxEpochSlip) == Publish(o.lastEpoch + 1)) <==>
      DayIndex(Earliest(s, o.lastEpoch + 1, written)).value <= LastPublishableDay(maxEpochSlip, o.lastEpoch + 1)
  {
    hide NextStep, PublicationTime;
    var epoch := o.lastEpoch + 1;
    assert Settled(At(o, written)) && At(o, written).lastEpoch == o.lastEpoch;
    AcceptedIsAwaited(s, At(o, written), maxEpochSlip, written, bytes);
    var first := Earliest(s, epoch, written);
    DaysAscend(written, first);
    PublishesExactly(s, At(o, first), maxEpochSlip, epoch);
    Handoff.GateOpensExactly(s, maxEpochSlip, epoch, written, None, bytes);
    forall now: i64 | written <= now && NextStep(s, At(o, now), maxEpochSlip) == Publish(epoch)
      ensures DayIndex(first).value <= LastPublishableDay(maxEpochSlip, epoch)
    {
      PublishesExactly(s, At(o, now), maxEpochSlip, epoch);
      DaysAscend(first, now);
    }
  }

  /** Under the deployed schedule no accepted handoff is stranded: the worker can publish every one. */
  lemma DeployedStrandsNothing(o: Observed, maxEpochSlip: u64, written: i64, bytes: Bytes)
    requires Settled(o) && Writable(DEPLOYED, maxEpochSlip, o.lastEpoch + 1, written, bytes)
    ensures PublicationTime(DEPLOYED, o.lastEpoch + 1).Some?
    ensures var at := Earliest(DEPLOYED, o.lastEpoch + 1, written);
      NextStep(DEPLOYED, At(o, at), maxEpochSlip) == Publish(o.lastEpoch + 1)
  {
    hide NextStep;
    var epoch := o.lastEpoch + 1;
    Handoff.GateOpensExactly(DEPLOYED, maxEpochSlip, epoch, written, None, bytes);
    DeployedBuildsAfterTheDay(epoch, written);
    var at := PublicationTime(DEPLOYED, epoch).value;
    assert at == (epoch + 1) * EPOCH_SECONDS + 3600 && at / EPOCH_SECONDS == epoch + 1;
    var first := Earliest(DEPLOYED, epoch, written);
    DaysAscend(written, first);
    PublishesExactly(DEPLOYED, At(o, first), maxEpochSlip, epoch);
  }

  /** Another schedule can strand one: built on its day, but due only after the slip allowance. */
  lemma LateSchedulesStrand(bytes: Bytes)
    ensures var s, o := Schedule(3 * EPOCH_SECONDS, 3 * EPOCH_SECONDS), Observed(2 * EPOCH_SECONDS, 1, 0, None, None, None);
      && Settled(o) && Writable(s, 1, 1, o.now, bytes)
      && forall now: i64 :: o.now <= now ==> NextStep(s, At(o, now), 1) != Publish(1)
  {
    var s, o := Schedule(3 * EPOCH_SECONDS, 3 * EPOCH_SECONDS), Observed(2 * EPOCH_SECONDS, 1, 0, None, None, None);
    Handoff.GateOpensExactly(s, 1, 1, o.now, None, bytes);
    forall now: i64 | o.now <= now ensures NextStep(s, At(o, now), 1) != Publish(1) {
      PublishesExactly(s, At(o, now), 1, 1);
    }
  }

  // Every step, and when

  /** The worker's answer to any observation: what it refuses, in order, and otherwise what is outstanding first. */
  lemma StepsAre(s: Schedule, o: Observed, maxEpochSlip: u64)
    ensures NextStep(s, o, maxEpochSlip) ==
      if o.now < 86400 then Refuse(UndatableClock(o.now))
      else
        var newest := o.now / 86400 - 1;
        if o.lastEpoch + 1 < o.startEpoch then Refuse(LastBeforeStart(o.lastEpoch, o.startEpoch))
        else if o.lastEpoch > newest then Refuse(LogAheadOfCalendar(o.lastEpoch, newest))
        else if o.awaitingAttach.Some? && !(o.startEpoch <= o.awaitingAttach.value <= o.lastEpoch) then
          Refuse(AwaitingAttachOutsideLog(o.awaitingAttach.value, o.startEpoch, o.lastEpoch))
        else if o.awaitingAttach.Some? && (o.lastSubmitted.None? || o.lastSubmitted.value < o.awaitingAttach.value) then
          Refuse(AttachmentAheadOfSubmission(o.awaitingAttach.value, o.lastSubmitted))
        else if o.lastSubmitted.Some? && o.lastEpoch < o.lastSubmitted.value then
          Refuse(SubmissionAheadOfLog(o.lastSubmitted.value, o.lastEpoch))
        else if o.awaitingAttach.Some? then Attach(o.awaitingAttach.value)
        else if o.lastSubmitted.Some? && o.lastSubmitted.value < o.lastEpoch then Submit(o.lastEpoch)
        else if o.lastSubmitted.None? && 0 < o.lastEpoch && o.startEpoch <= o.lastEpoch then Submit(o.lastEpoch)
        else if o.now / 86400 > o.lastEpoch + 1 + maxEpochSlip then
          Refuse(EpochSlipExceeded(o.lastEpoch, newest, maxEpochSlip))
        else
          match PublicationTime(s, o.lastEpoch + 1)
          case None => Refuse(Unschedulable(o.lastEpoch + 1))
          case Some(at) => if o.now < at then Wait(at) else Publish(o.lastEpoch + 1)
  {
    hide PublicationTime;
    assert o.now >= 86400 <==> o.now / 86400 >= 1;
    if o.now >= 0 { assert 0 <= o.now / 86400 <= o.now; }
  }
}

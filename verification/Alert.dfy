/** The conditions worth telling an operator about (alert.rs), and that none of them hides. */
module Alert {
  import opened Wrappers
  import opened Schedule
  import opened Worker
  import opened Observe

  type u32 = x: int | 0 <= x <= 0xffff_ffff

  datatype Thresholds = Thresholds(
    heartbeatGrace: i64, publicationGrace: i64, sequenceLag: u64, receiptBudget: i64, consecutiveRefusals: u32)

  datatype Supervision = Supervision(lastHeartbeat: i64, consecutiveRefusals: u32, lastRefusal: Option<Refusal>)

  /** What the worker can honestly say of itself: it is running, and has refused nothing. */
  function FromWorker(now: i64): Supervision {
    Supervision(now, 0, None)
  }

  datatype Alert =
    | ProcessSilent(since: i64, grace: i64)
    | PublicationMissed(epoch: u64, due: i64, now: i64)
    | SequenceLag(lastEpoch: u64, newestPublishable: u64, limit: u64)
    | ReceiptUnconfirmed(epoch: u64, waiting: i64, budget: i64)
    | RepeatedRefusal(refusal: Refusal, consecutive: u32)

  /** The order an operator should read them in. */
  function Rank(a: Alert): nat {
    match a
    case ProcessSilent(_, _) => 0
    case PublicationMissed(_, _, _) => 1
    case SequenceLag(_, _, _) => 2
    case ReceiptUnconfirmed(_, _, _) => 3
    case RepeatedRefusal(_, _) => 4
  }

  /** When each condition holds, by itself. */
  predicate Holds(s: Schedule, o: Observed, sup: Supervision, th: Thresholds, a: Alert) {
    var newest := o.NewestPublishable();
    match a
    case ProcessSilent(since, grace) =>
      since == sup.lastHeartbeat && grace == th.heartbeatGrace && SaturatingSub(o.now, since) > grace
    case PublicationMissed(epoch, due, now) =>
      newest.Some? && epoch == SaturatingAddU(o.lastEpoch, 1) && epoch <= newest.value
      && PublicationTime(s, epoch) == Some(due) && now == o.now && SaturatingSub(now, due) > th.publicationGrace
    case SequenceLag(lastEpoch, newestPublishable, limit) =>
      newest == Some(newestPublishable) && lastEpoch == o.lastEpoch && limit == th.sequenceLag
      && SaturatingSubU(newestPublishable, lastEpoch) > limit
    case ReceiptUnconfirmed(epoch, waiting, budget) =>
      newest.Some? && o.oldestSingle == Some(epoch) && PublicationTime(s, epoch).Some?
      && waiting == SaturatingSub(o.now, PublicationTime(s, epoch).value) && budget == th.receiptBudget && waiting > budget
    case RepeatedRefusal(refusal, consecutive) =>
      newest.Some? && sup.lastRefusal == Some(refusal) && consecutive == sup.consecutiveRefusals >= th.consecutiveRefusals
  }

  /** In reading order, no kind twice. */
  predicate InOrder(alerts: seq<Alert>) {
    forall i, j :: 0 <= i < j < |alerts| ==> Rank(alerts[i]) < Rank(alerts[j])
  }

  /** The alerts so far are those of the ranks so far. */
  ghost predicate UpTo(s: Schedule, o: Observed, sup: Supervision, th: Thresholds, alerts: seq<Alert>, rank: nat) {
    InOrder(alerts) && forall a: Alert :: a in alerts <==> Holds(s, o, sup, th, a) && Rank(a) < rank
  }

  /** One more rank considered: its one alert is pushed, or it does not hold and nothing is. */
  lemma Considered(
      s: Schedule, o: Observed, sup: Supervision, th: Thresholds, before: seq<Alert>, rank: nat, pushed: Option<Alert>, after: seq<Alert>)
    requires UpTo(s, o, sup, th, before, rank)
    requires forall a: Alert :: Holds(s, o, sup, th, a) && Rank(a) == rank <==> pushed == Some(a)
    requires after == if pushed.Some? then before + [pushed.value] else before
    ensures UpTo(s, o, sup, th, after, rank + 1)
  {
    hide Holds;
    assert forall i :: 0 <= i < |before| ==> before[i] in before;
    assert pushed.Some? ==> Rank(pushed.value) == rank;
  }

  /** Every condition that holds and no other, in reading order: two problems are two alerts. */
  method Alerts(s: Schedule, o: Observed, sup: Supervision, th: Thresholds) returns (out: seq<Alert>)
    ensures InOrder(out)
    ensures forall a: Alert :: a in out <==> Holds(s, o, sup, th, a)
  {
    hide UpTo, InOrder, PublicationTime;
    out := [];
    assert UpTo(s, o, sup, th, out, 0) by { NothingYet(s, o, sup, th); }
    ghost var before, pushed := out, None;
    var silentFor := SaturatingSub(o.now, sup.lastHeartbeat);
    if silentFor > th.heartbeatGrace {
      var a := ProcessSilent(sup.lastHeartbeat, th.heartbeatGrace);
      out, pushed := out + [a], Some(a);
    }
    Considered(s, o, sup, th, before, 0, pushed, out);

    var newest := o.NewestPublishable();
    if newest.None? {
      AllConsidered(s, o, sup, th, out, 1);
      return;
    }
    before, pushed := out, None;
    var owed := SaturatingAddU(o.lastEpoch, 1);
    if owed <= newest.value {
      var due := PublicationTime(s, owed);
      if due.Some? && SaturatingSub(o.now, due.value) > th.publicationGrace {
        var a := PublicationMissed(owed, due.value, o.now);
        out, pushed := out + [a], Some(a);
      }
    }
    Considered(s, o, sup, th, before, 1, pushed, out);

    before, pushed := out, None;
    var behind := SaturatingSubU(newest.value, o.lastEpoch);
    if behind > th.sequenceLag {
      var a := SequenceLag(o.lastEpoch, newest.value, th.sequenceLag);
      out, pushed := out + [a], Some(a);
    }
    Considered(s, o, sup, th, before, 2, pushed, out);

    before, pushed := out, None;
    if o.oldestSingle.Some? {
      var published := PublicationTime(s, o.oldestSingle.value);
      if published.Some? {
        var waiting := SaturatingSub(o.now, published.value);
        if waiting > th.receiptBudget {
          var a := ReceiptUnconfirmed(o.oldestSingle.value, waiting, th.receiptBudget);
          out, pushed := out + [a], Some(a);
        }
      }
    }
    Considered(s, o, sup, th, before, 3, pushed, out);

    before, pushed := out, None;
    if sup.lastRefusal.Some? && sup.consecutiveRefusals >= th.consecutiveRefusals {
      var a := RepeatedRefusal(sup.lastRefusal.value, sup.consecutiveRefusals);
      out, pushed := out + [a], Some(a);
    }
    Considered(s, o, sup, th, before, 4, pushed, out);
    AllConsidered(s, o, sup, th, out, 5);
  }

  lemma NothingYet(s: Schedule, o: Observed, sup: Supervision, th: Thresholds)
    ensures UpTo(s, o, sup, th, [], 0)
  {
  }

  lemma AllConsidered(s: Schedule, o: Observed, sup: Supervision, th: Thresholds, out: seq<Alert>, rank: nat)
    requires UpTo(s, o, sup, th, out, rank)
    requires rank == 5 || (rank == 1 && o.NewestPublishable().None?)
    ensures InOrder(out) && forall a: Alert :: a in out <==> Holds(s, o, sup, th, a)
  {
    hide PublicationTime;
    forall a: Alert ensures a in out <==> Holds(s, o, sup, th, a) {
      assert Rank(a) < 5;
    }
  }

  // Checking the oldest single epoch is complete for all of them

  /** How long a published epoch has been waiting, when its publication can be placed. */
  function Waiting(s: Schedule, now: i64, epoch: u64): Option<i64> {
    match PublicationTime(s, epoch)
    case None => None
    case Some(at) => Some(SaturatingSub(now, at))
  }

  predicate Overdue(s: Schedule, now: i64, budget: i64, epoch: u64) {
    Waiting(s, now, epoch).Some? && Waiting(s, now, epoch).value > budget
  }

  /** Being overdue is a plain difference past the budget, but for the largest budget, which saturation never passes. */
  lemma OverdueIsPlainDifference(s: Schedule, now: i64, budget: i64, epoch: u64)
    ensures Overdue(s, now, budget, epoch) <==>
      PublicationTime(s, epoch).Some? && now - PublicationTime(s, epoch).value > budget && budget < I64_MAX
  {
  }

  /** A wait past the largest budget exists, and is not reported. */
  lemma LargestBudgetIsNeverPassed()
    ensures var s, now, epoch := Schedule(I64_MIN, 0), I64_MAX, 0;
      PublicationTime(s, epoch).Some? && now - PublicationTime(s, epoch).value > I64_MAX && !Overdue(s, now, I64_MAX, epoch)
  {
  }

  /** An earlier epoch has waited at least as long as a later one. */
  lemma EarlierWaitsLonger(s: Schedule, now: i64, a: u64, b: u64)
    requires a <= b && Waiting(s, now, b).Some?
    ensures Waiting(s, now, a).Some? && Waiting(s, now, a).value >= Waiting(s, now, b).value
  {
    hide PublicationTime;
    PublicationTimesAscend(s, a, b);
  }

  /** The receipt alert names the least single epoch, which no other has out-waited. */
  lemma LeastIsNamed(
      s: Schedule, o: Observed, sup: Supervision, th: Thresholds, chain: Chain, receipt: u64 -> bool, a: Alert, e: u64)
    requires Describes(o, Singles(chain, o.startEpoch, o.lastEpoch), Submitted(receipt, o.startEpoch, o.lastEpoch))
    requires a.ReceiptUnconfirmed? && Holds(s, o, sup, th, a)
    requires o.startEpoch <= e <= o.lastEpoch && chain(e) == Some(Single)
    ensures a.epoch <= e && chain(a.epoch) == Some(Single) && Waiting(s, o.now, a.epoch) == Some(a.waiting)
    ensures Waiting(s, o.now, e).Some? ==> Waiting(s, o.now, e).value <= a.waiting
  {
    hide PublicationTime, DayIndex;
    var singles := Singles(chain, o.startEpoch, o.lastEpoch);
    assert e in singles && a.epoch in singles;
    if Waiting(s, o.now, e).Some? { EarlierWaitsLonger(s, o.now, a.epoch, e); }
  }

  /** With a datable clock, the receipt alert is raised exactly when some published epoch is single past its budget. */
  lemma OldestIsEnough(s: Schedule, o: Observed, sup: Supervision, th: Thresholds, chain: Chain, receipt: u64 -> bool)
    requires Describes(o, Singles(chain, o.startEpoch, o.lastEpoch), Submitted(receipt, o.startEpoch, o.lastEpoch))
    requires o.NewestPublishable().Some?
    ensures (exists a: Alert :: a.ReceiptUnconfirmed? && Holds(s, o, sup, th, a)) <==>
      exists e: u64 :: o.startEpoch <= e <= o.lastEpoch && chain(e) == Some(Single) && Overdue(s, o.now, th.receiptBudget, e)
  {
    hide PublicationTime, DayIndex;
    var singles := Singles(chain, o.startEpoch, o.lastEpoch);
    if a: Alert :| a.ReceiptUnconfirmed? && Holds(s, o, sup, th, a) {
      assert a.epoch in singles && Overdue(s, o.now, th.receiptBudget, a.epoch);
    }
    if e: u64 :| o.startEpoch <= e <= o.lastEpoch && chain(e) == Some(Single) && Overdue(s, o.now, th.receiptBudget, e) {
      assert e in singles;
      var oldest := o.oldestSingle.value;
      EarlierWaitsLonger(s, o.now, oldest, e);
      assert Holds(s, o, sup, th, ReceiptUnconfirmed(oldest, Waiting(s, o.now, oldest).value, th.receiptBudget));
    }
  }

  // What the worker can raise about itself

  /** With thresholds that are not negative, the worker can raise neither condition about its own process. */
  lemma WorkerCannotAccuseItself(s: Schedule, o: Observed, th: Thresholds, a: Alert)
    requires th.heartbeatGrace >= 0 && Holds(s, o, FromWorker(o.now), th, a)
    ensures a.PublicationMissed? || a.SequenceLag? || a.ReceiptUnconfirmed?
  {
  }

  /**
   A missed publication reported of a settled log is one the worker would publish now, or one it
   leaves to an operator because the slip allowance is used up; it is never one it is waiting for.
   */
  lemma MissedIsOwed(s: Schedule, o: Observed, sup: Supervision, th: Thresholds, maxEpochSlip: u64, a: Alert)
    requires a.PublicationMissed? && Holds(s, o, sup, th, a) && Settled(o) && th.publicationGrace >= 0
    ensures var step := NextStep(s, o, maxEpochSlip);
      step == Publish(a.epoch) || (step.Refuse? && step.refusal.EpochSlipExceeded?)
    ensures NextStep(s, o, maxEpochSlip) == Publish(a.epoch) <==> o.Today().value <= LastPublishableDay(maxEpochSlip, a.epoch)
  {
    hide NextStep, PublicationTime;
    PublishesExactly(s, o, maxEpochSlip, a.epoch);
    if o.Today().value > LastPublishableDay(maxEpochSlip, a.epoch) { SlipRefused(s, o, maxEpochSlip); }
  }

  lemma SlipRefused(s: Schedule, o: Observed, maxEpochSlip: u64)
    requires Settled(o) && o.NewestPublishable().Some? && o.lastEpoch <= o.NewestPublishable().value
    requires o.Today().value > LastPublishableDay(maxEpochSlip, o.lastEpoch + 1)
    ensures NextStep(s, o, maxEpochSlip) == Refuse(EpochSlipExceeded(o.lastEpoch, o.NewestPublishable().value, maxEpochSlip))
  {
  }

  // Every condition, in numbers

  /** When each alert is raised and what it says: the differences are plain, but for saturation at the largest. */
  lemma ConditionsAre(s: Schedule, o: Observed, sup: Supervision, th: Thresholds, a: Alert)
    ensures Holds(s, o, sup, th, a) <==>
      match a
      case ProcessSilent(since, grace) =>
        since == sup.lastHeartbeat && grace == th.heartbeatGrace && o.now - since > grace && grace < 0x7fff_ffff_ffff_ffff
      case PublicationMissed(epoch, due, now) =>
        o.now >= 86400 && epoch == o.lastEpoch + 1 && epoch <= o.now / 86400 - 1 && PublicationTime(s, epoch) == Some(due)
        && now == o.now && now - due > th.publicationGrace && th.publicationGrace < 0x7fff_ffff_ffff_ffff
      case SequenceLag(last, newest, limit) =>
        o.now >= 86400 && newest == o.now / 86400 - 1 && last == o.lastEpoch && limit == th.sequenceLag && newest - last > limit
      case ReceiptUnconfirmed(epoch, waiting, budget) =>
        o.now >= 86400 && o.oldestSingle == Some(epoch) && PublicationTime(s, epoch).Some?
        && waiting == SaturatingSub(o.now, PublicationTime(s, epoch).value) && budget == th.receiptBudget && waiting > budget
      case RepeatedRefusal(refusal, consecutive) =>
        o.now >= 86400 && sup.lastRefusal == Some(refusal) && consecutive == sup.consecutiveRefusals
        && consecutive >= th.consecutiveRefusals
  {
    hide PublicationTime;
    assert o.now >= 86400 <==> o.now / 86400 >= 1;
    if o.now >= 0 { assert 0 <= o.now / 86400 <= o.now; }
  }

  /** The order alerts are reported in. */
  lemma OrderIs(a: Alert)
    ensures Rank(a) ==
      if a.ProcessSilent? then 0 else if a.PublicationMissed? then 1 else if a.SequenceLag? then 2
      else if a.ReceiptUnconfirmed? then 3 else 4
  {
  }
}

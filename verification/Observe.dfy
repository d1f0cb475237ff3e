/** What the worker can see (observe.rs): one pass over the published range, epoch by epoch. */
module Observe {
  import opened Wrappers
  import opened Arith
  import opened Schedule
  import opened Worker
  import Fetch

  datatype AnchorStatus = Pending | Single | Dual

  datatype ObserveFailed = Configuration(cause: Fetch.Unreachable) | Status(epoch: u64)

  /** What the chain says of an epoch, or nothing when it could not be asked. */
  type Chain = u64 -> Option<AnchorStatus>

  /** The epochs of a range the chain reports as published without a receipt digest. */
  function Singles(chain: Chain, start: u64, last: u64): set<int> {
    set e: u64 | start <= e <= last && chain(e) == Some(Single)
  }

  /** The epochs of a range whose receipt file exists. */
  function Submitted(receipt: u64 -> bool, start: u64, last: u64): set<int> {
    set e: u64 | start <= e <= last && receipt(e)
  }

  /** The least of a set of epochs, looking only below a bound. */
  ghost predicate Least(found: Option<u64>, epochs: set<int>, bound: int) {
    match found
    case None => forall e :: e in epochs ==> e >= bound
    case Some(x) => x in epochs && x < bound && forall e :: e in epochs ==> x <= e
  }

  ghost predicate Greatest(found: Option<u64>, epochs: set<int>, bound: int) {
    match found
    case None => forall e :: e in epochs ==> e >= bound
    case Some(x) => x in epochs && x < bound && forall e :: e in epochs && e < bound ==> e <= x
  }

  /**
   An observation says what the chain and the receipts say: the least epoch that is single, whatever
   is on disk; the least that is single and has its receipt; and the greatest that has one.
   */
  ghost predicate Describes(o: Observed, singles: set<int>, submitted: set<int>) {
    Least(o.oldestSingle, singles, U64_MAX + 1) && Least(o.awaitingAttach, singles * submitted, U64_MAX + 1)
    && Greatest(o.lastSubmitted, submitted, U64_MAX + 1)
  }

  method Observe(
      programId: Fetch.Pubkey, replies: Fetch.Replies, chain: Chain, receipt: u64 -> bool, now: i64, today: u64)
    returns (r: Result<Observed, ObserveFailed>)
    ensures var s := Fetch.Scan(programId, replies, today, today);
      && (!Fetch.Readable(s) <==> r.Err? && r.error.Configuration?)
      && (!Fetch.Readable(s) ==> Fetch.FirstFailure(s, r.error.cause))
      && (Fetch.Readable(s) ==>
        var bounds := s.BoundsOf(0).value;
        && (r.Ok? <==> forall e: u64 :: bounds.start <= e <= bounds.last ==> chain(e).Some?)
        && (r.Err? ==> bounds.start <= r.error.epoch <= bounds.last && chain(r.error.epoch).None?
                       && forall e: u64 :: bounds.start <= e < r.error.epoch ==> chain(e).Some?)
        && (r.Ok? ==> r.value.now == now && r.value.startEpoch == bounds.start && r.value.lastEpoch == bounds.last
                      && Describes(r.value, Singles(chain, bounds.start, bounds.last), Submitted(receipt, bounds.start, bounds.last))))
  {
    ghost var s := Fetch.Scan(programId, replies, today, today);
    var asked := Fetch.SequenceLag(programId, replies, today, today);
    if asked.Err? { return Err(Configuration(asked.error)); }
    var lag := asked.value;
    assert lag.startEpoch == s.BoundsOf(0).value.start && lag.lastPublished == s.BoundsOf(0).value.last by { OneView(s, lag); }
    r := Pass(chain, receipt, now, lag.startEpoch, lag.lastPublished);
  }

  /** Asking about one day takes one view, so the bounds reported are that view's. */
  lemma OneView(s: Fetch.Scan, lag: Fetch.Lag)
    requires s.first == s.last && Fetch.Readable(s) && Fetch.Answers(s, lag)
    ensures s.BoundsOf(0) == Ok(Fetch.Bounds(lag.startEpoch, lag.lastPublished))
  {
  }

  method Pass(chain: Chain, receipt: u64 -> bool, now: i64, start: u64, last: u64)
    returns (r: Result<Observed, ObserveFailed>)
    ensures r.Ok? <==> forall e: u64 :: start <= e <= last ==> chain(e).Some?
    ensures r.Err? ==> r.error.Status? && start <= r.error.epoch <= last && chain(r.error.epoch).None?
    ensures r.Err? ==> forall e: u64 :: start <= e < r.error.epoch ==> chain(e).Some?
    ensures r.Ok? ==> r.value.now == now && r.value.startEpoch == start && r.value.lastEpoch == last
    ensures r.Ok? ==> Describes(r.value, Singles(chain, start, last), Submitted(receipt, start, last))
  {
    var lastSubmitted: Option<u64>, awaitingAttach: Option<u64>, oldestSingle: Option<u64> := None, None, None;
    ghost var singles, submitted := Singles(chain, start, last), Submitted(receipt, start, last);
    var epoch: u64 := start;
    while epoch <= last
      invariant start <= epoch
      invariant forall e: u64 :: start <= e < epoch && e <= last ==> chain(e).Some?
      invariant Least(oldestSingle, singles, epoch) && Least(awaitingAttach, singles * submitted, epoch)
      invariant Greatest(lastSubmitted, submitted, epoch)
      decreases last - epoch
    {
      var status := chain(epoch);
      if status.None? { return Err(Status(epoch)); }
      if status.value == Single && oldestSingle.None? { oldestSingle := Some(epoch); }
      if receipt(epoch) {
        lastSubmitted := Some(epoch);
        if awaitingAttach.None? && status.value == Single { awaitingAttach := Some(epoch); }
      }
      if epoch == U64_MAX { break; }
      epoch := epoch + 1;
    }
    return Ok(Observed(now, start, last, awaitingAttach, lastSubmitted, oldestSingle));
  }

  /** No observation contradicts itself: what it says of receipts always fits the log it read. */
  lemma ObservedIsConsistent(o: Observed, chain: Chain, receipt: u64 -> bool)
    requires Describes(o, Singles(chain, o.startEpoch, o.lastEpoch), Submitted(receipt, o.startEpoch, o.lastEpoch))
    ensures Inconsistency(o).None?
  {
    var singles, submitted := Singles(chain, o.startEpoch, o.lastEpoch), Submitted(receipt, o.startEpoch, o.lastEpoch);
    if o.awaitingAttach.Some? { assert o.awaitingAttach.value in singles * submitted; }
  }
}

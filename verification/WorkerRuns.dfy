/**
 The worker's loop (anchor-b-worker.rs) as a state machine: observe, decide, act, with any clock
 readings and with any act landing or not. Receipts, once written, stay.
 */
module WorkerRuns {
  import opened Wrappers
  import opened Arith
  import opened Schedule
  import opened Worker
  import opened Observe

  /** The log, the receipts on disk and the receipts attached; and when each epoch was published. */
  datatype World = World(start: u64, last: u64, receipts: set<int>, attached: set<int>, publishedAt: map<int, i64>) {
    function Status(e: u64): (r: AnchorStatus)
      ensures r == Pending <==> !(start <= e <= last)
    {
      if e < start || e > last then Pending else if e in attached then Dual else Single
    }

    function AsChain(): Chain {
      (e: u64) => Some(Status(e))
    }

    function HasReceipt(): u64 -> bool {
      (e: u64) => e in receipts
    }
  }

  /** A log as it is initialised: its first epoch is still to come. */
  function NewLog(start: u64): World
    requires start > 0
  {
    World(start, start - 1, {}, {}, map[])
  }

  ghost predicate Sees(w: World, o: Observed) {
    o.startEpoch == w.start && o.lastEpoch == w.last
    && Describes(o, Singles(w.AsChain(), w.start, w.last), Submitted(w.HasReceipt(), w.start, w.last))
  }

  /** What a step that lands leaves behind. A publication adds the successor and nothing else can. */
  function Perform(w: World, now: i64, step: Step): World {
    match step
    case Publish(e) => if e == w.last + 1 then w.(last := e, publishedAt := w.publishedAt[e := now]) else w
    case Submit(e) => w.(receipts := w.receipts + {e})
    case Attach(e) => w.(attached := w.attached + {e})
    case Wait(_) => w
    case Refuse(_) => w
  }

  /** One turn of the loop: what was observed, and whether the step decided on landed. */
  datatype Turn = Turn(o: Observed, landed: bool)

  function Next(s: Schedule, maxEpochSlip: u64, w: World, t: Turn): World {
    if t.landed then Perform(w, t.o.now, NextStep(s, t.o, maxEpochSlip)) else w
  }

  function After(s: Schedule, maxEpochSlip: u64, w: World, turns: seq<Turn>): World
    decreases |turns|
  {
    if turns == [] then w else After(s, maxEpochSlip, Next(s, maxEpochSlip, w, turns[0]), turns[1..])
  }

  /** Every turn of the run saw the world as it then was. */
  ghost predicate SeesAlong(s: Schedule, maxEpochSlip: u64, w: World, turns: seq<Turn>)
    decreases |turns|
  {
    turns == [] || (Sees(w, turns[0].o) && SeesAlong(s, maxEpochSlip, Next(s, maxEpochSlip, w, turns[0]), turns[1..]))
  }

  /** An epoch was published no earlier than its time, and on or before its last publishable day. */
  predicate Timely(s: Schedule, maxEpochSlip: u64, epoch: int, at: i64) {
    0 <= epoch <= U64_MAX && PublicationTime(s, epoch).Some? && PublicationTime(s, epoch).value <= at
    && DayIndex(at).Some? && epoch <= DayIndex(at).value <= LastPublishableDay(maxEpochSlip, epoch)
  }

  /**
   What every turn keeps: the published epochs are one range, each published in time, and every one of
   them but the newest has its receipt, attached.
   */
  ghost predicate Sound(s: Schedule, maxEpochSlip: u64, w: World) {
    1 <= w.start <= w.last + 1
    && (forall e :: e in w.publishedAt <==> w.start <= e <= w.last)
    && (forall e :: e in w.publishedAt ==> Timely(s, maxEpochSlip, e, w.publishedAt[e]))
    && w.attached <= w.receipts
    && (forall e :: e in w.receipts ==> w.start <= e <= w.last)
    && (forall e :: w.start <= e < w.last ==> e in w.attached)
  }

  lemma NewLogIsSound(s: Schedule, maxEpochSlip: u64, start: u64)
    requires start > 0
    ensures Sound(s, maxEpochSlip, NewLog(start))
  {
  }

  /** Nothing but the clock and the calendar can make a sound log's worker refuse. */
  predicate ByTheCalendar(r: Refusal) {
    r.UndatableClock? || r.LogAheadOfCalendar? || r.EpochSlipExceeded? || r.Unschedulable?
  }

  lemma RefusesByTheCalendar(s: Schedule, maxEpochSlip: u64, w: World, o: Observed)
    requires Sound(s, maxEpochSlip, w) && Sees(w, o)
    ensures var step := NextStep(s, o, maxEpochSlip); step.Refuse? ==> ByTheCalendar(step.refusal)
  {
    hide Timely, PublicationTime, DayIndex, Describes, Sound;
    ObservedIsConsistent(o, w.AsChain(), w.HasReceipt());
    assert w.start <= w.last + 1 by { StartIsBeforeEnd(s, maxEpochSlip, w); }
  }

  lemma StartIsBeforeEnd(s: Schedule, maxEpochSlip: u64, w: World)
    requires Sound(s, maxEpochSlip, w)
    ensures 1 <= w.start <= w.last + 1
  {
  }

  lemma PublishKeeps(s: Schedule, maxEpochSlip: u64, w: World, o: Observed, e: u64)
    requires Sound(s, maxEpochSlip, w) && Sees(w, o) && NextStep(s, o, maxEpochSlip) == Publish(e)
    ensures e == w.last + 1 && (w.last < w.start || w.last in w.attached)
    ensures Sound(s, maxEpochSlip, Perform(w, o.now, Publish(e)))
  {
    hide NextStep, PublicationTime, DayIndex, LastPublishableDay;
    PublishesExactly(s, o, maxEpochSlip, e);
    var submitted := Submitted(w.HasReceipt(), w.start, w.last);
    if w.start <= w.last {
      if o.lastSubmitted.Some? { assert o.lastSubmitted.value in submitted; }
      assert w.last in submitted;
      assert w.last in w.attached <==> w.last !in Singles(w.AsChain(), w.start, w.last) * submitted;
    }
    assert Timely(s, maxEpochSlip, e, o.now);
  }

  lemma SubmitKeeps(s: Schedule, maxEpochSlip: u64, w: World, o: Observed, e: u64)
    requires Sound(s, maxEpochSlip, w) && Sees(w, o) && NextStep(s, o, maxEpochSlip) == Submit(e)
    ensures e == w.last && e !in w.receipts && w.start <= e
    ensures Sound(s, maxEpochSlip, Perform(w, o.now, Submit(e)))
  {
    hide Timely, PublicationTime, DayIndex;
    var submitted := Submitted(w.HasReceipt(), w.start, w.last);
    assert forall x :: x in submitted ==> w.start <= x <= w.last;
    assert e in w.receipts <==> e in submitted;
  }

  lemma AttachKeeps(s: Schedule, maxEpochSlip: u64, w: World, o: Observed, e: u64)
    requires Sound(s, maxEpochSlip, w) && Sees(w, o) && NextStep(s, o, maxEpochSlip) == Attach(e)
    ensures e == w.last && e in w.receipts && e !in w.attached
    ensures Sound(s, maxEpochSlip, Perform(w, o.now, Attach(e)))
  {
    hide Timely, PublicationTime, DayIndex;
    assert e in Singles(w.AsChain(), w.start, w.last) * Submitted(w.HasReceipt(), w.start, w.last);
  }

  lemma TurnKeeps(s: Schedule, maxEpochSlip: u64, w: World, t: Turn)
    requires Sound(s, maxEpochSlip, w) && Sees(w, t.o)
    ensures Sound(s, maxEpochSlip, Next(s, maxEpochSlip, w, t))
  {
    hide Sound, Sees, NextStep;
    match NextStep(s, t.o, maxEpochSlip)
    case Publish(e) => PublishKeeps(s, maxEpochSlip, w, t.o, e);
    case Submit(e) => SubmitKeeps(s, maxEpochSlip, w, t.o, e);
    case Attach(e) => AttachKeeps(s, maxEpochSlip, w, t.o, e);
    case Wait(_) =>
    case Refuse(_) =>
  }

  lemma {:induction false} RunKeeps(s: Schedule, maxEpochSlip: u64, w: World, turns: seq<Turn>)
    requires Sound(s, maxEpochSlip, w) && SeesAlong(s, maxEpochSlip, w, turns)
    ensures Sound(s, maxEpochSlip, After(s, maxEpochSlip, w, turns))
    decreases |turns|
  {
    hide Sound, Sees, Next;
    if turns != [] {
      TurnKeeps(s, maxEpochSlip, w, turns[0]);
      RunKeeps(s, maxEpochSlip, Next(s, maxEpochSlip, w, turns[0]), turns[1..]);
    }
  }

  /** What is published, submitted or attached stays so, and at its first time. */
  ghost predicate Grown(before: World, after: World) {
    before.start == after.start && before.last <= after.last
    && before.receipts <= after.receipts && before.attached <= after.attached
    && forall e :: e in before.publishedAt ==> e in after.publishedAt && after.publishedAt[e] == before.publishedAt[e]
  }

  lemma {:induction false} RunOnlyGrows(s: Schedule, maxEpochSlip: u64, w: World, turns: seq<Turn>)
    requires Sound(s, maxEpochSlip, w) && SeesAlong(s, maxEpochSlip, w, turns)
    ensures Grown(w, After(s, maxEpochSlip, w, turns))
    decreases |turns|
  {
    hide Sound, Sees, NextStep;
    if turns != [] {
      TurnKeeps(s, maxEpochSlip, w, turns[0]);
      var next := Next(s, maxEpochSlip, w, turns[0]);
      assert w.last + 1 !in w.publishedAt by { LastIsNewest(s, maxEpochSlip, w); }
      RunOnlyGrows(s, maxEpochSlip, next, turns[1..]);
    }
  }

  lemma LastIsNewest(s: Schedule, maxEpochSlip: u64, w: World)
    requires Sound(s, maxEpochSlip, w)
    ensures w.last + 1 !in w.publishedAt
  {
  }

  /**
   Over any run from a new log, whatever the clock reads and whatever fails to land: the published
   epochs are exactly those from the first to the last, each published in its window; at most the
   newest lacks its receipt or its attachment; and the worker stops only for the calendar.
   */
  lemma EveryRun(s: Schedule, maxEpochSlip: u64, start: u64, turns: seq<Turn>, o: Observed)
    requires start > 0 && SeesAlong(s, maxEpochSlip, NewLog(start), turns)
    requires Sees(After(s, maxEpochSlip, NewLog(start), turns), o)
    ensures var w := After(s, maxEpochSlip, NewLog(start), turns);
      && Sound(s, maxEpochSlip, w)
      && (o.oldestSingle.Some? ==> o.oldestSingle.value == w.last)
      && (o.awaitingAttach.Some? ==> o.awaitingAttach.value == w.last && o.lastSubmitted == Some(w.last))
      && (NextStep(s, o, maxEpochSlip).Refuse? ==> ByTheCalendar(NextStep(s, o, maxEpochSlip).refusal))
  {
    hide NextStep;
    NewLogIsSound(s, maxEpochSlip, start);
    RunKeeps(s, maxEpochSlip, NewLog(start), turns);
    var w := After(s, maxEpochSlip, NewLog(start), turns);
    RefusesByTheCalendar(s, maxEpochSlip, w, o);
    OnlyTheNewest(s, maxEpochSlip, w, o);
  }

  lemma OnlyTheNewest(s: Schedule, maxEpochSlip: u64, w: World, o: Observed)
    requires Sound(s, maxEpochSlip, w) && Sees(w, o)
    ensures o.oldestSingle.Some? ==> o.oldestSingle.value == w.last
    ensures o.awaitingAttach.Some? ==> o.awaitingAttach.value == w.last && o.lastSubmitted == Some(w.last)
  {
    hide Timely, PublicationTime, DayIndex;
    var singles, submitted := Singles(w.AsChain(), w.start, w.last), Submitted(w.HasReceipt(), w.start, w.last);
    if o.oldestSingle.Some? { assert o.oldestSingle.value in singles; }
    if o.awaitingAttach.Some? { assert o.awaitingAttach.value in singles && o.awaitingAttach.value in submitted; }
  }

  /** Under the deployed schedule every epoch of a run was published after its own day had ended. */
  lemma DeployedRunIsNeverEarly(maxEpochSlip: u64, start: u64, turns: seq<Turn>, e: u64)
    requires start > 0 && SeesAlong(DEPLOYED, maxEpochSlip, NewLog(start), turns)
    requires e in After(DEPLOYED, maxEpochSlip, NewLog(start), turns).publishedAt
    ensures var at := After(DEPLOYED, maxEpochSlip, NewLog(start), turns).publishedAt[e];
      at >= (e + 1) * EPOCH_SECONDS + 3600 && DayIndex(at).Some? && e + 1 <= DayIndex(at).value <= e + maxEpochSlip
  {
    NewLogIsSound(DEPLOYED, maxEpochSlip, start);
    RunKeeps(DEPLOYED, maxEpochSlip, NewLog(start), turns);
    var at := After(DEPLOYED, maxEpochSlip, NewLog(start), turns).publishedAt[e];
    assert Timely(DEPLOYED, maxEpochSlip, e, at);
    var due := PublicationTime(DEPLOYED, e).value;
    assert due == (e + 1) * EPOCH_SECONDS + 3600 && due / EPOCH_SECONDS == e + 1;
    DaysAscend(due, at);
  }

  // Progress

  /** The newest epoch has its receipt, attached, or there is none yet. */
  predicate Anchored(w: World) {
    w.last < w.start || w.last in w.attached
  }

  /**
   Once the newest epoch's day has ended its anchoring is what the worker does next: submit without a
   receipt, attach with one; and only when it is attached, or there is none, is the log settled.
   */
  lemma NewestIsServed(s: Schedule, maxEpochSlip: u64, w: World, o: Observed)
    requires Sound(s, maxEpochSlip, w) && Sees(w, o)
    requires o.NewestPublishable().Some? && o.NewestPublishable().value >= w.last
    ensures !Anchored(w) ==>
      NextStep(s, o, maxEpochSlip) == if w.last in w.receipts then Attach(w.last) else Submit(w.last)
    ensures Anchored(w) && w.last < U64_MAX ==> Settled(o)
  {
    hide Timely, PublicationTime, DayIndex;
    ObservedIsConsistent(o, w.AsChain(), w.HasReceipt());
    var singles, submitted := Singles(w.AsChain(), w.start, w.last), Submitted(w.HasReceipt(), w.start, w.last);
    assert forall e :: e in singles <==> w.start <= e <= w.last && e !in w.attached;
    assert forall e :: e in submitted <==> e in w.receipts;
    if o.awaitingAttach.Some? { assert o.awaitingAttach.value in singles && o.awaitingAttach.value in submitted; }
    if o.lastSubmitted.Some? { assert o.lastSubmitted.value in submitted; }
    if w.last in singles { assert w.last in w.receipts <==> w.last in singles * submitted; }
  }

  /** In its window the next epoch is published. */
  lemma DueIsPublished(s: Schedule, maxEpochSlip: u64, w: World, o: Observed)
    requires Sound(s, maxEpochSlip, w) && Sees(w, o) && Anchored(w) && w.last < U64_MAX
    requires Timely(s, maxEpochSlip, w.last + 1, o.now)
    ensures NextStep(s, o, maxEpochSlip) == Publish(w.last + 1)
  {
    hide NextStep, Sound, Sees, Anchored, Describes, PublicationTime, Settled;
    NewestIsServed(s, maxEpochSlip, w, o);
    PublishesExactly(s, o, maxEpochSlip, w.last + 1);
    SeesLast(w, o);
  }

  lemma SeesLast(w: World, o: Observed)
    requires Sees(w, o)
    ensures o.lastEpoch == w.last
  {
  }

  /** One epoch's cycle: published in its window, then submitted and attached once its day has ended. */
  predicate IsCycle(s: Schedule, maxEpochSlip: u64, epoch: u64, turns: seq<Turn>) {
    |turns| == 3 && turns[0].landed && turns[1].landed && turns[2].landed
    && Timely(s, maxEpochSlip, epoch, turns[0].o.now)
    && turns[1].o.NewestPublishable().Some? && turns[1].o.NewestPublishable().value >= epoch
    && turns[2].o.NewestPublishable().Some? && turns[2].o.NewestPublishable().value >= epoch
  }

  /** Three turns that land publish, submit and attach the next epoch, and leave the log ready for the one after. */
  lemma CycleAdvances(s: Schedule, maxEpochSlip: u64, w: World, turns: seq<Turn>)
    requires Sound(s, maxEpochSlip, w) && Anchored(w) && w.last < U64_MAX
    requires IsCycle(s, maxEpochSlip, w.last + 1, turns) && SeesAlong(s, maxEpochSlip, w, turns)
    ensures var e, after := w.last + 1, After(s, maxEpochSlip, w, turns);
      after == World(w.start, e, w.receipts + {e}, w.attached + {e}, w.publishedAt[e := turns[0].o.now])
    ensures Sound(s, maxEpochSlip, After(s, maxEpochSlip, w, turns)) && Anchored(After(s, maxEpochSlip, w, turns))
  {
    hide NextStep, Sees, Timely;
    var e := w.last + 1;
    DueIsPublished(s, maxEpochSlip, w, turns[0].o);
    var published := Next(s, maxEpochSlip, w, turns[0]);
    ThreeTurns(s, maxEpochSlip, w, turns);
    TurnKeeps(s, maxEpochSlip, w, turns[0]);
    NewestIsServed(s, maxEpochSlip, published, turns[1].o);
    var submitted := Next(s, maxEpochSlip, published, turns[1]);
    TurnKeeps(s, maxEpochSlip, published, turns[1]);
    NewestIsServed(s, maxEpochSlip, submitted, turns[2].o);
    TurnKeeps(s, maxEpochSlip, submitted, turns[2]);
  }

  lemma ThreeTurns(s: Schedule, maxEpochSlip: u64, w: World, turns: seq<Turn>)
    requires |turns| == 3 && SeesAlong(s, maxEpochSlip, w, turns)
    ensures var a := Next(s, maxEpochSlip, w, turns[0]);
      var b := Next(s, maxEpochSlip, a, turns[1]);
      Sees(w, turns[0].o) && Sees(a, turns[1].o) && Sees(b, turns[2].o)
      && After(s, maxEpochSlip, w, turns) == Next(s, maxEpochSlip, b, turns[2])
  {
    hide Next, Sees;
    var rest := turns[1..];
    var last := rest[1..];
    var a := Next(s, maxEpochSlip, w, turns[0]);
    assert rest[0] == turns[1] && SeesAlong(s, maxEpochSlip, a, rest);
    var b := Next(s, maxEpochSlip, a, turns[1]);
    assert last == [turns[2]] && SeesAlong(s, maxEpochSlip, b, last);
    assert After(s, maxEpochSlip, a, rest) == After(s, maxEpochSlip, b, last);
    assert last[0] == turns[2] && last[1..] == [];
    var c := Next(s, maxEpochSlip, b, turns[2]);
    assert After(s, maxEpochSlip, c, []) == c;
    assert After(s, maxEpochSlip, b, last) == After(s, maxEpochSlip, c, last[1..]);
    assert After(s, maxEpochSlip, w, turns) == After(s, maxEpochSlip, a, rest);
  }

  /**
   The worker finds its own log ahead of the calendar exactly when the newest epoch was published on its
   own day, and that day still runs; which takes a schedule that publishes before the day is over.
   */
  lemma AheadExactly(s: Schedule, maxEpochSlip: u64, w: World, o: Observed)
    requires Sound(s, maxEpochSlip, w) && Sees(w, o) && w.start <= w.last && o.now >= w.publishedAt[w.last]
    ensures var step := NextStep(s, o, maxEpochSlip);
      (step.Refuse? && step.refusal.LogAheadOfCalendar?) <==> o.Today() == Some(w.last)
    ensures o.Today() == Some(w.last) ==> DayIndex(w.publishedAt[w.last]) == Some(w.last) && s.publishOffset < 0
  {
    hide Describes, PublicationTime;
    var at := w.publishedAt[w.last];
    assert Timely(s, maxEpochSlip, w.last, at);
    DaysAscend(at, o.now);
    ObservedIsConsistent(o, w.AsChain(), w.HasReceipt());
    if o.Today() == Some(w.last) { EarlyOffset(s, w.last, at); }
  }

  lemma EarlyOffset(s: Schedule, epoch: u64, at: i64)
    requires PublicationTime(s, epoch).Some? && PublicationTime(s, epoch).value <= at && DayIndex(at) == Some(epoch)
    ensures s.publishOffset < 0
  {
    assert at < (epoch + 1) * EPOCH_SECONDS;
  }
}

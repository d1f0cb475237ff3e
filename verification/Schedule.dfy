/** The publication schedule (schedule.rs) and the calendar it is judged by (worker.rs). */
module Schedule {
  import opened Wrappers
  import opened Arith

  const I64_MIN: int := -0x8000_0000_0000_0000
  const I64_MAX: int := 0x7fff_ffff_ffff_ffff
  const EPOCH_SECONDS: int := 86400

  type i64 = x: int | I64_MIN <= x <= I64_MAX
  type u64 = x: int | 0 <= x <= U64_MAX

  datatype Schedule = Schedule(publishOffset: i64, buildLead: i64)

  const DEPLOYED: Schedule := Schedule(3600, 600)

  /** A checked result: none when it does not fit. */
  function Checked(x: int): Option<i64> {
    if I64_MIN <= x <= I64_MAX then Some(x) else None
  }

  function SaturatingSub(a: i64, b: i64): i64 {
    if a - b > I64_MAX then I64_MAX else if a - b < I64_MIN then I64_MIN else a - b
  }

  function SaturatingAddU(a: u64, b: u64): u64 {
    if a + b > U64_MAX then U64_MAX else a + b
  }

  function SaturatingSubU(a: u64, b: u64): u64 {
    if a < b then 0 else a - b
  }

  function PublicationTime(s: Schedule, epoch: u64): Option<i64> {
    if epoch > I64_MAX then None
    else
      var product := Checked(epoch * EPOCH_SECONDS);
      if product.None? then None
      else
        var start := Checked(product.value + EPOCH_SECONDS);
        if start.None? then None else Checked(start.value + s.publishOffset)
  }

  function BuildStart(s: Schedule, epoch: u64): Option<i64> {
    var t := PublicationTime(s, epoch);
    if t.None? then None else Checked(t.value - s.buildLead)
  }

  /** The UTC day a time falls in, none before 1970. */
  function DayIndex(now: i64): Option<u64> {
    if now / EPOCH_SECONDS < 0 then None else Some(now / EPOCH_SECONDS)
  }

  function LastPublishableDay(maxEpochSlip: u64, epoch: u64): u64 {
    SaturatingAddU(epoch, maxEpochSlip)
  }

  /**
   Publication times are a day apart, and once one epoch's overflows every later one does: the three
   checks of the arithmetic fail upward-closed, whatever the offset.
   */
  lemma PublicationTimesAscend(s: Schedule, a: u64, b: u64)
    requires a <= b && PublicationTime(s, b).Some?
    ensures PublicationTime(s, a).Some?
    ensures PublicationTime(s, b).value - PublicationTime(s, a).value == (b - a) * EPOCH_SECONDS
  {
    assert a * EPOCH_SECONDS <= b * EPOCH_SECONDS;
  }

  /** Under the deployed schedule an epoch's build starts only after its own UTC day has ended. */
  lemma DeployedBuildsAfterTheDay(epoch: u64, now: i64)
    requires BuildStart(DEPLOYED, epoch).Some? && now >= BuildStart(DEPLOYED, epoch).value
    ensures DayIndex(now).Some? && DayIndex(now).value >= epoch + 1
    ensures BuildStart(DEPLOYED, epoch).value == (epoch + 1) * EPOCH_SECONDS + 3000
  {
    var day := now / EPOCH_SECONDS;
    assert now < (day + 1) * EPOCH_SECONDS;
  }

  // The same in numbers

  /** An epoch is published so many seconds after its day's end, where every step to that fits in 64 signed bits. */
  lemma PublicationTimeIs(s: Schedule, epoch: u64)
    ensures PublicationTime(s, epoch) ==
      if epoch <= 0x7fff_ffff_ffff_ffff && (epoch + 1) * 86400 <= 0x7fff_ffff_ffff_ffff
        && (epoch + 1) * 86400 + s.publishOffset <= 0x7fff_ffff_ffff_ffff
      then Some((epoch + 1) * 86400 + s.publishOffset) else None
    ensures BuildStart(s, epoch) ==
      match PublicationTime(s, epoch)
      case None => None
      case Some(at) =>
        if -0x8000_0000_0000_0000 <= at - s.buildLead <= 0x7fff_ffff_ffff_ffff then Some(at - s.buildLead) else None
  {
  }

  /** A time's day is the one whose 86,400 seconds it is among, and a time before 1970 has none. */
  lemma DaysAre(now: i64, day: u64)
    ensures DayIndex(now) == Some(day) <==> day * 86400 <= now < (day + 1) * 86400
    ensures DayIndex(now).None? <==> now < 0
  {
    if day * 86400 <= now < (day + 1) * 86400 { assert now / 86400 == day; }
  }

  /** Saturating arithmetic is the plain one brought into range. */
  lemma SaturationIs(a: i64, b: i64, x: u64, y: u64)
    ensures SaturatingSub(a, b) == if a - b > 0x7fff_ffff_ffff_ffff then 0x7fff_ffff_ffff_ffff
                                   else if a - b < -0x8000_0000_0000_0000 then -0x8000_0000_0000_0000 else a - b
    ensures SaturatingAddU(x, y) == if x + y > 0xffff_ffff_ffff_ffff then 0xffff_ffff_ffff_ffff else x + y
    ensures SaturatingSubU(x, y) == if x >= y then x - y else 0
    ensures LastPublishableDay(x, y) == if x + y > 0xffff_ffff_ffff_ffff then 0xffff_ffff_ffff_ffff else x + y
  {
  }
}

/** Instants as counts of 100 nanosecond ticks since 1601: section 5.2.2.5 of OPC UA Part 6. */
module DateTimes {
  import opened Wrappers
  import opened Bytes
  import opened Wire
  import opened CodecLaws
  import opened WireForms

  /** Milliseconds since 1970-01-01T00:00Z. */
  type Instant = int

  /** 1601-01-01T00:00Z */
  const UA_EPOCH: Instant := -11_644_473_600_000

  /** 9999-12-31T11:59:59Z */
  const UTC_CUTOFF: Instant := 253_402_257_599_000

  const DAY: int := 86_400_000

  /** The cutoff is a local time: its instant is that of UTC up to the offset of the time zone. */
  predicate LocalCutoff(cutoff: Instant) {
    UTC_CUTOFF - DAY <= cutoff <= UTC_CUTOFF + DAY
  }

  /** Division that drops the fraction, whatever the sign. */
  function Quotient(n: int, d: int): int
    requires d > 0
  {
    if n >= 0 then n / d else -(-n / d)
  }

  function Wrap64(n: int): i64 {
    AsSigned64(n % 0x1_0000_0000_0000_0000)
  }

  function EncDateTime(cutoff: Instant, src: Instant): Written {
    if src >= cutoff then EncI64(MAX_INT64)
    else if src <= UA_EPOCH then EncI64(0)
    else EncI64(Wrap64(10000 * (src - UA_EPOCH)))
  }

  /** What a tick count stands for; the two extremes stand for no instant. */
  function InstantOf(t: i64): Option<Instant> {
    if t == 0 || t == MAX_INT64 then None else Some(UA_EPOCH + Quotient(t, 10000))
  }

  function DecDateTime(m: Buffer, o: nat): (r: Read<Option<Instant>>)
    ensures Inside(m, o, r.next)
  {
    var (t, o1) :- DecI64(m, o);
    Got(InstantOf(t), o1)
  }

  lemma TicksRestored(t: i64, m: Buffer, o: nat)
    ensures Sits(m, o, EncI64(t).bytes) ==> DecI64(m, o) == Got(t, o + 8)
  {
    Widths();
    WordRoundTrip(8, AsUnsigned64(t));
  }

  /** The tick count written for an instant between the limits: exact, and neither extreme. */
  lemma TicksFit(cutoff: Instant, src: Instant)
    requires LocalCutoff(cutoff) && UA_EPOCH < src < cutoff
    ensures
      var t := 10000 * (src - UA_EPOCH);
      0 < t < MAX_INT64 && Wrap64(t) == t && EncDateTime(cutoff, src) == EncI64(t) && InstantOf(t) == Some(src)
  {
  }

  /** Exactly the instants strictly between 1601 and the cutoff come back; all others come back as none. */
  lemma DateTimeRestoredIff(cutoff: Instant, src: Instant, m: Buffer, o: nat)
    requires LocalCutoff(cutoff)
    ensures EncDateTime(cutoff, src).ok
    ensures Sits(m, o, EncDateTime(cutoff, src).bytes) ==>
              DecDateTime(m, o) == Got(if UA_EPOCH < src < cutoff then Some(src) else None, o + 8)
  {
    hide DecI64, EncI64;
    if UA_EPOCH < src < cutoff {
      TicksFit(cutoff, src);
    }
    TicksRestored(MAX_INT64, m, o);
    TicksRestored(0, m, o);
    TicksRestored(Wrap64(10000 * (src - UA_EPOCH)), m, o);
    EncI64Succeeds(MAX_INT64);
    EncI64Succeeds(0);
    EncI64Succeeds(Wrap64(10000 * (src - UA_EPOCH)));
  }

  lemma EncI64Succeeds(t: i64)
    ensures EncI64(t).ok
  {
  }

  /** Decoding any tick count and encoding the instant again rounds it down to whole milliseconds within the limits. */
  lemma Reencoding(cutoff: Instant, t: i64)
    requires LocalCutoff(cutoff) && InstantOf(t).Some?
    ensures
      EncDateTime(cutoff, InstantOf(t).value) ==
      EncI64(if t < 0 then 0 else if UA_EPOCH + t / 10000 >= cutoff then MAX_INT64 else t - t % 10000)
  {
    var src := InstantOf(t).value;
    if UA_EPOCH < src < cutoff {
      TicksFit(cutoff, src);
      assert t == 10000 * (t / 10000) + t % 10000;
    } else if t >= 0 && src <= UA_EPOCH {
      assert t / 10000 == 0;
    }
  }

  // ---------------------------------------------------------------- the calendar

  /** Leap days of the Gregorian calendar up to the end of a year. */
  function LeapDays(year: nat): int {
    year / 4 - year / 100 + year / 400
  }

  /** Days from 1970-01-01 to the first of January of a year. */
  function DaysTo(year: nat): int
    requires year >= 1
  {
    365 * (year - 1970) + LeapDays(year - 1) - LeapDays(1969)
  }

  /** Both constants follow from the calendar: 1601-01-01, and the last day of 9999 at 11:59:59. */
  lemma LimitsFromTheCalendar()
    ensures DAY == 24 * 60 * 60 * 1000
    ensures UA_EPOCH == DAY * DaysTo(1601)
    ensures UTC_CUTOFF == DAY * (DaysTo(9999) + 364) + ((11 * 60 + 59) * 60 + 59) * 1000
  {
  }

  /** Ticks of 100 nanoseconds since 1601, with literals: 1970 and one millisecond later. */
  lemma SampleTicks(cutoff: Instant)
    requires LocalCutoff(cutoff)
    ensures EncDateTime(cutoff, 0) == EncI64(116_444_736_000_000_000)
    ensures EncDateTime(cutoff, 1) == EncI64(116_444_736_000_010_000)
  {
    hide EncI64;
  }

  /** Both sentinels, byte by byte. */
  lemma SentinelBytes(cutoff: Instant, src: Instant)
    requires LocalCutoff(cutoff)
    ensures src <= -11_644_473_600_000 ==> EncDateTime(cutoff, src).bytes == [0, 0, 0, 0, 0, 0, 0, 0]
    ensures src >= cutoff ==> EncDateTime(cutoff, src).bytes == [0xFF, 0xFF, 0xFF, 0xFF, 0xFF, 0xFF, 0xFF, 0x7F]
  {
    Extremes();
    hide ToLittleEndian, Wrap64;
  }

  lemma Extremes()
    ensures ToLittleEndian(8, 0) == [0, 0, 0, 0, 0, 0, 0, 0]
    ensures ToLittleEndian(8, 0x7FFF_FFFF_FFFF_FFFF) == [0xFF, 0xFF, 0xFF, 0xFF, 0xFF, 0xFF, 0xFF, 0x7F]
  {
    LongIsForm(0);
    LongIsForm(0x7FFF_FFFF_FFFF_FFFF);
    hide ToLittleEndian;
  }

  lemma SampleInstants()
    ensures InstantOf(116_444_736_000_000_000) == Some(0) && InstantOf(116_444_736_000_019_999) == Some(1)
    ensures InstantOf(0) == None && InstantOf(0x7FFF_FFFF_FFFF_FFFF) == None
    ensures InstantOf(-10_000) == Some(-11_644_473_600_001) && InstantOf(-9_999) == Some(-11_644_473_600_000)
  {
  }
}

/** The daytime window of the quota service: `isDaytime` compares the time of
    day with two configured whole hours, using `java.time.LocalTime`'s order.
    The clock read (`LocalTime.now()`) is a parameter here. */
module TimeWindow {
  const NANOS_PER_SECOND: int := 1_000_000_000
  const NANOS_PER_MINUTE: int := 60_000_000_000
  const NANOS_PER_HOUR: int := 3_600_000_000_000
  const NANOS_PER_DAY: int := 86_400_000_000_000

  /** A time of day with nanosecond precision, field by field as `LocalTime` keeps it. */
  datatype LocalTime = LocalTime(hour: int, minute: int, second: int, nano: int)
  {
    predicate Valid() {
      0 <= hour < 24 && 0 <= minute < 60 && 0 <= second < 60 && 0 <= nano < NANOS_PER_SECOND
    }

    /** `LocalTime.toNanoOfDay`: nanoseconds since midnight. */
    function NanoOfDay(): (n: int)
      requires Valid()
      ensures 0 <= n < NANOS_PER_DAY
      ensures hour * NANOS_PER_HOUR <= n < (hour + 1) * NANOS_PER_HOUR
    {
      hour * NANOS_PER_HOUR + minute * NANOS_PER_MINUTE + second * NANOS_PER_SECOND + nano
    }
  }

  /** `LocalTime.of(hour, minute)`. */
  function Of(hour: int, minute: int): (t: LocalTime)
    requires 0 <= hour < 24 && 0 <= minute < 60
    ensures t.Valid() && t.NanoOfDay() == hour * NANOS_PER_HOUR + minute * NANOS_PER_MINUTE
  {
    LocalTime(hour, minute, 0, 0)
  }

  /** `Integer.compare`. */
  function CompareInt(x: int, y: int): int {
    if x < y then -1 else if x > y then 1 else 0
  }

  /** `LocalTime.compareTo`: hour, then minute, then second, then nano. */
  function CompareTo(a: LocalTime, b: LocalTime): int {
    var byHour := CompareInt(a.hour, b.hour);
    if byHour != 0 then byHour else
    var byMinute := CompareInt(a.minute, b.minute);
    if byMinute != 0 then byMinute else
    var bySecond := CompareInt(a.second, b.second);
    if bySecond != 0 then bySecond else
    CompareInt(a.nano, b.nano)
  }

  predicate IsAfter(a: LocalTime, b: LocalTime) { CompareTo(a, b) > 0 }

  predicate IsBefore(a: LocalTime, b: LocalTime) { CompareTo(a, b) < 0 }

  /** `UserService.isDaytime` with the clock reading `now` and the two configured hours. */
  predicate IsDaytime(now: LocalTime, startHour: int, endHour: int)
    requires 0 <= startHour < 24 && 0 <= endHour < 24
  {
    IsAfter(now, Of(startHour, 0)) && IsBefore(now, Of(endHour, 0))
  }

  /** The field-by-field order of `compareTo` is the order of the instants of the day. */
  lemma CompareToOrdersNanoOfDay(a: LocalTime, b: LocalTime)
    requires a.Valid() && b.Valid()
    ensures CompareTo(a, b) < 0 <==> a.NanoOfDay() < b.NanoOfDay()
    ensures CompareTo(a, b) > 0 <==> a.NanoOfDay() > b.NanoOfDay()
    ensures CompareTo(a, b) == 0 <==> a == b
  {
    if a.hour != b.hour {
    } else if a.minute != b.minute {
      assert a.minute < b.minute ==> a.NanoOfDay() < b.NanoOfDay();
      assert a.minute > b.minute ==> a.NanoOfDay() > b.NanoOfDay();
    } else if a.second != b.second {
      assert a.second < b.second ==> a.NanoOfDay() < b.NanoOfDay();
      assert a.second > b.second ==> a.NanoOfDay() > b.NanoOfDay();
    }
  }

  /** Daytime is the open interval between the two boundary instants. */
  lemma DaytimeIsOpenInterval(now: LocalTime, startHour: int, endHour: int)
    requires now.Valid() && 0 <= startHour < 24 && 0 <= endHour < 24
    ensures IsDaytime(now, startHour, endHour)
        <==> startHour * NANOS_PER_HOUR < now.NanoOfDay() < endHour * NANOS_PER_HOUR
  {
    CompareToOrdersNanoOfDay(now, Of(startHour, 0));
    CompareToOrdersNanoOfDay(now, Of(endHour, 0));
  }

  /** Both boundaries are excluded: exactly at START:00 and at END:00 it is not daytime. */
  lemma DaytimeExcludesBoundaries(startHour: int, endHour: int)
    requires 0 <= startHour < 24 && 0 <= endHour < 24
    ensures !IsDaytime(Of(startHour, 0), startHour, endHour)
    ensures !IsDaytime(Of(endHour, 0), startHour, endHour)
  {
    DaytimeIsOpenInterval(Of(startHour, 0), startHour, endHour);
    DaytimeIsOpenInterval(Of(endHour, 0), startHour, endHour);
  }

  /** A window whose start hour is not below its end hour never opens. */
  lemma NoDaytimeUnlessStartBeforeEnd(now: LocalTime, startHour: int, endHour: int)
    requires now.Valid() && 0 <= startHour < 24 && 0 <= endHour < 24
    requires endHour <= startHour
    ensures !IsDaytime(now, startHour, endHour)
  {
    DaytimeIsOpenInterval(now, startHour, endHour);
  }

  /** On the clock face: daytime is every reading whose hour lies in
      [startHour, endHour), except the reading START:00:00.000000000 itself. */
  lemma DaytimeByClockHour(now: LocalTime, startHour: int, endHour: int)
    requires now.Valid() && 0 <= startHour < 24 && 0 <= endHour < 24
    ensures IsDaytime(now, startHour, endHour)
        <==> startHour <= now.hour < endHour && now != Of(startHour, 0)
  {
    DaytimeIsOpenInterval(now, startHour, endHour);
    CompareToOrdersNanoOfDay(now, Of(startHour, 0));
  }
}

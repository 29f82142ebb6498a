/** Breaking an interval into the fields of an application's interval structure, which have 32 bits. */
module IntervalFields {
  import opened Timestamps

  const UINT32_RANGE := 0x1_0000_0000

  type UInt32 = x: int | 0 <= x < 0x1_0000_0000

  const DAYS_PER_MONTH := 30
  const HOURS_PER_DAY := 24
  const MINS_PER_HOUR := 60
  const MICROS_PER_SEC := 1_000_000
  const MICROS_PER_MINUTE := 60_000_000
  const MICROS_PER_HOUR := 3_600_000_000

  datatype Interval = Interval(months: Int32, days: Int32, micros: Int64)
  {
    function AllDays(): int {
      days + months * DAYS_PER_MONTH
    }

    /** What the fields should add up to. */
    function Magnitude(): nat {
      Abs(AllDays()) * MICROS_PER_DAY + Abs(micros)
    }

    function Value(): int {
      AllDays() * MICROS_PER_DAY + micros
    }

    /** The sign is that of the most significant part that is not zero. */
    predicate Negative() {
      if months != 0 then months < 0 else if days != 0 then days < 0 else micros < 0
    }
  }

  function Abs(x: int): nat {
    if x < 0 then -x else x
  }

  /** A value stored in 32 unsigned bits. */
  function Wrap(x: int): UInt32 {
    x % UINT32_RANGE
  }

  lemma WrapSmall(x: int)
    requires 0 <= x
    ensures Wrap(x) <= x && (Wrap(x) == x <==> x < UINT32_RANGE)
  {
  }

  /** Wrapping on the way does not matter, only the final value does. */
  lemma WrapsOnce(x: int, factor: int, y: int)
    ensures Wrap(Wrap(Wrap(x) * factor) + y) == Wrap(x * factor + y)
  {
    var q := x / UINT32_RANGE;
    var p := Wrap(x) * factor / UINT32_RANGE;
    assert Wrap(x) == x - q * UINT32_RANGE;
    assert Wrap(x) * factor == x * factor - (q * factor) * UINT32_RANGE;
    assert Wrap(Wrap(x) * factor) == Wrap(x) * factor - p * UINT32_RANGE;
    Unwrap(x * factor + y, q * factor + p);
  }

  lemma Unwrap(x: int, k: int)
    ensures (x - k * UINT32_RANGE) % UINT32_RANGE == x % UINT32_RANGE
  {
  }

  /** The fields below the leading one, as far as an interval type has them. */
  datatype Fields = Fields(day: UInt32, hour: UInt32, minute: UInt32, second: UInt32, fraction: UInt32)

  // ---------------------------------------------------------------- what each interval type shows

  function MinutesIn(micros: nat): (minutes: nat)
    ensures minutes < 60
  {
    micros % MICROS_PER_HOUR / MICROS_PER_MINUTE
  }

  function SecondsIn(micros: nat): (seconds: nat)
    ensures seconds < 60
  {
    micros % MICROS_PER_MINUTE / MICROS_PER_SEC
  }

  /** The remainders of remainders are remainders, and the parts add up. */
  lemma PartsOf(micros: nat)
    ensures micros / MICROS_PER_MINUTE == micros / MICROS_PER_HOUR * MINS_PER_HOUR + MinutesIn(micros)
    ensures micros % MICROS_PER_HOUR % MICROS_PER_MINUTE == micros % MICROS_PER_MINUTE
    ensures micros % MICROS_PER_MINUTE % MICROS_PER_SEC == micros % MICROS_PER_SEC
    ensures micros == micros / MICROS_PER_MINUTE * MICROS_PER_MINUTE + SecondsIn(micros) * MICROS_PER_SEC
      + micros % MICROS_PER_SEC
    ensures micros / MICROS_PER_HOUR < UINT32_RANGE || INT64_MAX < micros
  {
  }

  function DayToSecond(i: Interval): Fields {
    var m := Abs(i.micros);
    Fields(Wrap(Abs(i.AllDays())), Wrap(m / MICROS_PER_HOUR), MinutesIn(m), SecondsIn(m), m % MICROS_PER_SEC)
  }

  function HourToSecond(i: Interval): Fields {
    DayToSecond(i).(hour := Wrap(Abs(i.AllDays()) * HOURS_PER_DAY + Abs(i.micros) / MICROS_PER_HOUR))
  }

  function MinuteToSecond(i: Interval): Fields {
    HourToSecond(i).(
      minute := Wrap(Abs(i.AllDays()) * HOURS_PER_DAY * MINS_PER_HOUR + Abs(i.micros) / MICROS_PER_MINUTE))
  }

  /** The microseconds that hours, minutes, seconds and fraction stand for, from a field on. */
  function FromHours(f: Fields): nat {
    f.hour * MICROS_PER_HOUR + FromMinutes(f)
  }

  function FromMinutes(f: Fields): nat {
    f.minute * MICROS_PER_MINUTE + f.second * MICROS_PER_SEC + f.fraction
  }

  /** Main result: days to seconds stand for the whole interval exactly when the days fit. */
  lemma DayToSecondConservesExactlyWhen(i: Interval)
    ensures var f := DayToSecond(i);
      && f.minute < 60 && f.second < 60 && f.fraction < MICROS_PER_SEC
      && (f.day * MICROS_PER_DAY + FromHours(f) == i.Magnitude() <==> Abs(i.AllDays()) < UINT32_RANGE)
      && FromHours(f) == Abs(i.micros)
  {
    hide MinutesIn, SecondsIn, Wrap;
    PartsOf(Abs(i.micros));
    WrapSmall(Abs(i.AllDays()));
    WrapSmall(Abs(i.micros) / MICROS_PER_HOUR);
  }

  /** Main result: hours to seconds do so exactly when all the hours fit. */
  lemma HourToSecondConservesExactlyWhen(i: Interval)
    ensures var f := HourToSecond(i);
      && f.minute < 60 && f.second < 60 && f.fraction < MICROS_PER_SEC
      && (FromHours(f) == i.Magnitude()
        <==> Abs(i.AllDays()) * HOURS_PER_DAY + Abs(i.micros) / MICROS_PER_HOUR < UINT32_RANGE)
  {
    hide MinutesIn, SecondsIn, Wrap;
    PartsOf(Abs(i.micros));
    WrapSmall(Abs(i.AllDays()) * HOURS_PER_DAY + Abs(i.micros) / MICROS_PER_HOUR);
  }

  /** Main result: minutes to seconds do so exactly when all the minutes fit. */
  lemma MinuteToSecondConservesExactlyWhen(i: Interval)
    ensures var f := MinuteToSecond(i);
      && f.second < 60 && f.fraction < MICROS_PER_SEC
      && (FromMinutes(f) == i.Magnitude()
        <==> Abs(i.AllDays()) * HOURS_PER_DAY * MINS_PER_HOUR + Abs(i.micros) / MICROS_PER_MINUTE < UINT32_RANGE)
  {
    hide MinutesIn, SecondsIn, Wrap;
    PartsOf(Abs(i.micros));
    WrapSmall(Abs(i.AllDays()) * HOURS_PER_DAY * MINS_PER_HOUR + Abs(i.micros) / MICROS_PER_MINUTE);
  }

  /** The sign and the magnitude give the value back exactly when no part points the other way. */
  lemma SignIsRightExactlyWhen(i: Interval)
    ensures i.Value() == (if i.Negative() then 0 - (i.Magnitude() as int) else i.Magnitude())
      <==> if i.Negative() then i.AllDays() <= 0 && i.micros <= 0 else i.AllDays() >= 0 && i.micros >= 0
  {
  }

  /** The sign that is written is that of the interval when a month outweighs all days and a day all microseconds. */
  lemma SignIsOfLeadingPart(i: Interval)
    ensures i.Negative()
      <==> i.months * 0x1_0000_0000_0000_0000_0000_0000 + i.days * 0x1_0000_0000_0000_0000 + i.micros < 0
    ensures i.months > 0 || (i.months == 0 && i.days > 0) || (i.months == i.days == 0 && i.micros >= 0)
      ==> !i.Negative()
    ensures i.months < 0 || (i.months == 0 && i.days < 0) || (i.months == i.days == 0 && i.micros < 0) ==> i.Negative()
  {
  }

  // ---------------------------------------------------------------- the setters

  class IntervalStruct {
    var sign: bool
    var day: UInt32
    var hour: UInt32
    var minute: UInt32
    var second: UInt32
    var fraction: UInt32

    constructor ()
    {
      sign, day, hour, minute, second, fraction := false, 0, 0, 0, 0, 0;
    }

    ghost function View(): Fields
      reads this
    {
      Fields(day, hour, minute, second, fraction)
    }

    method SetSignal(i: Interval)
      modifies `sign
      ensures sign == i.Negative()
    {
      if i.months != 0 {
        sign := i.months < 0;
        return;
      }
      if i.days != 0 {
        sign := i.days < 0;
        return;
      }
      sign := i.micros < 0;
    }

    method SetDay(i: Interval)
      modifies `day
      ensures day == DayToSecond(i).day
    {
      day := Wrap(Abs(i.days + i.months * DAYS_PER_MONTH));
    }

    method SetHour(i: Interval)
      requires i.micros != INT64_MIN
      modifies `day, `hour, `fraction
      ensures day == HourToSecond(i).day && hour == HourToSecond(i).hour && fraction == Abs(i.micros) % MICROS_PER_HOUR
    {
      SetDay(i);
      WrapsOnce(Abs(i.AllDays()), HOURS_PER_DAY, Abs(i.micros) / MICROS_PER_HOUR);
      hour := Wrap(day * HOURS_PER_DAY);
      hour := Wrap(hour + Abs(i.micros) / MICROS_PER_HOUR);
      // what remains goes to the fraction
      fraction := Abs(i.micros) % MICROS_PER_HOUR;
    }

    method SetMinute(i: Interval)
      requires i.micros != INT64_MIN
      modifies `day, `hour, `minute, `fraction
      ensures day == MinuteToSecond(i).day && hour == MinuteToSecond(i).hour && minute == MinuteToSecond(i).minute
      ensures fraction == Abs(i.micros) % MICROS_PER_MINUTE
    {
      PartsOf(Abs(i.micros));
      hide Wrap;
      SetHour(i);
      var hours := Abs(i.AllDays()) * HOURS_PER_DAY + Abs(i.micros) / MICROS_PER_HOUR;
      WrapsOnce(hours, MINS_PER_HOUR, fraction / MICROS_PER_MINUTE);
      minute := Wrap(hour * MINS_PER_HOUR);
      minute := Wrap(minute + fraction / MICROS_PER_MINUTE);
      fraction := fraction % MICROS_PER_MINUTE;
    }

    method SetDayToHour(i: Interval)
      requires i.micros != INT64_MIN
      modifies `day, `hour, `fraction
      ensures day == DayToSecond(i).day && hour == DayToSecond(i).hour && fraction == Abs(i.micros) % MICROS_PER_HOUR
    {
      SetDay(i);
      hour := Wrap(Abs(i.micros) / MICROS_PER_HOUR);
      fraction := Abs(i.micros) % MICROS_PER_HOUR;
    }

    method SetDayToMinute(i: Interval)
      requires i.micros != INT64_MIN
      modifies `day, `hour, `minute, `fraction
      ensures day == DayToSecond(i).day && hour == DayToSecond(i).hour && minute == DayToSecond(i).minute
      ensures fraction == Abs(i.micros) % MICROS_PER_MINUTE
    {
      PartsOf(Abs(i.micros));
      hide Wrap;
      SetDayToHour(i);
      MinutesOfHour();
    }

    method SetDayToSecond(i: Interval)
      requires i.micros != INT64_MIN
      modifies `day, `hour, `minute, `second, `fraction
      ensures View() == DayToSecond(i)
    {
      PartsOf(Abs(i.micros));
      hide Wrap;
      SetDayToMinute(i);
      SecondsOfMinute();
    }

    method SetHourToMinute(i: Interval)
      requires i.micros != INT64_MIN
      modifies `day, `hour, `minute, `fraction
      ensures day == HourToSecond(i).day && hour == HourToSecond(i).hour && minute == HourToSecond(i).minute
      ensures fraction == Abs(i.micros) % MICROS_PER_MINUTE
    {
      PartsOf(Abs(i.micros));
      hide Wrap;
      SetHour(i);
      MinutesOfHour();
    }

    method SetHourToSecond(i: Interval)
      requires i.micros != INT64_MIN
      modifies `day, `hour, `minute, `second, `fraction
      ensures View() == HourToSecond(i)
    {
      PartsOf(Abs(i.micros));
      hide Wrap;
      SetHourToMinute(i);
      SecondsOfMinute();
    }

    method SetMinuteToSecond(i: Interval)
      requires i.micros != INT64_MIN
      modifies `day, `hour, `minute, `second, `fraction
      ensures View() == MinuteToSecond(i)
    {
      PartsOf(Abs(i.micros));
      hide Wrap;
      SetMinute(i);
      SecondsOfMinute();
    }

    /** Takes the whole minutes out of the fraction. */
    method MinutesOfHour()
      modifies `minute, `fraction
      ensures minute == old(fraction) / MICROS_PER_MINUTE && fraction == old(fraction) % MICROS_PER_MINUTE
    {
      minute := fraction / MICROS_PER_MINUTE;
      fraction := fraction % MICROS_PER_MINUTE;
    }

    method SecondsOfMinute()
      modifies `second, `fraction
      ensures second == old(fraction) / MICROS_PER_SEC && fraction == old(fraction) % MICROS_PER_SEC
    {
      second := fraction / MICROS_PER_SEC;
      fraction := fraction % MICROS_PER_SEC;
    }
  }
}

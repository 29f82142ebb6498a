/** Adding an interval to a timestamp with a calendar that counts milliseconds at a fixed offset. */
module CalendarAdd {
  import opened Timestamps

  datatype Field = MILLISECOND | SECOND | MINUTE | HOUR | DATE
  {
    function Millis(): nat {
      match this
      case MILLISECOND => 1
      case SECOND => 1_000
      case MINUTE => 60_000
      case HOUR => 3_600_000
      case DATE => MILLIS_PER_DAY
    }
  }

  class Calendar {
    var millis: int

    constructor ()
    {
      millis := 0;
    }

    method SetTime(udate: int)
      modifies this
      ensures millis == udate
    {
      millis := udate;
    }

    method Add(field: Field, amount: Int32)
      modifies this
      ensures millis == old(millis) + amount * field.Millis()
    {
      millis := millis + amount * field.Millis();
    }

    /** Whole units of a field from the time of the calendar to another one, which the calendar moves by. */
    method FieldDifference(when: int, field: Field) returns (sub: int)
      modifies this
      ensures sub == TruncDiv(when - old(millis), field.Millis()) && millis == old(millis) + sub * field.Millis()
    {
      sub := TruncDiv(when - millis, field.Millis());
      millis := millis + sub * field.Millis();
    }
  }

  /** Hours beyond 32 bits are added in steps. */
  method CalendarAddHour(calendar: Calendar, intervalHour: Int64)
    modifies calendar
    ensures calendar.millis == old(calendar.millis) + intervalHour * HOUR.Millis()
  {
    var left: int := intervalHour;
    if left >= 0 {
      while left > 0
        invariant -INT32_MAX < left && (left > 0 ==> left <= intervalHour)
        invariant calendar.millis
          == old(calendar.millis) + (intervalHour - (if left > 0 then left else 0)) * HOUR.Millis()
        decreases left
      {
        calendar.Add(HOUR, if left > INT32_MAX then INT32_MAX else left);
        left := left - INT32_MAX;
      }
    } else {
      while left < 0
        invariant left < -INT32_MIN && (left < 0 ==> intervalHour <= left)
        invariant calendar.millis
          == old(calendar.millis) + (intervalHour - (if left < 0 then left else 0)) * HOUR.Millis()
        decreases -left
      {
        calendar.Add(HOUR, if left < INT32_MIN then INT32_MIN else left);
        left := left - INT32_MIN;
      }
    }
  }

  /** Reads the calendar back as a timestamp, in range or not at all. */
  method GetTime(calendar: Calendar, micros: int) returns (r: Result)
    ensures var millis := calendar.millis * MICROS_PER_MSEC;
      var fits := FitsInt64(millis) && FitsInt64(millis + micros) && InRange(millis + micros);
      r == if fits then Ok(millis + micros) else OutOfRange
  {
    var micros64 := calendar.millis * MICROS_PER_MSEC;
    if !FitsInt64(micros64) {
      return OutOfRange;
    }
    micros64 := micros64 + micros;
    if !FitsInt64(micros64) {
      return OutOfRange;
    }
    var date := GetDate(micros64);
    return if FitsInt64(date * MICROS_PER_DAY) then Ok(micros64) else OutOfRange;
  }

  /** Sets the calendar to the millisecond a timestamp falls into; gives the microseconds behind it. */
  method SetTime(calendar: Calendar, date: Int64) returns (micros: int)
    modifies calendar
    ensures 0 <= micros < MICROS_PER_MSEC && date == calendar.millis * MICROS_PER_MSEC + micros
  {
    TruncFacts(date, MICROS_PER_MSEC);
    var millis := TruncDiv(date, MICROS_PER_MSEC);
    micros := TruncMod(date, MICROS_PER_MSEC);
    if micros < 0 {
      millis := millis - 1;
      micros := micros + MICROS_PER_MSEC;
    }
    calendar.SetTime(millis);
  }

  /** The units an interval of microseconds is broken into add up to its whole milliseconds. */
  lemma Breaks(micros: int)
    ensures
      var ms := TruncDiv(micros, MICROS_PER_MSEC);
      var s := TruncDiv(ms, 1000);
      var m := TruncDiv(s, 60);
      var h := TruncDiv(m, 60);
      && micros == ms * MICROS_PER_MSEC + TruncMod(micros, MICROS_PER_MSEC)
      && ms == TruncMod(ms, 1000) + TruncMod(s, 60) * 1000 + TruncMod(m, 60) * 60_000 + h * 3_600_000
  {
  }

  /** Adds the days and the whole milliseconds of an interval, unit by unit. */
  method AddUnits(calendar: Calendar, days: Int32, micros: Int64)
    modifies calendar
    ensures calendar.millis == old(calendar.millis) + days * MILLIS_PER_DAY + TruncDiv(micros, MICROS_PER_MSEC)
  {
    // every unit below the hour fits 32 bits
    Breaks(micros);
    var intervalH := TruncDiv(micros, MICROS_PER_MSEC);
    var intervalMs := TruncMod(intervalH, 1000);
    intervalH := TruncDiv(intervalH, 1000);
    var intervalS := TruncMod(intervalH, 60);
    intervalH := TruncDiv(intervalH, 60);
    var intervalM := TruncMod(intervalH, 60);
    intervalH := TruncDiv(intervalH, 60);

    if days < 0 || micros < 0 {
      calendar.Add(MILLISECOND, intervalMs);
      calendar.Add(SECOND, intervalS);
      calendar.Add(MINUTE, intervalM);
      CalendarAddHour(calendar, intervalH);
      calendar.Add(DATE, days);
    } else {
      calendar.Add(DATE, days);
      CalendarAddHour(calendar, intervalH);
      calendar.Add(MINUTE, intervalM);
      calendar.Add(SECOND, intervalS);
      calendar.Add(MILLISECOND, intervalMs);
    }
  }

  /** Adds an interval without months: exact, for negative timestamps and intervals too, or no result. */
  method Add(timestamp: Int64, days: Int32, micros: Int64, calendar: Calendar) returns (r: Result)
    modifies calendar
    ensures r == Sum(timestamp, days, micros)
  {
    if !IsFinite(timestamp) {
      return Ok(timestamp);
    }
    TruncFacts(timestamp, MICROS_PER_MSEC);
    TruncFacts(micros, MICROS_PER_MSEC);
    var millis := TruncDiv(timestamp, MICROS_PER_MSEC);
    var rest := TruncMod(timestamp, MICROS_PER_MSEC);

    // the calendar does not count microseconds
    rest := rest + TruncMod(micros, MICROS_PER_MSEC);
    if rest >= MICROS_PER_MSEC {
      rest := rest - MICROS_PER_MSEC;
      millis := millis + 1;
    } else if rest < 0 {
      rest := rest + MICROS_PER_MSEC;
      millis := millis - 1;
    }
    assert rest == SetAside(timestamp, micros);
    assert millis * MICROS_PER_MSEC == timestamp + TruncMod(micros, MICROS_PER_MSEC) - rest;

    // the midnight before it must be representable
    var us := millis * MICROS_PER_MSEC;
    if !FitsInt64(us) {
      return OutOfRange;
    }
    if !FitsInt64(GetDate(us) * MICROS_PER_DAY) {
      return OutOfRange;
    }
    calendar.SetTime(millis);

    AddUnits(calendar, days, micros);
    assert calendar.millis * MICROS_PER_MSEC == Exact(timestamp, days, micros) - rest;
    r := GetTime(calendar, rest);
  }

  method Sub(timestamp: Int64, days: Int32, micros: Int64, calendar: Calendar) returns (r: Result)
    requires days != INT32_MIN && micros != INT64_MIN
    modifies calendar
    ensures r == Sum(timestamp, -days, -micros)
  {
    r := Add(timestamp, -days, -micros, calendar);
  }
}

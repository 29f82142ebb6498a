/** Bucketing timestamps by a width of microseconds or of days, counted from an origin. */
module TimeBucket {
  import opened Timestamps
  import opened CalendarAdd
  import Multiples

  /** The bucket of `ts`: the last timestamp not behind it that is whole widths away from the origin. */
  predicate IsFloor(bucket: int, ts: int, origin: int, width: int)
    requires 1 <= width
  {
    bucket <= ts < bucket + width && (bucket - origin) % width == 0
  }

  lemma FloorIsUnique(a: int, b: int, ts: int, origin: int, width: int)
    requires 1 <= width && IsFloor(a, ts, origin, width) && IsFloor(b, ts, origin, width)
    ensures a == b
  {
    if a - origin < b - origin {
      Multiples.MultipleGap(a - origin, b - origin, width);
    } else if b - origin < a - origin {
      Multiples.MultipleGap(b - origin, a - origin, width);
    }
  }

  lemma FloorsAreOrdered(a: int, b: int, s: int, t: int, origin: int, width: int)
    requires 1 <= width && IsFloor(a, s, origin, width) && IsFloor(b, t, origin, width) && s <= t
    ensures a <= b
  {
    if b < a {
      Multiples.MultipleGap(b - origin, a - origin, width);
    }
  }

  // ---------------------------------------------------------------- microseconds

  /** The distance of the bucket from the origin; Euclidean division rounds down. */
  function FloorMultiple(x: int, width: int): int
    requires 1 <= width
  {
    x / width * width
  }

  function MicrosBucket(width: int, ts: int, origin: int): Result
    requires 0 <= width
  {
    if width == 0 || !FitsInt64(ts - origin) || !FitsInt64(FloorMultiple(ts - origin, width)) then OutOfRange
    else Sum(origin, 0, FloorMultiple(ts - origin, width))
  }

  /** Truncating division and a correction by one width round down. */
  lemma CorrectedIsFloor(x: int, width: int)
    requires 1 <= width
    ensures FloorMultiple(x, width)
      == TruncDiv(x, width) * width - if x < 0 && TruncMod(x, width) != 0 then width else 0
  {
    TruncFacts(x, width);
    var q := TruncDiv(x, width);
    if x < 0 && TruncMod(x, width) != 0 {
      assert (q - 1) * width == q * width - width;
      Multiples.DivisionIs(x, width, q - 1);
    } else {
      Multiples.DivisionIs(x, width, q);
    }
  }

  lemma FloorFacts(x: int, width: int)
    requires 1 <= width
    ensures FloorMultiple(x, width) <= x < FloorMultiple(x, width) + width && FloorMultiple(x, width) % width == 0
    ensures FloorMultiple(FloorMultiple(x, width), width) == FloorMultiple(x, width)
  {
    assert x == x / width * width + x % width;
    Multiples.MultipleOf(x / width, width);
  }

  method WidthConvertibleToMicrosCommon(width: Int64, ts: Int64, origin: Int64, calendar: Calendar) returns (r: Result)
    requires 0 <= width
    modifies calendar
    ensures r == MicrosBucket(width, ts, origin)
  {
    if width == 0 {
      return OutOfRange;
    }
    var tsMicros := ts - origin;
    if !FitsInt64(tsMicros) {
      return OutOfRange;
    }
    TruncFacts(tsMicros, width);
    CorrectedIsFloor(tsMicros, width);
    var resultMicros := TruncDiv(tsMicros, width) * width;
    assert FitsInt64(resultMicros);
    if tsMicros < 0 && TruncMod(tsMicros, width) != 0 {
      resultMicros := resultMicros - width;
      if !FitsInt64(resultMicros) {
        return OutOfRange;
      }
    }
    hide TruncDiv, TruncMod, Sum, FloorMultiple;
    r := Add(origin, 0, resultMicros, calendar);
  }

  /** Main result: on both sides of the origin the bucket is the true floor. */
  lemma MicrosBucketIsFloor(width: Int64, ts: Int64, origin: Int64)
    requires 1 <= width && IsFinite(origin) && MicrosBucket(width, ts, origin).Ok?
    ensures IsFloor(MicrosBucket(width, ts, origin).ts, ts, origin, width)
  {
    FloorFacts(ts - origin, width);
    hide FloorMultiple;
  }

  /** The bucket exists exactly when its distance from the origin fits 64 bits and adding that to the origin works. */
  lemma MicrosBucketExistsExactlyWhen(width: Int64, ts: Int64, origin: Int64, bucket: int)
    requires 1 <= width && IsFinite(origin) && IsFloor(bucket, ts, origin, width)
    ensures MicrosBucket(width, ts, origin).Ok? <==>
      && FitsInt64(ts - origin) && FitsInt64(bucket - origin)
      && FIRST_TIMESTAMP <= Start(origin, bucket - origin) < INT64_MAX
      && FIRST_TIMESTAMP <= bucket < INT64_MAX
      && bucket - SetAside(origin, bucket - origin) <= INT64_MAX
  {
    hide Start, SetAside, Sum, FloorMultiple;
    FloorFacts(ts - origin, width);
    FloorIsUnique(bucket, origin + FloorMultiple(ts - origin, width), ts, origin, width);
    SumExistsExactlyWhen(origin, 0, bucket - origin);
  }

  /** So it does on either side of the origin when origin, timestamp and the width before it keep away from the ends. */
  lemma MicrosBucketExists(width: Int64, ts: Int64, origin: Int64)
    requires 1 <= width && Comfortable(origin) && Comfortable(ts) && Comfortable(ts - width)
    requires FitsInt64(ts - origin) && FitsInt64(ts - width - origin)
    ensures MicrosBucket(width, ts, origin).Ok?
  {
    FloorFacts(ts - origin, width);
    hide FloorMultiple, Sum;
    ComfortableReaches(origin, 0, FloorMultiple(ts - origin, width));
  }

  lemma MicrosBucketIsIdempotent(width: Int64, ts: Int64, origin: Int64)
    requires 1 <= width && IsFinite(origin) && MicrosBucket(width, ts, origin).Ok?
    ensures MicrosBucket(width, MicrosBucket(width, ts, origin).ts, origin) == MicrosBucket(width, ts, origin)
  {
    FloorFacts(ts - origin, width);
    hide FloorMultiple;
  }

  lemma MicrosBucketIsMonotone(width: Int64, s: Int64, t: Int64, origin: Int64)
    requires 1 <= width && IsFinite(origin) && s <= t
    requires MicrosBucket(width, s, origin).Ok? && MicrosBucket(width, t, origin).Ok?
    ensures MicrosBucket(width, s, origin).ts <= MicrosBucket(width, t, origin).ts
  {
    MicrosBucketIsFloor(width, s, origin);
    MicrosBucketIsFloor(width, t, origin);
    FloorsAreOrdered(MicrosBucket(width, s, origin).ts, MicrosBucket(width, t, origin).ts, s, t, origin, width);
  }

  // ---------------------------------------------------------------- days

  /** The millisecond a timestamp falls into; this rounds down. */
  function FloorMillis(ts: int): int {
    ts / MICROS_PER_MSEC
  }

  /** Whole days from the origin to a timestamp, whose microseconds are cut off towards zero. */
  function DaysBetween(origin: int, ts: int): int {
    TruncDiv(TruncDiv(ts, MICROS_PER_MSEC) - FloorMillis(origin), MILLIS_PER_DAY)
  }

  /** Days cut to whole widths, towards zero. */
  function CutToWidth(days: int, width: int): int
    requires 1 <= width
  {
    TruncDiv(days, width) * width
  }

  function DayBucket(width: int, ts: int, origin: int): Result
    requires 0 <= width
  {
    if width == 0 then OutOfRange
    else
      var bucket := Sum(origin, CutToWidth(DaysBetween(origin, ts), width), 0);
      if bucket.Ok? && ts < bucket.ts then Sum(bucket.ts, -width, 0) else bucket
  }

  lemma DaysFit(width: int, ts: Int64, origin: Int64)
    requires 1 <= width
    ensures var days := DaysBetween(origin, ts);
      INT32_MIN < days < INT32_MAX && INT32_MIN < CutToWidth(days, width) < INT32_MAX
  {
    TruncFacts(DaysBetween(origin, ts), width);
  }

  method WidthConvertibleToDaysCommon(width: Int32, ts: Int64, origin: Int64, calendar: Calendar) returns (r: Result)
    requires 0 <= width
    modifies calendar
    ensures r == DayBucket(width, ts, origin)
  {
    if width == 0 {
      return OutOfRange;
    }
    DaysFit(width, ts, origin);
    var micros := SetTime(calendar, origin);
    Multiples.DivisionIs(origin, MICROS_PER_MSEC, calendar.millis);
    var tsDays := calendar.FieldDifference(TruncDiv(ts, MICROS_PER_MSEC), DATE);
    assert tsDays == DaysBetween(origin, ts);
    hide TruncDiv, TruncMod, Exact, Reaches, DaysBetween;
    var resultDays := TruncDiv(tsDays, width) * width;
    r := Add(origin, resultDays, 0, calendar);
    if r.Ok? && ts < r.ts {
      r := Add(r.ts, -width, 0, calendar);
    }
  }

  // ---------------------------------------------------------------- when day buckets are floors

  /** So many widths. */
  function Widths(n: int, size: int): int {
    n * size
  }

  /** Days truncated and truncated again to widths are whole widths of milliseconds, truncated once. */
  lemma TruncatedOnce(millis: int, width: int) returns (n: int)
    requires 1 <= width
    ensures 0 <= n
    ensures
      var days := CutToWidth(TruncDiv(millis, MILLIS_PER_DAY), width);
      var total, size := Widths(n, width * MICROS_PER_DAY), if millis >= 0 then millis else -millis;
      && days * MICROS_PER_DAY == (if millis >= 0 then total else -total)
      && total <= size * MICROS_PER_MSEC && size * MICROS_PER_MSEC + MICROS_PER_MSEC <= total + width * MICROS_PER_DAY
  {
    hide Widths;
    var d := if millis >= 0 then millis else -millis;
    var days := d / MILLIS_PER_DAY;
    n := days / width;
    CutsToWidths(days, width);
    WidthsInMicros(n, width);
    assert TruncDiv(millis, MILLIS_PER_DAY) == if millis >= 0 then days else -days;
    var whole := Widths(n, width);
    assert whole <= days < whole + width;
  }

  /** So many days hold so many whole widths, on either side of zero. */
  lemma CutsToWidths(days: int, width: int)
    requires 0 <= days && 1 <= width
    ensures 0 <= days / width && 0 <= Widths(days / width, width) <= days < Widths(days / width, width) + width
    ensures CutToWidth(days, width) == Widths(days / width, width)
    ensures CutToWidth(-days, width) == -Widths(days / width, width)
  {
    var n := days / width;
    assert days == n * width + days % width;
    assert (0 - n) * width == 0 - n * width;
    assert days == 0 ==> n == 0;
  }

  lemma WidthsInMicros(n: int, width: int)
    ensures Widths(n, width * MICROS_PER_DAY) == Widths(n, width) * MICROS_PER_DAY
  {
    assert n * (width * MICROS_PER_DAY) == (n * width) * MICROS_PER_DAY;
  }

  /** Where the bucket comes out, in the plain terms of the distance from the origin. */
  ghost predicate Misses(width: int, ts: int, origin: int)
    requires 1 <= width
  {
    var size := width * MICROS_PER_DAY;
    ts < 0 && ts < origin && size <= origin - ts && 0 < (origin - ts) % size < origin % MICROS_PER_MSEC
  }

  /** The bucket is one of two neighbours: `n` widths from the origin, or one width before that. */
  lemma DayBucketIs(width: Int32, ts: Int64, origin: Int64) returns (first: int)
    requires 1 <= width && IsFinite(origin) && DayBucket(width, ts, origin).Ok?
    ensures first == origin + CutToWidth(DaysBetween(origin, ts), width) * MICROS_PER_DAY
    ensures DayBucket(width, ts, origin).ts == if ts < first then first - width * MICROS_PER_DAY else first
  {
    var days := CutToWidth(DaysBetween(origin, ts), width);
    hide CutToWidth, DaysBetween;
    SumIsExact(origin, days, 0);
    first := Sum(origin, days, 0).ts;
    if ts < first {
      SumIsExact(first, -width, 0);
    }
  }

  lemma BehindMultiple(y: int, q: int, t: int, size: int)
    requires 1 <= size && y == q * size + t && 0 <= t <= size
    ensures y % size == if t == size then 0 else t
  {
    if t == size {
      assert (q + 1) * size == q * size + size;
      Multiples.DivisionIs(y, size, q + 1);
    } else {
      Multiples.DivisionIs(y, size, q);
    }
  }

  /** Whole widths away from the origin, one more or less, is still whole widths away. */
  lemma WholeWidths(n: int, size: int)
    requires 1 <= size
    ensures (n * size) % size == 0 && (n * size - size) % size == 0
    ensures (-(n * size)) % size == 0 && (-(n * size) - size) % size == 0
  {
    WholeLeavesNothing(n * size, n, size);
    WholeLeavesNothing(n * size - size, n - 1, size);
    WholeLeavesNothing(n * size + size, n + 1, size);
    assert -(n * size + size) == -(n * size) - size;
  }

  /** At the origin or after it, as far as milliseconds tell: the one correction is enough. */
  lemma AheadIsFloor(width: Int32, ts: int, origin: int, n: nat)
    requires 1 <= width
    requires var size, micros := width * MICROS_PER_DAY, (TruncDiv(ts, 1000) - FloorMillis(origin)) * 1000;
      0 <= micros && Widths(n, size) <= micros && micros + 1000 <= Widths(n, size) + size
    ensures var size := width * MICROS_PER_DAY;
      var first := origin + Widths(n, size);
      IsFloor(if ts < first then first - size else first, ts, origin, size) && !Misses(width, ts, origin)
  {
    var size := width * MICROS_PER_DAY;
    var total := n * size;
    WholeWidths(n, size);
    TruncFacts(ts, 1000);
    var first := origin + total;
    assert first - origin == total && first - size - origin == total - size;
  }

  /** Before the origin: a timestamp before 1970 can need one width more than the correction gives. */
  lemma BehindIsFloorExactlyWhen(width: Int32, ts: int, origin: int, n: nat)
    requires 1 <= width
    requires var size, micros := width * MICROS_PER_DAY, (FloorMillis(origin) - TruncDiv(ts, 1000)) * 1000;
      0 < micros && Widths(n, size) <= micros && micros + 1000 <= Widths(n, size) + size
    ensures var size := width * MICROS_PER_DAY;
      var first := origin - Widths(n, size);
      IsFloor(if ts < first then first - size else first, ts, origin, size) <==> !Misses(width, ts, origin)
  {
    var size := width * MICROS_PER_DAY;
    var total, y := n * size, origin - ts;
    WholeWidths(n, size);
    TruncFacts(ts, 1000);
    var first := origin - total;
    assert first - origin == -total && first - size - origin == -total - size;
    if total < y <= total + size {
      BehindMultiple(y, n, y - total, size);
    } else if total + size < y {
      assert (n + 1) * size == total + size;
      BehindMultiple(y, n + 1, y - total - size, size);
    } else if y == total {
      BehindMultiple(y, n, 0, size);
    }
  }

  /** Main result: the day bucket of a timestamp is the true floor exactly when it does not lie before 1970
      and before the origin, whole widths and less than the origin's own microseconds away from it. */
  lemma DayBucketIsFloorExactlyWhen(width: Int32, ts: Int64, origin: Int64)
    requires 1 <= width && IsFinite(origin) && DayBucket(width, ts, origin).Ok?
    ensures IsFloor(DayBucket(width, ts, origin).ts, ts, origin, width * MICROS_PER_DAY) <==> !Misses(width, ts, origin)
  {
    hide DayBucket, TruncDiv, IsFloor, Misses, Widths, CutToWidth;
    var first := DayBucketIs(width, ts, origin);
    var millis := TruncDiv(ts, MICROS_PER_MSEC) - FloorMillis(origin);
    var n := TruncatedOnce(millis, width);
    if millis >= 0 {
      AheadIsFloor(width, ts, origin, n);
    } else {
      BehindIsFloorExactlyWhen(width, ts, origin, n);
    }
  }

  /** Whole days bucketed as days and as microseconds agree exactly when the day bucket is a floor. */
  lemma DaysAgreeWithMicrosExactlyWhen(width: Int32, ts: Int64, origin: Int64)
    requires 1 <= width && IsFinite(origin) && FitsInt64(width * MICROS_PER_DAY)
    requires DayBucket(width, ts, origin).Ok? && MicrosBucket(width * MICROS_PER_DAY, ts, origin).Ok?
    ensures DayBucket(width, ts, origin) == MicrosBucket(width * MICROS_PER_DAY, ts, origin)
      <==> !Misses(width, ts, origin)
  {
    hide DayBucket, MicrosBucket, Misses;
    var size := width * MICROS_PER_DAY;
    MicrosBucketIsFloor(size, ts, origin);
    DayBucketIsFloorExactlyWhen(width, ts, origin);
    if IsFloor(DayBucket(width, ts, origin).ts, ts, origin, size) {
      FloorIsUnique(DayBucket(width, ts, origin).ts, MicrosBucket(size, ts, origin).ts, ts, origin, size);
    }
  }

  /** With an origin of whole milliseconds, as the default is, every day bucket is a floor; so buckets are ordered. */
  lemma WholeOriginNeverMisses(width: Int32, s: Int64, t: Int64, origin: Int64)
    requires 1 <= width && IsFinite(origin) && origin % MICROS_PER_MSEC == 0 && s <= t
    requires DayBucket(width, s, origin).Ok? && DayBucket(width, t, origin).Ok?
    ensures IsFloor(DayBucket(width, s, origin).ts, s, origin, width * MICROS_PER_DAY)
    ensures DayBucket(width, s, origin).ts <= DayBucket(width, t, origin).ts
  {
    hide DayBucket, IsFloor;
    DayBucketIsFloorExactlyWhen(width, s, origin);
    DayBucketIsFloorExactlyWhen(width, t, origin);
    FloorsAreOrdered(DayBucket(width, s, origin).ts, DayBucket(width, t, origin).ts, s, t, origin,
      width * MICROS_PER_DAY);
  }

  lemma DayBucketIsWhole(width: Int32, ts: Int64, origin: Int64) returns (k: int)
    requires 1 <= width && IsFinite(origin) && DayBucket(width, ts, origin).Ok?
    ensures DayBucket(width, ts, origin).ts - origin == Widths(k, width * MICROS_PER_DAY)
  {
    hide DayBucket, TruncDiv, FloorMillis, Widths, CutToWidth;
    var size := width * MICROS_PER_DAY;
    var first := DayBucketIs(width, ts, origin);
    var millis := TruncDiv(ts, MICROS_PER_MSEC) - FloorMillis(origin);
    var n := TruncatedOnce(millis, width);
    WidthsFacts(n, size);
    k := if millis >= 0 then n else 0 - n;
    WidthsFacts(k, size);
    k := if ts < first then k - 1 else k;
  }

  lemma WidthsFacts(k: int, size: int)
    ensures Widths(0 - k, size) == -Widths(k, size) && Widths(k - 1, size) == Widths(k, size) - size
  {
  }

  /** A whole number of widths leaves no remainder, whatever its sign. */
  lemma WholeLeavesNothing(d: int, k: int, size: int)
    requires 1 <= size && d == Widths(k, size)
    ensures d % size == 0 && (-d) % size == 0
  {
    Multiples.MultipleOf(k, size);
    Multiples.MultipleOf(-k, size);
    assert (-k) * size == -(k * size);
  }

  /** Adding whole days needs no more than a start and a sum in range. */
  lemma DaysReachExactlyWhen(ts: Int64, days: int)
    requires IsFinite(ts)
    ensures Sum(ts, days, 0).Ok?
      <==> FIRST_TIMESTAMP <= ts - ts % 1000 && FIRST_TIMESTAMP <= ts + days * MICROS_PER_DAY < INT64_MAX
    ensures Sum(ts, days, 0).Ok? ==> Sum(ts, days, 0).ts == ts + days * MICROS_PER_DAY
  {
    TruncModIs(ts);
    TruncModIs(0);
    hide TruncMod, InRange;
    if FitsInt64(ts - ts % 1000) {
      InRangeExactlyWhen(ts - ts % 1000);
    }
    if FitsInt64(ts + days * MICROS_PER_DAY) {
      InRangeExactlyWhen(ts + days * MICROS_PER_DAY);
    }
  }

  /** The whole widths that are tried first lie between the origin and the timestamp, as far as milliseconds tell. */
  lemma FirstIsBetween(width: Int32, ts: Int64, origin: Int64)
    requires 1 <= width
    ensures var first := origin + CutToWidth(DaysBetween(origin, ts), width) * MICROS_PER_DAY;
      if ts < origin then ts - 2000 < first <= origin else origin <= first < ts + 2000
  {
    var millis := TruncDiv(ts, MICROS_PER_MSEC) - FloorMillis(origin);
    var n := TruncatedOnce(millis, width);
    TruncFacts(ts, MICROS_PER_MSEC);
    NegativeProduct(n, width * MICROS_PER_DAY);
    hide CutToWidth, TruncDiv, TruncMod;
  }

  /** A day bucket exists on either side of the origin when origin, timestamp and the width before it keep away from
      the ends. */
  lemma DayBucketExists(width: Int32, ts: Int64, origin: Int64)
    requires 1 <= width && Comfortable(origin) && Comfortable(ts) && Comfortable(ts - width * MICROS_PER_DAY)
    ensures DayBucket(width, ts, origin).Ok?
  {
    hide Sum, CutToWidth, DaysBetween;
    var days := CutToWidth(DaysBetween(origin, ts), width);
    FirstIsBetween(width, ts, origin);
    DaysReachExactlyWhen(origin, days);
    DaysReachExactlyWhen(origin + days * MICROS_PER_DAY, -width);
  }

  lemma CutWhole(k: int, width: int)
    requires 1 <= width
    ensures CutToWidth(k * width, width) == k * width
    ensures k < 0 ==> CutToWidth(k * width + 1, width) == k * width + width
  {
    NegatedWidths(k, width);
    if k >= 0 {
      Multiples.DivisionIs(k * width, width, k);
      assert k * width >= 0;
    } else {
      Multiples.DivisionIs((0 - k) * width, width, 0 - k);
      assert (0 - k - 1) * width == (0 - k) * width - width;
      Multiples.DivisionIs((0 - k) * width - 1, width, 0 - k - 1);
      assert (0 - k) * width >= width;
      assert (0 - (0 - k)) * width == k * width && (0 - (0 - k - 1)) * width == k * width + width;
    }
  }

  lemma NegatedWidths(k: int, width: int)
    ensures (0 - k) * width == -(k * width)
  {
  }

  /** Whole days from the origin, cut towards zero: before 1970 one day can be missing. */
  lemma DaysToWhole(origin: int, days: int)
    ensures var back := DaysBetween(origin, origin + days * MICROS_PER_DAY);
      back == days || (days < 0 && back == days + 1)
  {
    var ts := origin + days * MICROS_PER_DAY;
    assert ts / 1000 == origin / 1000 + days * MILLIS_PER_DAY;
    TruncFacts(ts, 1000);
  }

  lemma WidthsInDays(k: int, width: int)
    ensures Widths(k, width * MICROS_PER_DAY) == k * width * MICROS_PER_DAY
  {
  }

  /** From a bucket, the days lead back to it, or to the one behind it that is not behind the origin. */
  lemma BucketToItself(width: Int32, origin: Int64, k: int)
    requires 1 <= width && IsFinite(origin)
    requires FIRST_TIMESTAMP <= origin - origin % 1000
    requires FIRST_TIMESTAMP <= origin + k * width * MICROS_PER_DAY < INT64_MAX
    ensures var bucket := origin + k * width * MICROS_PER_DAY; DayBucket(width, bucket, origin) == Ok(bucket)
  {
    hide CutToWidth, DaysBetween, Sum;
    var days := k * width;
    var bucket := origin + days * MICROS_PER_DAY;
    DaysToWhole(origin, days);
    CutWhole(k, width);
    DaysReachExactlyWhen(origin, days);
    if DaysBetween(origin, bucket) != days {
      assert k < 0 by { NegativeProduct(k, width); }
      var next := days + width;
      assert next <= 0 by { NegativeProduct(k + 1, width); assert (k + 1) * width == next; }
      DaysReachExactlyWhen(origin, next);
      assert bucket == origin + next * MICROS_PER_DAY + -width * MICROS_PER_DAY;
      DaysReachExactlyWhen(origin + next * MICROS_PER_DAY, -width);
    }
  }

  lemma NegativeProduct(k: int, width: int)
    requires 1 <= width
    ensures k * width < 0 <==> k < 0
    ensures k * width <= 0 <==> k <= 0
  {
    Multiples.Scaled(k, width);
  }

  /** The bucket of a bucket is the bucket, whatever the origin is. */
  lemma DayBucketIsIdempotent(width: Int32, ts: Int64, origin: Int64)
    requires 1 <= width && IsFinite(origin) && DayBucket(width, ts, origin).Ok?
    ensures DayBucket(width, DayBucket(width, ts, origin).ts, origin) == DayBucket(width, ts, origin)
  {
    hide DayBucket, Widths;
    var k := DayBucketIsWhole(width, ts, origin);
    DayBucketInRange(width, ts, origin);
    WidthsInDays(k, width);
    BucketToItself(width, origin, k);
  }

  lemma DayBucketInRange(width: Int32, ts: Int64, origin: Int64)
    requires 1 <= width && IsFinite(origin) && DayBucket(width, ts, origin).Ok?
    ensures FIRST_TIMESTAMP <= origin - origin % 1000 && FIRST_TIMESTAMP <= DayBucket(width, ts, origin).ts < INT64_MAX
  {
    hide Sum, CutToWidth, DaysBetween;
    var days := CutToWidth(DaysBetween(origin, ts), width);
    DaysReachExactlyWhen(origin, days);
    var first := origin + days * MICROS_PER_DAY;
    if ts < first {
      DaysReachExactlyWhen(first, -width);
    }
  }

  /** An origin two microseconds behind the day: a bucket that starts behind its timestamp. */
  lemma OriginWithMicrosMisses()
    ensures DayBucket(1, -86_399_999_999, 2) == Ok(-86_399_999_998)
  {
    assert DaysBetween(2, -86_399_999_999) == 0;
    ComfortableReaches(2, 0, 0);
    ComfortableReaches(2, -1, 0);
    hide Sum;
    assert TruncDiv(0, 1) * 1 == 0;
  }
}

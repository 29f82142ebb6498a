/** Timestamps in microseconds since 1970: truncating arithmetic, the representable range, and what
    adding an interval without months should give in a calendar with a fixed offset. */
module Timestamps {
  const INT32_MIN := -0x8000_0000
  const INT32_MAX := 0x7FFF_FFFF
  const INT64_MIN := -0x8000_0000_0000_0000
  const INT64_MAX := 0x7FFF_FFFF_FFFF_FFFF
  const MICROS_PER_MSEC := 1000
  const MILLIS_PER_DAY := 86_400_000
  const MICROS_PER_DAY := 86_400_000_000

  type Int32 = x: int | -0x8000_0000 <= x <= 0x7FFF_FFFF
  type Int64 = x: int | -0x8000_0000_0000_0000 <= x <= 0x7FFF_FFFF_FFFF_FFFF

  predicate FitsInt64(x: int) {
    INT64_MIN <= x <= INT64_MAX
  }

  // division and remainder that truncate towards zero

  function TruncDiv(a: int, b: int): int
    requires 1 <= b
  {
    if a >= 0 then a / b else -(-a / b)
  }

  function TruncMod(a: int, b: int): int
    requires 1 <= b
  {
    a - TruncDiv(a, b) * b
  }

  lemma TruncFacts(a: int, b: int)
    requires 1 <= b
    ensures a == TruncDiv(a, b) * b + TruncMod(a, b)
    ensures a >= 0 ==> 0 <= TruncMod(a, b) < b && 0 <= TruncDiv(a, b)
    ensures a < 0 ==> -b < TruncMod(a, b) <= 0 && TruncDiv(a, b) <= 0
  {
    Divided(if a >= 0 then a else -a, b);
  }

  lemma Divided(n: nat, b: int)
    requires 1 <= b
    ensures 0 <= n / b && 0 <= n - n / b * b < b && (-(n / b)) * b == -(n / b * b)
  {
    assert n == n / b * b + n % b;
  }

  // ---------------------------------------------------------------- the representable range

  predicate IsFinite(ts: int) {
    ts != INT64_MAX && ts != -INT64_MAX
  }

  /** The day of a timestamp; the infinite timestamps have days of their own. */
  function GetDate(ts: int): int {
    if ts == INT64_MAX then INT32_MAX
    else if ts == -INT64_MAX then -INT32_MAX
    else if ts < 0 then TruncDiv(ts + 1, MICROS_PER_DAY) - 1
    else TruncDiv(ts, MICROS_PER_DAY)
  }

  /** The range check: midnight of the day must fit. */
  predicate InRange(ts: int) {
    FitsInt64(GetDate(ts) * MICROS_PER_DAY)
  }

  const FIRST_TIMESTAMP := -106_751_991 * 86_400_000_000

  lemma InRangeExactlyWhen(ts: Int64)
    ensures InRange(ts) <==> FIRST_TIMESTAMP <= ts < INT64_MAX
  {
    var first := GetDate(ts) * MICROS_PER_DAY;
    if IsFinite(ts) {
      assert first <= ts < first + MICROS_PER_DAY;
    }
  }

  // ---------------------------------------------------------------- adding an interval

  datatype Result = Ok(ts: int) | OutOfRange

  /** The microseconds that are put aside before the calendar counts milliseconds; they may stay negative. */
  function SetAside(ts: int, micros: int): (rest: int)
    ensures -1000 < rest < 1000
  {
    TruncFacts(ts, MICROS_PER_MSEC);
    TruncFacts(micros, MICROS_PER_MSEC);
    var sum := TruncMod(ts, MICROS_PER_MSEC) + TruncMod(micros, MICROS_PER_MSEC);
    if sum >= MICROS_PER_MSEC then sum - MICROS_PER_MSEC else if sum < 0 then sum + MICROS_PER_MSEC else sum
  }

  function Exact(ts: int, days: int, micros: int): int {
    ts + days * MICROS_PER_DAY + micros
  }

  /** The whole millisecond that the calendar starts from. */
  function Start(ts: int, micros: int): int {
    ts + TruncMod(micros, MICROS_PER_MSEC) - SetAside(ts, micros)
  }

  /** No check on the way fails: the start and the result are in range. */
  predicate Reaches(ts: int, days: int, micros: int) {
    var start, sum := Start(ts, micros), Exact(ts, days, micros);
    && FitsInt64(start) && InRange(start)
    && FitsInt64(sum - SetAside(ts, micros)) && FitsInt64(sum) && InRange(sum)
  }

  /** Exact addition, or no result. */
  function Sum(ts: int, days: int, micros: int): Result {
    if !IsFinite(ts) then Ok(ts)
    else if Reaches(ts, days, micros) then Ok(Exact(ts, days, micros))
    else OutOfRange
  }

  /** Nothing overflows when start and result keep two milliseconds away from the ends of the range. */
  predicate Comfortable(ts: int) {
    FIRST_TIMESTAMP + 2000 <= ts <= INT64_MAX - 2000
  }

  lemma ComfortableReaches(ts: Int64, days: Int32, micros: Int64)
    requires Comfortable(ts) && Comfortable(Exact(ts, days, micros))
    ensures Sum(ts, days, micros) == Ok(Exact(ts, days, micros))
  {
    TruncFacts(micros, MICROS_PER_MSEC);
    var start := Start(ts, micros);
    InRangeExactlyWhen(start);
    InRangeExactlyWhen(Exact(ts, days, micros));
  }

  /** A sum exists exactly when the millisecond that the calendar starts from and the sum itself are in range, and the
      whole milliseconds of the sum are, which can lie a millisecond above it. */
  lemma SumExistsExactlyWhen(ts: int, days: int, micros: int)
    requires IsFinite(ts)
    ensures Sum(ts, days, micros).Ok? <==>
      && FIRST_TIMESTAMP <= Start(ts, micros) < INT64_MAX
      && FIRST_TIMESTAMP <= Exact(ts, days, micros) < INT64_MAX
      && Exact(ts, days, micros) - SetAside(ts, micros) <= INT64_MAX
  {
    hide Start, SetAside, InRange;
    var start, sum := Start(ts, micros), Exact(ts, days, micros);
    assert -1000 < SetAside(ts, micros) < 1000;
    if FitsInt64(start) {
      InRangeExactlyWhen(start);
    }
    if FitsInt64(sum) {
      InRangeExactlyWhen(sum);
    }
  }

  /** A sum is exact and finite, and in range. */
  lemma SumIsExact(ts: int, days: int, micros: int)
    requires IsFinite(ts) && Sum(ts, days, micros).Ok?
    ensures Sum(ts, days, micros).ts == Exact(ts, days, micros)
    ensures FIRST_TIMESTAMP <= Exact(ts, days, micros) < INT64_MAX
  {
    InRangeExactlyWhen(Exact(ts, days, micros));
  }

  lemma StartIsNear(ts: int, micros: int)
    ensures -2000 < Start(ts, micros) - ts < 2000 && Start(ts, micros) % MICROS_PER_MSEC == 0
  {
    TruncFacts(ts, MICROS_PER_MSEC);
    TruncFacts(micros, MICROS_PER_MSEC);
  }

  /** Main result: subtracting the interval again gives the timestamp back exactly when the timestamp is in range
      and so is the whole millisecond that the calendar starts from on the way back; otherwise there is no result. */
  lemma SubtractUndoesAddExactlyWhen(ts: Int64, days: Int32, micros: Int64)
    requires IsFinite(ts) && Sum(ts, days, micros).Ok? && micros != INT64_MIN && days != INT32_MIN
    ensures
      var sum := Exact(ts, days, micros);
      && Sum(ts, days, micros) == Ok(sum)
      && (Sum(sum, -days, -micros) == Ok(ts)
         <==> FIRST_TIMESTAMP <= ts && FIRST_TIMESTAMP <= Start(sum, -micros) < INT64_MAX)
      && (Sum(sum, -days, -micros) != Ok(ts) ==> Sum(sum, -days, -micros) == OutOfRange)
  {
    hide Start, SetAside, InRange;
    SumStarts(ts, days, micros);
    var sum := Exact(ts, days, micros);
    SumIsExact(ts, days, micros);
    assert Exact(sum, -days, -micros) == ts;
    StartIsNear(sum, -micros);
    if FitsInt64(Start(sum, -micros)) {
      InRangeExactlyWhen(Start(sum, -micros));
    }
    InRangeExactlyWhen(ts);
    assert SetAside(sum, -micros) < 1000;
    RestFits(ts, days, micros);
  }

  lemma SumStarts(ts: Int64, days: Int32, micros: Int64)
    requires IsFinite(ts) && Sum(ts, days, micros).Ok?
    ensures FitsInt64(Start(ts, micros))
  {
  }

  /** The remainder towards zero, from the one that is never negative. */
  lemma TruncModIs(a: int)
    ensures TruncMod(a, MICROS_PER_MSEC) == if a >= 0 || a % 1000 == 0 then a % 1000 else a % 1000 - 1000
  {
  }

  /** What is set aside on the way back does not take the timestamp out of 64 bits, as it did not on the way there. */
  lemma RestFits(ts: int, days: int, micros: int)
    requires ts <= INT64_MAX && FitsInt64(Start(ts, micros))
    ensures ts - SetAside(Exact(ts, days, micros), -micros) <= INT64_MAX
  {
    var sum := Exact(ts, days, micros);
    TruncModIs(ts);
    TruncModIs(sum);
    TruncModIs(micros);
    TruncModIs(-micros);
    SameRemainder(ts, days, micros);
    hide TruncMod, TruncDiv;
  }

  lemma SameRemainder(ts: int, days: int, micros: int)
    ensures Exact(ts, days, micros) % 1000 == (ts % 1000 + micros % 1000) % 1000
    ensures -micros % 1000 == if micros % 1000 == 0 then 0 else 1000 - micros % 1000
  {
    assert Exact(ts, days, micros) == ts + micros + 1000 * (days * 86_400_000);
  }

  /** Both ends in range, and still no way back: the start would be a millisecond before the first timestamp. */
  lemma FirstTimestampIsNotLeft()
    ensures
      var ts := FIRST_TIMESTAMP + 86_400_000_000 - 400;
      Sum(ts, -1, 400) == Ok(FIRST_TIMESTAMP) && Sum(FIRST_TIMESTAMP, 1, -400) == OutOfRange
  {
    assert TruncMod(FIRST_TIMESTAMP, MICROS_PER_MSEC) == 0 && TruncMod(-400, MICROS_PER_MSEC) == -400;
    assert Start(FIRST_TIMESTAMP, -400) == FIRST_TIMESTAMP - 1000;
    InRangeExactlyWhen(FIRST_TIMESTAMP - 1000);
  }

  /** So it always does when timestamp and sum keep two milliseconds away from the ends of the range. */
  lemma SubtractUndoesAdd(ts: Int64, days: Int32, micros: Int64)
    requires micros != INT64_MIN && days != INT32_MIN && Comfortable(ts) && Comfortable(Exact(ts, days, micros))
    ensures Sum(ts, days, micros).Ok? && Sum(Sum(ts, days, micros).ts, -days, -micros) == Ok(ts)
  {
    ComfortableReaches(ts, days, micros);
    ComfortableReaches(Exact(ts, days, micros), -days, -micros);
  }
}

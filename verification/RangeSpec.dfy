/** Ranges of timestamps: the values of one row, what the table function emits for many rows, and the lists
    that the scalar function builds for them. The step of the calendar is a parameter. */
module RangeSpec {
  import opened Timestamps

  datatype Increment = Increment(months: int, days: int, micros: int)
  {
    predicate Positive() {
      months > 0 || days > 0 || micros > 0
    }

    predicate Negative() {
      months < 0 || days < 0 || micros < 0
    }
  }

  type Step = (int, Increment) -> Result

  /** The calendar moves a finite timestamp to another one, in the direction of the interval, or fails. */
  ghost predicate Monotone(step: Step) {
    forall ts: int, inc: Increment | IsFinite(ts) && step(ts, inc).Ok? ::
      && IsFinite(step(ts, inc).ts)
      && (inc.Positive() && !inc.Negative() ==> ts < step(ts, inc).ts)
      && (inc.Negative() && !inc.Positive() ==> step(ts, inc).ts < ts)
  }

  /** A calendar with a fixed offset is such a calendar, for intervals without months. */
  lemma FixedOffsetIsMonotone(step: Step)
    requires forall ts, inc: Increment ::
      step(ts, inc) == if inc.months == 0 then Sum(ts, inc.days, inc.micros) else OutOfRange
    ensures Monotone(step)
  {
    forall ts: int, inc: Increment | IsFinite(ts) && step(ts, inc).Ok? ensures IsFinite(step(ts, inc).ts) {
      InRangeExactlyWhen(Exact(ts, inc.days, inc.micros));
    }
  }

  /** A row of bounds and step; any NULL among them makes it a row without values. */
  datatype Row = NullRow | Row(start: int, end: int, inc: Increment)
  {
    predicate Up() {
      Row? && inc.Positive()
    }

    /** The start lies behind the end, in the direction of the interval. */
    predicate Reversed() {
      Row? && if Up() then start > end else start < end
    }
  }

  predicate Finished(cur: int, end: int, up: bool, inclusive: bool) {
    if up then if inclusive then cur > end else cur >= end
    else if inclusive then cur < end else cur <= end
  }

  datatype Values = Fails | Values(vals: seq<int>)

  function Behind(vals: seq<int>, later: Values): Values {
    if later.Fails? then Fails else Values(vals + later.vals)
  }

  predicate OneWay(inc: Increment, up: bool) {
    if up then inc.Positive() && !inc.Negative() else inc.Negative() && !inc.Positive()
  }

  function Distance(cur: int, end: int, up: bool): nat {
    if up then if cur <= end then end - cur + 1 else 0 else if end <= cur then cur - end + 1 else 0
  }

  /** The values from `cur` on; after the last value the calendar moves once more. */
  function Walk(step: Step, cur: int, end: int, inc: Increment, up: bool, inclusive: bool): Values
    requires Monotone(step) && OneWay(inc, up) && IsFinite(cur)
    decreases Distance(cur, end, up)
  {
    if Finished(cur, end, up, inclusive) then Values([])
    else
      match step(cur, inc)
      case OutOfRange => Fails
      case Ok(next) => Behind([cur], Walk(step, next, end, inc, up, inclusive))
  }

  // ---------------------------------------------------------------- the table function

  /** The checks that the table function makes of a row. */
  predicate Accepts(row: Row) {
    row.Row? ==>
      && IsFinite(row.start) && IsFinite(row.end)
      && row.inc != Increment(0, 0, 0) && !(row.inc.Positive() && row.inc.Negative())
  }

  function RowValues(step: Step, row: Row, inclusive: bool): Values
    requires Monotone(step) && Accepts(row)
  {
    if row.NullRow? || row.Reversed() then Values([]) else Walk(step, row.start, row.end, row.inc, row.Up(), inclusive)
  }

  /** What the rows from `i` on emit; a reversed row silences all the rows behind it. */
  function Emits(step: Step, rows: seq<Row>, i: nat, inclusive: bool, silent: bool): Values
    requires Monotone(step) && i <= |rows|
    decreases |rows| - i
  {
    if i == |rows| then Values([])
    else if !Accepts(rows[i]) then Fails
    else if silent || rows[i].Reversed() then Emits(step, rows, i + 1, inclusive, true)
    else
      match RowValues(step, rows[i], inclusive)
      case Fails => Fails
      case Values(vals) => Behind(vals, Emits(step, rows, i + 1, inclusive, false))
  }

  predicate AnyReversed(rows: seq<Row>, i: nat)
    requires i <= |rows|
    decreases |rows| - i
  {
    i < |rows| && (rows[i].Reversed() || AnyReversed(rows, i + 1))
  }

  // ---------------------------------------------------------------- the list function

  const MAX_LIST := 0xFFFF_FFFF

  /** The values of a list of at most `n` values, for any step. */
  function Limited(step: Step, cur: int, end: int, inc: Increment, up: bool, inclusive: bool, n: nat): Values
    decreases n
  {
    if Finished(cur, end, up, inclusive) then Values([])
    else
      match step(cur, inc)
      case OutOfRange => Fails
      case Ok(next) => if n == 0 then Fails else Behind([cur], Limited(step, next, end, inc, up, inclusive, n - 1))
  }

  function ListOf(step: Step, row: Row, inclusive: bool): Values {
    if row.NullRow? || (!row.inc.Positive() && !row.inc.Negative()) then Values([])
    else if !IsFinite(row.start) || !IsFinite(row.end) || (row.inc.Positive() && row.inc.Negative()) then Fails
    else if row.Reversed() then Values([])
    else Limited(step, row.start, row.end, row.inc, row.Up(), inclusive, MAX_LIST)
  }
}

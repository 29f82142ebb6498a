/** The table function for ranges: it emits batch after batch from a state it keeps between calls. */
module TableRange {
  import opened Timestamps
  import opened RangeSpec
  import opened RangeRuns

  datatype Code = NEED_MORE_INPUT | HAVE_MORE_OUTPUT | FAILED

  /** A value that the row can go on from; a row of NULLs stands at its end. */
  predicate Inside(row: Row, cur: int) {
    if row.NullRow? then cur == 0 else Accepts(row) && IsFinite(cur)
  }

  /** What a row emits from a value on. */
  function RowFrom(step: Step, row: Row, cur: int, inclusive: bool): Values
    requires Monotone(step) && Inside(row, cur)
  {
    if row.NullRow? then Values([]) else Walk(step, cur, row.end, row.inc, row.Up(), inclusive)
  }

  /** What a row emits from a value on, and then the rows behind it. */
  ghost function RowAndBehind(step: Step, rows: seq<Row>, i: nat, cur: int, inclusive: bool): Values
    requires Monotone(step) && i < |rows| && Inside(rows[i], cur)
  {
    var row := RowFrom(step, rows[i], cur, inclusive);
    if row.Fails? then Fails else Behind(row.vals, Emits(step, rows, i + 1, inclusive, false))
  }

  lemma BehindRow(step: Step, rows: seq<Row>, i: nat, cur: int, vals: seq<int>, inclusive: bool)
    requires Monotone(step) && i < |rows| && Inside(rows[i], cur)
    ensures var row := Behind(vals, RowFrom(step, rows[i], cur, inclusive));
      Behind(vals, RowAndBehind(step, rows, i, cur, inclusive))
      == if row.Fails? then Fails else Behind(row.vals, Emits(step, rows, i + 1, inclusive, false))
  {
    var row := RowFrom(step, rows[i], cur, inclusive);
    if row.Values? {
      BehindBehind(vals, row.vals, Emits(step, rows, i + 1, inclusive, false));
    }
  }

  /** One value of a row, and the move to the next one. */
  lemma RowStep(step: Step, row: Row, cur: int, inclusive: bool)
    requires Monotone(step) && row.Row? && Inside(row, cur) && !Finished(cur, row.end, row.Up(), inclusive)
    ensures match step(cur, row.inc)
      case OutOfRange => RowFrom(step, row, cur, inclusive) == Fails
      case Ok(next) =>
        && Inside(row, next) && Distance(next, row.end, row.Up()) < Distance(cur, row.end, row.Up())
        && RowFrom(step, row, cur, inclusive) == Behind([cur], RowFrom(step, row, next, inclusive))
  {
  }

  class ICURangeLocalState {
    var initializedRow: bool
    var currentInputRow: nat
    var currentState: int
    var start: int
    var end: int
    var increment: Increment
    var inclusiveBound: bool
    var greaterThanCheck: bool
    var emptyRange: bool

    constructor ()
      ensures !initializedRow && currentInputRow == 0 && !emptyRange
    {
      initializedRow, currentInputRow, emptyRange := false, 0, false;
      currentState, start, end, increment := 0, 0, 0, Increment(0, 0, 0);
      inclusiveBound, greaterThanCheck := false, true;
    }

    predicate IsFinished(value: int)
      reads this
    {
      if greaterThanCheck then if inclusiveBound then value > end else value >= end
      else if inclusiveBound then value < end else value <= end
    }

    /** The parameters are those of a row. */
    ghost predicate Holds(row: Row, inclusive: bool)
      reads this
    {
      if row.NullRow? then greaterThanCheck && !inclusiveBound && start == end == 0
      else
        && Accepts(row) && start == row.start && end == row.end && increment == row.inc
        && greaterThanCheck == row.Up() && inclusiveBound == inclusive
    }

    /** Between calls: a row that was begun is not reversed, and its next value is known. */
    ghost predicate Valid(rows: seq<Row>, inclusive: bool)
      reads this
    {
      initializedRow ==>
        && !emptyRange && currentInputRow < |rows| && Holds(rows[currentInputRow], inclusive)
        && Inside(rows[currentInputRow], currentState)
    }

    /** What the row that was begun, and the rows behind it, have still to emit. */
    ghost function Remaining(step: Step, rows: seq<Row>, inclusive: bool): Values
      requires Monotone(step) && Valid(rows, inclusive)
      reads this
    {
      if initializedRow then RowAndBehind(step, rows, currentInputRow, currentState, inclusive)
      else if currentInputRow <= |rows| then Emits(step, rows, currentInputRow, inclusive, emptyRange)
      else Values([])
    }

    /** Whether later inputs will be silent. */
    ghost predicate WillBeSilent(rows: seq<Row>)
      reads this
    {
      || emptyRange
      || (currentInputRow < |rows| && AnyReversed(rows, currentInputRow + if initializedRow then 1 else 0))
    }

    /** Takes over the parameters of a row, or fails; a reversed row is never forgotten. */
    method GenerateRangeDateTimeParameters(row: Row, inclusive: bool) returns (ok: bool)
      modifies `start, `end, `increment, `greaterThanCheck, `inclusiveBound, `emptyRange
      ensures ok == Accepts(row)
      ensures ok ==> Holds(row, inclusive) && emptyRange == (old(emptyRange) || row.Reversed())
    {
      if row.NullRow? {
        start, end, increment := 0, 0, Increment(0, 0, 0);
        greaterThanCheck, inclusiveBound := true, false;
        return true;
      }
      start, end, increment := row.start, row.end, row.inc;
      if !IsFinite(start) || !IsFinite(end) {
        return false;
      }
      if increment.months == 0 && increment.days == 0 && increment.micros == 0 {
        return false;
      }
      if increment.Positive() {
        if increment.Negative() {
          return false;
        }
        greaterThanCheck := true;
        if start > end {
          emptyRange := true;
        }
      } else {
        greaterThanCheck := false;
        if start < end {
          emptyRange := true;
        }
      }
      inclusiveBound := inclusive;
      return true;
    }

    /** Begins the current row, or fails. */
    method InitializeRow(step: Step, rows: seq<Row>, inclusive: bool) returns (ok: bool)
      requires Monotone(step) && !initializedRow && currentInputRow < |rows|
      modifies this
      ensures !ok ==> old(Remaining(step, rows, inclusive)) == Fails
      ensures ok ==>
        && initializedRow && currentInputRow == old(currentInputRow) && Holds(rows[currentInputRow], inclusive)
        && Inside(rows[currentInputRow], currentState)
        && emptyRange == (old(emptyRange) || rows[currentInputRow].Reversed())
        && old(Remaining(step, rows, inclusive)) ==
          if emptyRange then Emits(step, rows, currentInputRow + 1, inclusive, true)
          else RowAndBehind(step, rows, currentInputRow, currentState, inclusive)
    {
      ok := GenerateRangeDateTimeParameters(rows[currentInputRow], inclusive);
      initializedRow := true;
      currentState := start;
    }
  }

  /** One batch of a row that was begun: values until the row is finished or the batch is full. */
  method FillBatch(state: ICURangeLocalState, step: Step, row: Row, inclusive: bool, output: array<int>)
    returns (size: nat, failed: bool)
    requires Monotone(step) && state.Holds(row, inclusive) && Inside(row, state.currentState) && 1 <= output.Length
    modifies state`currentState, output
    ensures size <= output.Length && Inside(row, state.currentState) && state.Holds(row, inclusive)
    ensures
      var before := RowFrom(step, row, old(state.currentState), inclusive);
      if failed then before == Fails
      else
        && before == Behind(output[..size], RowFrom(step, row, state.currentState, inclusive))
        && (size == 0 ==> before == Values([]))
        && (size != 0 ==>
            && row.Row?
            && Distance(state.currentState, row.end, row.Up()) < Distance(old(state.currentState), row.end, row.Up()))
  {
    size, failed := 0, false;
    ghost var before := RowFrom(step, row, state.currentState, inclusive);
    if state.IsFinished(state.currentState) {
      return;
    }
    hide RowFrom, Accepts;
    while true
      invariant size < output.Length && row.Row? && Inside(row, state.currentState) && state.Holds(row, inclusive)
      invariant before == Behind(output[..size], RowFrom(step, row, state.currentState, inclusive))
      invariant if size == 0 then state.currentState == old(state.currentState) && !state.IsFinished(state.currentState)
        else Distance(state.currentState, row.end, row.Up()) < Distance(old(state.currentState), row.end, row.Up())
      decreases output.Length - size
    {
      if state.IsFinished(state.currentState) {
        return;
      }
      ghost var cur := state.currentState;
      RowStep(step, row, cur, inclusive);
      output[size] := state.currentState;
      size := size + 1;
      match step(state.currentState, state.increment) {
        case OutOfRange => return size, true;
        case Ok(next) => state.currentState := next;
      }
      BehindBehind(output[..size - 1], [cur], RowFrom(step, row, state.currentState, inclusive));
      assert output[..size] == output[..size - 1] + [cur];
      if size >= output.Length {
        return;
      }
    }
  }

  /** What is ahead: the rows, whether the current one is still to begin, and how far it is to its end. */
  datatype Ahead = Ahead(rows: nat, unbegun: nat, distance: nat)

  ghost function Progress(state: ICURangeLocalState, rows: seq<Row>): Ahead
    reads state
  {
    var left := if state.currentInputRow <= |rows| then |rows| - state.currentInputRow else 0;
    if state.initializedRow then Ahead(left, 0, Distance(state.currentState, state.end, state.greaterThanCheck))
    else Ahead(left, 1, 0)
  }

  ghost predicate Less(a: Ahead, b: Ahead) {
    || a.rows < b.rows
    || (a.rows == b.rows && (a.unbegun < b.unbegun || (a.unbegun == b.unbegun && a.distance < b.distance)))
  }

  /** Goes on with the current row; `again` when it had nothing to emit. */
  method ContinueRow(state: ICURangeLocalState, step: Step, rows: seq<Row>, inclusive: bool, output: array<int>)
    returns (again: bool, code: Code, size: nat)
    requires Monotone(step) && state.Valid(rows, inclusive) && state.currentInputRow < |rows| && 1 <= output.Length
    modifies state, output
    ensures size <= output.Length
    ensures again ==>
      && state.Valid(rows, inclusive) && Progress(state, rows).rows < old(Progress(state, rows)).rows
      && state.WillBeSilent(rows) == old(state.WillBeSilent(rows))
      && state.Remaining(step, rows, inclusive) == old(state.Remaining(step, rows, inclusive))
    ensures !again ==> code != NEED_MORE_INPUT
    ensures !again && code == FAILED ==> old(state.Remaining(step, rows, inclusive)) == Fails
    ensures !again && code == HAVE_MORE_OUTPUT ==>
      && state.Valid(rows, inclusive) && Less(Progress(state, rows), old(Progress(state, rows)))
      && state.WillBeSilent(rows) == old(state.WillBeSilent(rows))
      && old(state.Remaining(step, rows, inclusive)) == Behind(output[..size], state.Remaining(step, rows, inclusive))
  {
    hide RowFrom, Accepts, Distance, Row.Reversed;
    var i := state.currentInputRow;
    if !state.initializedRow {
      var ok := state.InitializeRow(step, rows, inclusive);
      if !ok {
        return false, FAILED, 0;
      }
    }
    if state.emptyRange {
      state.currentInputRow := i + 1;
      state.initializedRow := false;
      return false, HAVE_MORE_OUTPUT, 0;
    }
    var failed;
    size, failed := FillBatch(state, step, rows[i], inclusive, output);
    if failed {
      return false, FAILED, 0;
    }
    if size != 0 {
      BehindRow(step, rows, i, state.currentState, output[..size], inclusive);
      return false, HAVE_MORE_OUTPUT, size;
    }
    state.currentInputRow := i + 1;
    state.initializedRow := false;
    again, code := true, HAVE_MORE_OUTPUT;
  }

  /** One call: a batch of values, the end of the rows, or a failure. */
  method ICUTableRangeFunction(state: ICURangeLocalState, step: Step, rows: seq<Row>, inclusive: bool,
                               output: array<int>)
    returns (code: Code, size: nat)
    requires Monotone(step) && state.Valid(rows, inclusive) && 1 <= output.Length
    modifies state, output
    ensures size <= output.Length
    ensures code == FAILED ==> old(state.Remaining(step, rows, inclusive)) == Fails
    ensures code == HAVE_MORE_OUTPUT ==>
      && state.Valid(rows, inclusive) && Less(Progress(state, rows), old(Progress(state, rows)))
      && state.WillBeSilent(rows) == old(state.WillBeSilent(rows))
      && old(state.Remaining(step, rows, inclusive)) == Behind(output[..size], state.Remaining(step, rows, inclusive))
    ensures code == NEED_MORE_INPUT ==>
      && size == 0 && !state.initializedRow && state.currentInputRow == 0
      && state.emptyRange == old(state.WillBeSilent(rows))
      && old(state.Remaining(step, rows, inclusive)) == Values([])
  {
    ghost var progress := Progress(state, rows);
    while state.initializedRow || state.currentInputRow < |rows|
      invariant state.Valid(rows, inclusive) && state.WillBeSilent(rows) == old(state.WillBeSilent(rows))
      invariant state.Remaining(step, rows, inclusive) == old(state.Remaining(step, rows, inclusive))
      invariant Progress(state, rows) == progress || Progress(state, rows).rows < progress.rows
      decreases Progress(state, rows).rows
    {
      var again;
      again, code, size := ContinueRow(state, step, rows, inclusive, output);
      if !again {
        return;
      }
    }
    state.currentInputRow := 0;
    code, size := NEED_MORE_INPUT, 0;
  }

  /** All the batches for some rows, as the engine asks for them. */
  method Drain(state: ICURangeLocalState, step: Step, rows: seq<Row>, inclusive: bool, vectorSize: nat)
    returns (batches: seq<seq<int>>, failed: bool)
    requires Monotone(step) && !state.initializedRow && state.currentInputRow == 0 && 1 <= vectorSize
    modifies state
    ensures forall b | b in batches :: |b| <= vectorSize
    ensures var all := Emits(step, rows, 0, inclusive, old(state.emptyRange));
      if failed then all == Fails
      else
        && all == Values(Joined(batches)) && !state.initializedRow && state.currentInputRow == 0
        && state.emptyRange == (old(state.emptyRange) || AnyReversed(rows, 0))
  {
    ghost var all := state.Remaining(step, rows, inclusive);
    var output := new int[vectorSize];
    batches, failed := [], false;
    while true
      invariant state.Valid(rows, inclusive) && fresh(output) && output.Length == vectorSize
      invariant forall b | b in batches :: |b| <= vectorSize
      invariant state.WillBeSilent(rows) == (old(state.emptyRange) || AnyReversed(rows, 0))
      invariant all == Behind(Joined(batches), state.Remaining(step, rows, inclusive))
      decreases Progress(state, rows).rows, Progress(state, rows).unbegun, Progress(state, rows).distance
    {
      var code, size := ICUTableRangeFunction(state, step, rows, inclusive, output);
      if code == FAILED {
        return batches, true;
      }
      if code == NEED_MORE_INPUT {
        return batches, false;
      }
      JoinedAppend(batches, output[..size]);
      BehindBehind(Joined(batches), output[..size], state.Remaining(step, rows, inclusive));
      batches := batches + [output[..size]];
    }
  }

  ghost function Joined(batches: seq<seq<int>>): seq<int> {
    if batches == [] then [] else Joined(batches[..|batches| - 1]) + batches[|batches| - 1]
  }

  lemma JoinedAppend(batches: seq<seq<int>>, batch: seq<int>)
    ensures Joined(batches + [batch]) == Joined(batches) + batch
  {
    assert (batches + [batch])[..|batches|] == batches;
  }
}

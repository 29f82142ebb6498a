/** What the table function emits is what the list function builds, up to the first reversed row. */
module RangeRuns {
  import opened Timestamps
  import opened RangeSpec

  lemma {:induction false} LimitedIsWalk(step: Step, cur: int, end: int, inc: Increment, up: bool, inclusive: bool,
                                         n: nat)
    requires Monotone(step) && OneWay(inc, up) && IsFinite(cur)
    ensures Limited(step, cur, end, inc, up, inclusive, n) ==
      match Walk(step, cur, end, inc, up, inclusive)
      case Fails => Fails
      case Values(vals) => if |vals| <= n then Values(vals) else Fails
    decreases n
  {
    if !Finished(cur, end, up, inclusive) && step(cur, inc).Ok? {
      var next := step(cur, inc).ts;
      if n != 0 {
        LimitedIsWalk(step, next, end, inc, up, inclusive, n - 1);
      }
    }
  }

  /** A row that the table function accepts has the same values in a list, unless the list would be too long. */
  lemma RowIsList(step: Step, row: Row, inclusive: bool)
    requires Monotone(step) && Accepts(row)
    ensures ListOf(step, row, inclusive) ==
      match RowValues(step, row, inclusive)
      case Fails => Fails
      case Values(vals) => if |vals| <= MAX_LIST then Values(vals) else Fails
  {
    if row.Row? && !row.Reversed() {
      LimitedIsWalk(step, row.start, row.end, row.inc, row.Up(), inclusive, MAX_LIST);
    }
  }

  /** The one row that only the list function accepts: an interval of zero, which gives an empty list. */
  lemma AcceptsExactlyWhen(step: Step, row: Row, inclusive: bool)
    requires ListOf(step, row, inclusive).Values?
    ensures Accepts(row) <==> row.NullRow? || row.inc != Increment(0, 0, 0)
    ensures !Accepts(row) ==> ListOf(step, row, inclusive) == Values([])
  {
  }

  ghost predicate Listed(step: Step, rows: seq<Row>, inclusive: bool) {
    forall i | 0 <= i < |rows| :: Accepts(rows[i]) && ListOf(step, rows[i], inclusive).Values?
  }

  /** The lists of the rows `i` to `n`, one behind the other. */
  ghost function JoinedLists(step: Step, rows: seq<Row>, i: nat, n: nat, inclusive: bool): seq<int>
    requires Listed(step, rows, inclusive) && i <= n <= |rows|
    decreases n - i
  {
    if i == n then [] else ListOf(step, rows[i], inclusive).vals + JoinedLists(step, rows, i + 1, n, inclusive)
  }

  lemma {:induction false} SilentEmitsNothing(step: Step, rows: seq<Row>, i: nat, inclusive: bool)
    requires Monotone(step) && Listed(step, rows, inclusive) && i <= |rows|
    ensures Emits(step, rows, i, inclusive, true) == Values([])
    decreases |rows| - i
  {
    if i < |rows| {
      SilentEmitsNothing(step, rows, i + 1, inclusive);
    }
  }

  /** Main result: the table emits the lists of the rows before the first reversed row, and nothing else. */
  lemma {:induction false} TableIsListsBeforeReversed(step: Step, rows: seq<Row>, i: nat, k: nat, inclusive: bool)
    requires Monotone(step) && Listed(step, rows, inclusive) && i <= k <= |rows|
    requires (forall j | i <= j < k :: !rows[j].Reversed()) && (k < |rows| ==> rows[k].Reversed())
    ensures Emits(step, rows, i, inclusive, false) == Values(JoinedLists(step, rows, i, k, inclusive))
    decreases k - i
  {
    hide RowValues, ListOf;
    if i < k {
      RowIsList(step, rows[i], inclusive);
      TableIsListsBeforeReversed(step, rows, i + 1, k, inclusive);
    } else if k < |rows| {
      SilentEmitsNothing(step, rows, k + 1, inclusive);
    }
  }

  lemma {:induction false} JoinedListsSplit(step: Step, rows: seq<Row>, i: nat, k: nat, inclusive: bool)
    requires Listed(step, rows, inclusive) && i <= k <= |rows|
    ensures JoinedLists(step, rows, i, |rows|, inclusive)
      == JoinedLists(step, rows, i, k, inclusive) + JoinedLists(step, rows, k, |rows|, inclusive)
    decreases k - i
  {
    hide ListOf, Listed;
    if i < k {
      JoinedListsSplit(step, rows, i + 1, k, inclusive);
    }
  }

  lemma {:induction false} JoinedListsEmpty(step: Step, rows: seq<Row>, k: nat, inclusive: bool)
    requires Listed(step, rows, inclusive) && k <= |rows|
    ensures JoinedLists(step, rows, k, |rows|, inclusive) == []
      <==> forall j | k <= j < |rows| :: ListOf(step, rows[j], inclusive).vals == []
    decreases |rows| - k
  {
    hide ListOf, Listed;
    if k < |rows| {
      JoinedListsEmpty(step, rows, k + 1, inclusive);
    }
  }

  /** Main result: the table emits all the lists exactly when no row behind the first reversed one has values. */
  lemma TableIsAllListsExactlyWhen(step: Step, rows: seq<Row>, k: nat, inclusive: bool)
    requires Monotone(step) && Listed(step, rows, inclusive) && k <= |rows|
    requires (forall j | 0 <= j < k :: !rows[j].Reversed()) && (k < |rows| ==> rows[k].Reversed())
    ensures Emits(step, rows, 0, inclusive, false) == Values(JoinedLists(step, rows, 0, |rows|, inclusive))
      <==> forall j | k <= j < |rows| :: ListOf(step, rows[j], inclusive).vals == []
  {
    hide ListOf, Listed, Emits, JoinedLists;
    TableIsListsBeforeReversed(step, rows, 0, k, inclusive);
    JoinedListsSplit(step, rows, 0, k, inclusive);
    JoinedListsEmpty(step, rows, k, inclusive);
  }

  /** Without reversed rows the two functions always agree. */
  lemma TableIsAllLists(step: Step, rows: seq<Row>, inclusive: bool)
    requires Monotone(step) && Listed(step, rows, inclusive) && forall j | 0 <= j < |rows| :: !rows[j].Reversed()
    ensures Emits(step, rows, 0, inclusive, false) == Values(JoinedLists(step, rows, 0, |rows|, inclusive))
  {
    TableIsAllListsExactlyWhen(step, rows, |rows|, inclusive);
  }

  /** Rows that come in two inputs emit what they emit in one; the second input knows of reversed rows in the first. */
  lemma {:induction false} InputsFollowEachOther(step: Step, first: seq<Row>, second: seq<Row>, i: nat, inclusive: bool,
                                                 silent: bool)
    requires Monotone(step) && i <= |first|
    ensures Emits(step, first + second, i, inclusive, silent) ==
      match Emits(step, first, i, inclusive, silent)
      case Fails => Fails
      case Values(vals) => Behind(vals, Emits(step, second, 0, inclusive, silent || AnyReversed(first, i)))
    decreases |first| - i
  {
    hide RowValues;
    if i == |first| {
      SecondInput(step, first, second, 0, inclusive, silent);
    } else {
      InputsFollowEachOther(step, first, second, i + 1, inclusive, silent || first[i].Reversed());
      assert (first + second)[i] == first[i];
      if Accepts(first[i]) && RowValues(step, first[i], inclusive).Values? {
        var vals := RowValues(step, first[i], inclusive).vals;
        var later := Emits(step, first, i + 1, inclusive, silent || first[i].Reversed());
        if later.Values? {
          BehindBehind(vals, later.vals, Emits(step, second, 0, inclusive, silent || AnyReversed(first, i)));
        }
      }
    }
  }

  lemma BehindBehind(a: seq<int>, b: seq<int>, later: Values)
    ensures Behind(a, Behind(b, later)) == Behind(a + b, later)
  {
    if later.Values? {
      assert a + (b + later.vals) == a + b + later.vals;
    }
  }

  lemma {:induction false} SecondInput(step: Step, first: seq<Row>, second: seq<Row>, i: nat, inclusive: bool,
                                       silent: bool)
    requires Monotone(step) && i <= |second|
    ensures Emits(step, first + second, |first| + i, inclusive, silent) == Emits(step, second, i, inclusive, silent)
    decreases |second| - i
  {
    hide RowValues;
    if i < |second| {
      assert (first + second)[|first| + i] == second[i];
      SecondInput(step, first, second, i + 1, inclusive, silent || second[i].Reversed());
    }
  }

  // ---------------------------------------------------------------- whole ranges

  /** A value before the end, in the direction of the interval, or on it if the end belongs to the range. */
  predicate Within(v: int, end: int, up: bool, inclusive: bool) {
    (if up then v < end else end < v) || (inclusive && v == end)
  }

  predicate GoesUp(inc: Increment) {
    inc.months > 0 || inc.days > 0 || inc.micros > 0
  }

  /** The values start where the row does, follow each other by steps, and leave out none before the end. */
  ghost predicate WholeRange(step: Step, start: int, end: int, inc: Increment, up: bool, inclusive: bool,
                             vals: seq<int>) {
    && (vals == [] <==> !Within(start, end, up, inclusive))
    && (vals != [] ==>
        && vals[0] == start && step(vals[|vals| - 1], inc).Ok?
        && !Within(step(vals[|vals| - 1], inc).ts, end, up, inclusive))
    && forall k | 0 <= k < |vals| ::
       Within(vals[k], end, up, inclusive) && (k + 1 < |vals| ==> step(vals[k], inc) == Ok(vals[k + 1]))
  }

  lemma {:induction false} LimitedIsWhole(step: Step, cur: int, end: int, inc: Increment, up: bool, inclusive: bool,
                                          n: nat)
    requires Limited(step, cur, end, inc, up, inclusive, n).Values?
    ensures WholeRange(step, cur, end, inc, up, inclusive, Limited(step, cur, end, inc, up, inclusive, n).vals)
    decreases n
  {
    if Within(cur, end, up, inclusive) {
      var next := step(cur, inc).ts;
      var later := Limited(step, next, end, inc, up, inclusive, n - 1);
      LimitedIsWhole(step, next, end, inc, up, inclusive, n - 1);
      WholeBehind(step, cur, end, inc, up, inclusive, later.vals);
      hide WholeRange;
    }
  }

  lemma WholeBehind(step: Step, cur: int, end: int, inc: Increment, up: bool, inclusive: bool, later: seq<int>)
    requires Within(cur, end, up, inclusive) && step(cur, inc).Ok?
    requires WholeRange(step, step(cur, inc).ts, end, inc, up, inclusive, later)
    ensures WholeRange(step, cur, end, inc, up, inclusive, [cur] + later)
  {
    var vals := [cur] + later;
    forall k | 0 <= k < |vals|
      ensures Within(vals[k], end, up, inclusive) && (k + 1 < |vals| ==> step(vals[k], inc) == Ok(vals[k + 1]))
    {
      if k != 0 {
        assert vals[k] == later[k - 1];
      }
    }
    if later != [] {
      assert vals[|vals| - 1] == later[|later| - 1];
    }
  }

  lemma WalkIsWhole(step: Step, cur: int, end: int, inc: Increment, up: bool, inclusive: bool)
    requires Monotone(step) && OneWay(inc, up) && IsFinite(cur) && Walk(step, cur, end, inc, up, inclusive).Values?
    ensures WholeRange(step, cur, end, inc, up, inclusive, Walk(step, cur, end, inc, up, inclusive).vals)
  {
    var n := |Walk(step, cur, end, inc, up, inclusive).vals|;
    LimitedIsWalk(step, cur, end, inc, up, inclusive, n);
    LimitedIsWhole(step, cur, end, inc, up, inclusive, n);
  }

  /** Main result: the list of a row with an interval is its whole range, end included or not; a zero interval gives an
      empty list. */
  lemma ListIsWholeRange(step: Step, row: Row, inclusive: bool)
    requires row.Row? && ListOf(step, row, inclusive).Values?
    ensures var vals, up := ListOf(step, row, inclusive).vals, GoesUp(row.inc);
      if row.inc == Increment(0, 0, 0) then vals == []
      else WholeRange(step, row.start, row.end, row.inc, up, inclusive, vals)
  {
    if row.inc != Increment(0, 0, 0) && !row.Reversed() {
      LimitedIsWhole(step, row.start, row.end, row.inc, row.Up(), inclusive, MAX_LIST);
    }
    hide Limited;
  }

  /** A list fails for bounds that are not finite and for intervals that point both ways. */
  lemma ListNeedsBounds(step: Step, row: Row, inclusive: bool)
    requires row.Row? && row.inc != Increment(0, 0, 0)
    requires || row.start == INT64_MAX || row.end == INT64_MAX || row.start == -INT64_MAX || row.end == -INT64_MAX
             || (row.inc.months > 0 && (row.inc.days < 0 || row.inc.micros < 0))
             || (row.inc.days > 0 && (row.inc.months < 0 || row.inc.micros < 0))
             || (row.inc.micros > 0 && (row.inc.months < 0 || row.inc.days < 0))
    ensures ListOf(step, row, inclusive) == Fails
  {
  }

  /** Otherwise a row fails only when the calendar does. */
  lemma {:induction false} WalkFailsByStep(step: Step, cur: int, end: int, inc: Increment, up: bool, inclusive: bool)
    requires Monotone(step) && OneWay(inc, up) && IsFinite(cur) && forall ts :: step(ts, inc).Ok?
    ensures Walk(step, cur, end, inc, up, inclusive).Values?
    decreases Distance(cur, end, up)
  {
    if !Finished(cur, end, up, inclusive) {
      WalkFailsByStep(step, step(cur, inc).ts, end, inc, up, inclusive);
    }
  }

  /** The values of some rows, one row behind the other. */
  ghost function JoinedRows(ranges: seq<seq<int>>): seq<int> {
    if ranges == [] then [] else ranges[0] + JoinedRows(ranges[1..])
  }

  /** Main result on the table function: without reversed rows it emits the whole range of every row, row after row. */
  lemma {:induction false} TableEmitsWholeRanges(step: Step, rows: seq<Row>, i: nat, inclusive: bool)
      returns (ranges: seq<seq<int>>)
    requires Monotone(step) && i <= |rows| && Emits(step, rows, i, inclusive, false).Values?
    requires forall j | i <= j < |rows| :: !rows[j].Reversed()
    ensures |ranges| == |rows| - i && Emits(step, rows, i, inclusive, false) == Values(JoinedRows(ranges))
    ensures forall j | i <= j < |rows| ::
      var row, vals := rows[j], ranges[j - i];
      if row.NullRow? then vals == []
      else WholeRange(step, row.start, row.end, row.inc, GoesUp(row.inc), inclusive, vals)
    decreases |rows| - i
  {
    hide WholeRange, Walk;
    if i == |rows| {
      ranges := [];
    } else {
      var later := TableEmitsWholeRanges(step, rows, i + 1, inclusive);
      var vals := RowValues(step, rows[i], inclusive).vals;
      ranges := [vals] + later;
      assert ranges[1..] == later;
      if rows[i].Row? {
        WalkIsWhole(step, rows[i].start, rows[i].end, rows[i].inc, rows[i].Up(), inclusive);
      }
    }
  }
}

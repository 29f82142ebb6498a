/** Scrolling with bound columns over the held result. */
module BoundScroll {
  import opened Common
  import opened Multiples
  import opened HeldCursor
  import opened FetchSpec
  import opened FetchRuns
  import opened MaterializeRuns
  import opened ValueParts
  import opened BoundColumns
  import opened BoundRuns

  predicate NoNulls<T>(columns: seq<Column<T>>, rows: seq<T>) {
    forall c, i | 0 <= c < |columns| && 0 <= i < |rows| && columns[c].Text? :: columns[c].value(rows[i]).Some?
  }

  /** A single column is text and not NULL in a row. */
  predicate Alone<T>(columns: seq<Column<T>>, x: T) {
    FinalRead(columns, |columns|, x).Some? && FinalRead(columns, |columns|, x) == FirstRead(columns, |columns|, x)
  }

  lemma {:induction false} SameTexts<T>(columns: seq<Column<T>>, k: nat, rows: seq<T>, i: nat, j: nat)
    requires k <= |columns| && NoNulls(columns, rows) && i < |rows| && j < |rows|
    ensures FirstRead(columns, k, rows[i]) == FirstRead(columns, k, rows[j])
    ensures FinalRead(columns, k, rows[i]) == FinalRead(columns, k, rows[j])
  {
    if k != 0 {
      SameTexts(columns, k - 1, rows, i, j);
    }
  }

  /** Without NULLs every row of a rowset but the first is behind the last read. */
  lemma {:induction false} RowsetIsFresh<T>(columns: seq<Column<T>>, chunk: seq<T>, from: nat, n: nat, last: LastRead)
    requires from + n <= |chunk| && NoNulls(columns, chunk) && 1 <= n && StartsFresh(columns, last, from, chunk[from])
    ensures var (after, shown) := ReadRows(columns, chunk, from, n, last);
      && shown == FreshRows(columns, chunk[from..from + n])
      && match FinalRead(columns, |columns|, chunk[from])
         case None => after == last
         case Some(c) =>
           after == ReadCell(columns[c], NOTHING_READ, c, from + n - 1, chunk[from + n - 1]).0
           && after.col == c && after.row == from + n - 1
  {
    hide ReadCells, ReadCell, Fresh, FinalRead, FirstRead;
    var before := ReadRows(columns, chunk, from, n - 1, last).0;
    var x := chunk[from + n - 1];
    if 1 < n {
      RowsetIsFresh(columns, chunk, from, n - 1, last);
    }
    SameTexts(columns, |columns|, chunk, from, from + n - 1);
    RowIsFresh(columns, before, from + n - 1, x);
    assert chunk[from..from + n] == chunk[from..from + n - 1] + [x];
  }

  /** A call on the held result reads the columns of the rows that it moves over, with the progress from before it. */
  predicate ReadsAtCursor<T(==)>(s: Fetcher<T>, columns: seq<Column<T>>, s1: Fetcher<T>, shown: seq<ShownRow<T>>)
    requires HoldsAll(s1)
  {
    if shown == [] then s1.last == s.last
    else
      && s1.chunks != [] && |shown| <= s1.row + 1
      && (s1.last, shown) == ReadRows(columns, s1.current.value, s1.row + 1 - |shown|, |shown|, s.last)
  }

  /** The rows at the positions of an outcome, with the code of their cells. */
  predicate ShowsRows<T(==)>(chunks: seq<seq<T>>, out: Outcome, ret: SqlReturn, shown: seq<ShownRow<T>>) {
    match out
    case NoData => ret == SqlNoData && shown == []
    case Rowset(start, count) =>
      && ret == Code(shown) && start + count <= |Flat(chunks, |chunks|)|
      && RowsOf(shown) == Flat(chunks, |chunks|)[start..start + count]
  }

  lemma MoveKeepsRead<T>(s: Fetcher<T>, op: Op, r: nat)
    requires HoldsAll(s) && 1 <= r
    ensures MoveTo(s, op, r).0.last == s.last
  {
  }

  lemma ReadColumnsAtCursor<T>(s: Fetcher<T>, r: nat, columns: seq<Column<T>>)
    requires s.current.Some? && -1 <= s.row && columns != []
    ensures var (s1, ret, shown) := ReadColumns(s, r, columns);
      if shown == [] then s1.last == s.last
      else
        && |shown| <= s1.row + 1 <= |s.current.value|
        && (s1.last, shown) == ReadRows(columns, s.current.value, s1.row + 1 - |shown|, |shown|, s.last)
  {
  }

  lemma HeldColumns<T>(s: Fetcher<T>, op: Op, r: nat, columns: seq<Column<T>>)
    requires HoldsAll(s) && 1 <= r && columns != []
    ensures var (s1, ret, shown) := FetchColumns(s, op, r, columns); var sizes := SizesOf(s.chunks);
      && Sizes(sizes) && InRange(sizes, PositionOf(s)) && HoldsAll(s1) && s1.chunks == s.chunks
      && ReadsAtCursor(s, columns, s1, shown)
      && var (h1, out) := Step(sizes, r, PositionOf(s), op);
         && PositionOf(s1) == h1
         && ShowsRows(s.chunks, out, ret, shown)
  {
    hide Step, Flat, ReadRows, Code;
    HeldFetch(s, op, r);
    MoveKeepsRead(s, op, r);
    ColumnsFollowRows(s, op, r, columns);
    var (s1, ret) := MoveTo(s, op, r);
    if ret == SqlSuccess {
      ReadColumnsAtCursor(s1, r, columns);
    }
    assert RowsOf(FetchColumns(s, op, r, columns).2) == Fetch(s, op, r, Bound).2;
  }

  /** What was read last, after a call that shows rows. */
  lemma HeldKeepsPlace<T>(s: Fetcher<T>, op: Op, r: nat, columns: seq<Column<T>>)
    requires HoldsAll(s) && 1 <= r && columns != [] && FetchColumns(s, op, r, columns).2 != []
    ensures var (s1, ret, shown) := FetchColumns(s, op, r, columns);
      LeavesPlace(columns, s1.row, shown, s.last, s1.last)
  {
    hide FetchColumns, ReadRows, Step, Offset, LeavesPlace, ShowsRows;
    HeldColumns(s, op, r, columns);
    var (s1, ret, shown) := FetchColumns(s, op, r, columns);
    RowsKeepPlace(columns, s1.current.value, s1.row + 1 - |shown|, |shown|, s.last);
  }

  // ---------------------------------------------------------------- aligned chunks

  /** The text read last ends a rowset of its chunk, or nothing of it was returned. */
  predicate EndsRowset<T>(columns: seq<Column<T>>, r: nat, last: LastRead, x: T)
    requires 1 <= r
  {
    last.length != 0 ==> (last.row + 1) % r == 0 && ReadLast(columns, last, x)
  }

  /** A call on aligned chunks shows a whole rowset or nothing. */
  lemma AlignedRowset(sizes: seq<nat>, r: nat, h: Held, p: Position, op: Op)
    requires Sizes(sizes) && 1 <= r && Aligned(sizes, r)
    requires InRange(sizes, h) && Related(sizes, r, h, p) && (p.At? ==> p.start < Total(sizes))
    ensures var (h1, out) := Step(sizes, r, h, op);
      && InRange(sizes, h1)
      && (out.Rowset? ==>
          && h1.idx < |sizes| && out.count == r <= h1.row + 1
          && (h1.row + 1 - r) % r == 0 && (h1.row + 1) % r == 0)
  {
    hide Step, RefStep;
    StepKeepsRelated(sizes, r, h, p, op);
    StepInRange(sizes, r, h, op);
    RefShowsAt(Total(sizes), r, p, op);
    var (h1, out) := Step(sizes, r, h, op);
    if out.Rowset? {
      MultipleShift(h1.prior + 1, r);
      OffsetMonotone(sizes, h1.idx + 1, |sizes|);
    }
  }

  lemma RefShowsAt(n: nat, r: nat, p: Position, op: Op)
    requires 1 <= r && (p.At? ==> p.start < n)
    ensures var (p1, out) := RefStep(n, r, p, op);
      && (out.Rowset? ==> p1 == At(out.start) && out.count == Min(r, n - out.start))
      && (p1.At? ==> p1.start < n)
  {
  }

  /** Every row of a chunk has the texts of the first row of all. */
  lemma RowTexts<T>(columns: seq<Column<T>>, chunks: seq<seq<T>>, i: nat, k: nat)
    requires i < |chunks| && k < |chunks[i]| && NoNulls(columns, Flat(chunks, |chunks|))
    ensures Flat(chunks, |chunks|) != []
    ensures var x0, x := Flat(chunks, |chunks|)[0], chunks[i][k];
      && FirstRead(columns, |columns|, x) == FirstRead(columns, |columns|, x0)
      && FinalRead(columns, |columns|, x) == FinalRead(columns, |columns|, x0)
    ensures forall c | 0 <= c < |columns| && columns[c].Text? :: columns[c].value(chunks[i][k]).Some?
  {
    hide Flat, Offset, FirstRead, FinalRead;
    var flat, o := Flat(chunks, |chunks|), Offset(SizesOf(chunks), i);
    FlatRow(chunks, i, k);
    SameTexts(columns, |columns|, flat, o + k, 0);
    assert flat[o + k] == chunks[i][k];
  }

  lemma ChunkTexts<T>(columns: seq<Column<T>>, chunks: seq<seq<T>>, i: nat)
    requires i < |chunks| && chunks[i] != [] && NoNulls(columns, Flat(chunks, |chunks|))
    ensures Flat(chunks, |chunks|) != [] && NoNulls(columns, chunks[i])
    ensures var x0 := Flat(chunks, |chunks|)[0];
      forall x | x in chunks[i] ::
        && FirstRead(columns, |columns|, x) == FirstRead(columns, |columns|, x0)
        && FinalRead(columns, |columns|, x) == FinalRead(columns, |columns|, x0)
  {
    hide Flat, FirstRead, FinalRead;
    RowTexts(columns, chunks, i, 0);
    var x0 := Flat(chunks, |chunks|)[0];
    forall c, k | 0 <= c < |columns| && 0 <= k < |chunks[i]| && columns[c].Text?
      ensures columns[c].value(chunks[i][k]).Some?
    {
      RowTexts(columns, chunks, i, k);
    }
    forall x | x in chunks[i]
      ensures FirstRead(columns, |columns|, x) == FirstRead(columns, |columns|, x0)
      ensures FinalRead(columns, |columns|, x) == FinalRead(columns, |columns|, x0)
    {
      var k :| 0 <= k < |chunks[i]| && chunks[i][k] == x;
      RowTexts(columns, chunks, i, k);
    }
  }

  /** No text of the row after a rowset boundary is left over. */
  lemma BoundaryStartsFresh<T>(columns: seq<Column<T>>, r: nat, last: LastRead, row: nat, x: T, x0: T)
    requires 1 <= r && row % r == 0 && EndsRowset(columns, r, last, x0) && (Alone(columns, x0) ==> 2 <= r)
    requires FirstRead(columns, |columns|, x) == FirstRead(columns, |columns|, x0)
    ensures StartsFresh(columns, last, row, x)
  {
    hide FirstRead, FinalRead;
    if last.length != 0 && last.row == row {
      MultipleGap(row, row + 1, r);
    }
  }

  /** No text is NULL, and what was read last does not continue in a rowset. */
  predicate Apart<T(==)>(s: Fetcher<T>, r: nat, columns: seq<Column<T>>)
    requires 1 <= r
  {
    var flat := Flat(s.chunks, |s.chunks|);
    NoNulls(columns, flat)
      && (flat != [] ==> EndsRowset(columns, r, s.last, flat[0]) && (Alone(columns, flat[0]) ==> 2 <= r))
  }

  lemma WholeRowsetIsFresh<T>(s: Fetcher<T>, s1: Fetcher<T>, r: nat, columns: seq<Column<T>>, shown: seq<ShownRow<T>>)
    requires 1 <= r && Apart(s, r, columns) && HoldsAll(s1) && s1.chunks == s.chunks
    requires ReadsAtCursor(s, columns, s1, shown)
    requires shown != [] ==> |shown| == r && (s1.row + 1 - r) % r == 0 && (s1.row + 1) % r == 0
    ensures shown == FreshRows(columns, RowsOf(shown)) && Apart(s1, r, columns)
  {
    hide Flat, FirstRead, FinalRead, Fresh, ReadRows;
    if shown != [] {
      ChunkTexts(columns, s.chunks, s1.idx);
      var from, x0 := s1.row + 1 - r, Flat(s.chunks, |s.chunks|)[0];
      BoundaryStartsFresh(columns, r, s.last, from, s1.current.value[from], x0);
      RowsetIsFresh(columns, s1.current.value, from, r, s.last);
      assert RowsOf(shown) == s1.current.value[from..from + r];
    }
  }

  /** What every run over aligned chunks keeps. */
  predicate Scrolling<T(==)>(s: Fetcher<T>, r: nat, columns: seq<Column<T>>, p: Position)
    requires HoldsAll(s) && 1 <= r
  {
    var sizes := SizesOf(s.chunks);
    && Sizes(sizes) && Aligned(sizes, r) && InRange(sizes, PositionOf(s)) && Related(sizes, r, PositionOf(s), p)
    && (p.At? ==> p.start < Total(sizes)) && Apart(s, r, columns)
  }

  lemma ScrollKeepsFresh<T>(s: Fetcher<T>, op: Op, r: nat, columns: seq<Column<T>>, p: Position)
    requires HoldsAll(s) && 1 <= r && columns != [] && Scrolling(s, r, columns, p)
    ensures var (s1, ret, shown) := FetchColumns(s, op, r, columns);
      var (p1, out) := RefStep(Total(SizesOf(s.chunks)), r, p, op);
      && HoldsAll(s1) && s1.chunks == s.chunks && Scrolling(s1, r, columns, p1)
      && ShowsRows(s.chunks, out, ret, shown) && shown == FreshRows(columns, RowsOf(shown))
  {
    hide FetchColumns, Step, RefStep, Flat, Offset, Related, Aligned, FreshRows, Apart, ReadsAtCursor;
    var sizes := SizesOf(s.chunks);
    HeldColumns(s, op, r, columns);
    StepKeepsRelated(sizes, r, PositionOf(s), p, op);
    AlignedRowset(sizes, r, PositionOf(s), p, op);
    RefShowsAt(Total(sizes), r, p, op);
    var (s1, ret, shown) := FetchColumns(s, op, r, columns);
    WholeRowsetIsFresh(s, s1, r, columns, shown);
  }

  // ---------------------------------------------------------------- runs

  function ScrollColumns<T>(s: Fetcher<T>, r: nat, ops: seq<Op>, columns: seq<Column<T>>): (s1: Fetcher<T>)
    requires Ready(s) && 1 <= r
    ensures Ready(s1)
  {
    if ops == [] then s else FetchColumns(ScrollColumns(s, r, ops[..|ops| - 1], columns), ops[|ops| - 1], r, columns).0
  }

  /** After the calls `ops`, the call `op` shows what the flat cursor of SQLFetchScroll shows, every cell from its
      start. */
  predicate ShowsFlat<T(==)>(s: Fetcher<T>, r: nat, columns: seq<Column<T>>, ops: seq<Op>, op: Op)
    requires Ready(s) && 1 <= r
  {
    var (s1, ret, shown) := FetchColumns(ScrollColumns(s, r, ops, columns), op, r, columns);
    && ShowsRows(s.chunks, RefSeen(Total(SizesOf(s.chunks)), r, ops, op), ret, shown)
    && shown == FreshRows(columns, RowsOf(shown))
  }

  /** No run shows a difference from the flat cursor. */
  ghost predicate AlwaysShowsFlat<T>(s: Fetcher<T>, r: nat, columns: seq<Column<T>>)
    requires Ready(s) && 1 <= r
  {
    forall ops, op :: ShowsFlat(s, r, columns, ops, op)
  }

  lemma {:induction false} ScrollingRun<T>(s: Fetcher<T>, r: nat, columns: seq<Column<T>>, ops: seq<Op>)
    requires HoldsAll(s) && PositionOf(s) == BEFORE_FIRST && 1 <= r && columns != []
    requires Scrolling(s, r, columns, BeforeStart)
    ensures var s1 := ScrollColumns(s, r, ops, columns);
      HoldsAll(s1) && s1.chunks == s.chunks && Scrolling(s1, r, columns, RefRun(Total(SizesOf(s.chunks)), r, ops))
  {
    hide FetchColumns, RefStep, Flat, Scrolling, FreshRows, ShowsRows;
    if ops != [] {
      var before := ops[..|ops| - 1];
      ScrollingRun(s, r, columns, before);
      ScrollKeepsFresh(ScrollColumns(s, r, before, columns), ops[|ops| - 1], r, columns,
        RefRun(Total(SizesOf(s.chunks)), r, before));
    }
  }

  lemma AlignedShowsFlat<T>(s: Fetcher<T>, r: nat, columns: seq<Column<T>>, ops: seq<Op>, op: Op)
    requires HoldsAll(s) && PositionOf(s) == BEFORE_FIRST && 1 <= r && columns != []
    requires Scrolling(s, r, columns, BeforeStart)
    ensures ShowsFlat(s, r, columns, ops, op)
  {
    hide FetchColumns, RefStep, Flat, Scrolling, FreshRows, ShowsRows;
    ScrollingRun(s, r, columns, ops);
    ScrollKeepsFresh(ScrollColumns(s, r, ops, columns), op, r, columns, RefRun(Total(SizesOf(s.chunks)), r, ops));
  }

  /** Bound columns do not change where a run goes. */
  lemma {:induction false} ScrollColumnsSteps<T>(s: Fetcher<T>, r: nat, columns: seq<Column<T>>, ops: seq<Op>)
    requires HoldsAll(s) && PositionOf(s) == BEFORE_FIRST && 1 <= r && columns != []
    ensures Sizes(SizesOf(s.chunks))
    ensures var s1 := ScrollColumns(s, r, ops, columns);
      HoldsAll(s1) && s1.chunks == s.chunks && PositionOf(s1) == Run(SizesOf(s.chunks), r, ops)
  {
    hide FetchColumns, Step, ReadsAtCursor, ShowsRows;
    if ops != [] {
      ScrollColumnsSteps(s, r, columns, ops[..|ops| - 1]);
      HeldColumns(ScrollColumns(s, r, ops[..|ops| - 1], columns), ops[|ops| - 1], r, columns);
    }
  }

  /** Distinct rows tell the outcomes apart. */
  lemma RowsTellOutcomes<T>(chunks: seq<seq<T>>, out: Outcome, ref: Outcome, ret: SqlReturn, shown: seq<ShownRow<T>>)
    requires Distinct(Flat(chunks, |chunks|)) && ShowsRows(chunks, out, ret, shown)
    requires ShowsRows(chunks, ref, ret, shown)
    requires ref.Rowset? ==> 1 <= ref.count
    ensures out == ref
  {
    hide Flat;
    if out.Rowset? && ref.Rowset? {
      var flat := Flat(chunks, |chunks|);
      assert flat[out.start] == RowsOf(shown)[0] == flat[ref.start];
    }
  }

  lemma FlatShownRefines<T>(s: Fetcher<T>, r: nat, columns: seq<Column<T>>)
    requires HoldsAll(s) && PositionOf(s) == BEFORE_FIRST && 1 <= r && columns != []
    requires Distinct(Flat(s.chunks, |s.chunks|))
    requires AlwaysShowsFlat(s, r, columns)
    ensures Sizes(SizesOf(s.chunks)) && Refines(SizesOf(s.chunks), r)
  {
    hide FetchColumns, Step, RefStep, ReadsAtCursor, Flat, FreshRows, ShowsRows;
    var sizes := SizesOf(s.chunks);
    ScrollColumnsSteps(s, r, columns, []);
    forall ops, op ensures Seen(sizes, r, ops, op) == RefSeen(Total(sizes), r, ops, op) {
      assert ShowsFlat(s, r, columns, ops, op);
      ScrollColumnsSteps(s, r, columns, ops);
      var s1 := ScrollColumns(s, r, ops, columns);
      HeldColumns(s1, op, r, columns);
      RefShowsAt(Total(sizes), r, RefRun(Total(sizes), r, ops), op);
      var (s2, ret, shown) := FetchColumns(s1, op, r, columns);
      RowsTellOutcomes(s.chunks, Seen(sizes, r, ops, op), RefSeen(Total(sizes), r, ops, op), ret, shown);
    }
  }

  // ---------------------------------------------------------------- a single text of a rowset is met again

  /** A read of the value shows whether it starts at zero: some of it fits, and there is an indicator or room
      for all. */
  predicate Tells<T>(column: Column<T>, x: T) {
    ReadsText(column, x) && column.hasTarget && column.space.Some? && 1 <= column.space.value &&
    var v := column.value(x).value;
    v != [] && Fits(v) && (column.hasIndicator || |v| <= column.space.value)
  }

  /** A cell read with progress shows that it does not start at zero. */
  lemma ProgressTells<T>(column: Column<T>, last: LastRead, col: nat, row: int, x: T)
    requires Tells(column, x) && last.col == col && last.row == row && last.length != 0
    ensures ReadCell(column, last, col, row, x).1 != FreshCell(column, x)
  {
    var v, sp := column.value(x).value, column.space.value;
    hide Copied;
    OwnProgress(v, column.memory(x), 0, sp);
    if last.length < |v| {
      OwnProgress(v, column.memory(x), last.length, sp);
    }
    hide NextPart;
  }

  lemma ReadMakesProgress<T>(column: Column<T>, col: nat, row: int, x: T)
    requires Tells(column, x)
    ensures var last := ReadCell(column, NOTHING_READ, col, row, x).0;
      last.col == col && last.row == row && last.length != 0
  {
    hide NextPart;
    OwnProgress(column.value(x).value, column.memory(x), 0, column.space.value);
  }

  lemma {:induction false} OneCellRead<T>(columns: seq<Column<T>>, k: nat, last: LastRead, row: int, x: T, c: nat)
    requires k <= |columns| && c < |columns| && forall j | 0 <= j < |columns| :: ReadsText(columns[j], x) ==> j == c
    ensures var (after, cells) := ReadCells(columns, k, last, row, x);
      if k <= c then after == last
      else (after, cells[c]) == ReadCell(columns[c], last, c, row, x)
  {
    if k != 0 {
      OneCellRead(columns, k - 1, last, row, x, c);
    }
  }

  /** The rows `0..n` of a chunk hold a single text, in row `i` and column `c`. */
  predicate OneText<T>(columns: seq<Column<T>>, chunk: seq<T>, n: nat, i: nat, c: nat) {
    && i < n <= |chunk| && c < |columns| && ReadsText(columns[c], chunk[i])
    && forall k, j | 0 <= k < n && 0 <= j < |columns| :: ReadsText(columns[j], chunk[k]) ==> k == i && j == c
  }

  lemma {:induction false} OneTextRead<T>(columns: seq<Column<T>>, chunk: seq<T>, n: nat, m: nat, i: nat, c: nat,
                                          last: LastRead)
    requires OneText(columns, chunk, n, i, c) && m <= n
    ensures var (after, shown) := ReadRows(columns, chunk, 0, m, last);
      if m <= i then after == last
      else (after, shown[i].cells[c]) == ReadCell(columns[c], last, c, i, chunk[i])
    decreases m
  {
    hide ReadCell;
    if m != 0 {
      OneTextRead(columns, chunk, n, m - 1, i, c, last);
      var before := ReadRows(columns, chunk, 0, m - 1, last).0;
      if m - 1 == i {
        OneCellRead(columns, |columns|, before, m - 1, chunk[m - 1], c);
      } else {
        NoCellRead(columns, |columns|, before, m - 1, chunk[m - 1]);
      }
    }
  }

  lemma {:induction false} NoCellRead<T>(columns: seq<Column<T>>, k: nat, last: LastRead, row: int, x: T)
    requires k <= |columns| && forall j | 0 <= j < |columns| :: !ReadsText(columns[j], x)
    ensures ReadCells(columns, k, last, row, x).0 == last
  {
    if k != 0 {
      NoCellRead(columns, k - 1, last, row, x);
    }
  }

  lemma FirstShows<T>(s: Fetcher<T>, r: nat, columns: seq<Column<T>>)
    requires HoldsAll(s) && s.chunks != [] && 1 <= r && columns != []
    ensures var (s1, ret, shown) := FetchColumns(s, First, r, columns); var n := Min(r, |s.chunks[0]|);
      && HoldsAll(s1) && s1.chunks == s.chunks && ret == Code(shown)
      && (s1.last, shown) == ReadRows(columns, s.chunks[0], 0, n, s.last)
  {
  }

  /** With a single text in the first rowset, and whatever the other rows and the rowset size are, two calls of
      SQL_FETCH_FIRST do not show the same: the second finds the progress of the first. */
  lemma FirstTwiceResumes<T>(s: Fetcher<T>, r: nat, columns: seq<Column<T>>, i: nat, c: nat)
    requires HoldsAll(s) && s.chunks != [] && 1 <= r && s.last == NOTHING_READ
    requires OneText(columns, s.chunks[0], Min(r, |s.chunks[0]|), i, c) && Tells(columns[c], s.chunks[0][i])
    ensures var s1 := FetchColumns(s, First, r, columns).0; var shown := FetchColumns(s1, First, r, columns).2;
      i < |shown| && shown[i].cells[c] != Fresh(columns, s.chunks[0][i]).cells[c]
  {
    hide ReadCell, FreshCell, FetchColumns, Tells;
    var n := Min(r, |s.chunks[0]|);
    var s1 := FetchColumns(s, First, r, columns).0;
    FirstShows(s, r, columns);
    FirstShows(s1, r, columns);
    OneTextRead(columns, s.chunks[0], n, n, i, c, s.last);
    OneTextRead(columns, s.chunks[0], n, n, i, c, s1.last);
    ReadMakesProgress(columns[c], c, i, s.chunks[0][i]);
    ProgressTells(columns[c], s1.last, c, i, s.chunks[0][i]);
  }

  lemma {:induction false} AloneIsOnly<T>(columns: seq<Column<T>>, k: nat, x: T)
    requires k <= |columns| && FinalRead(columns, k, x) == FirstRead(columns, k, x)
    ensures forall j | 0 <= j < k :: ReadsText(columns[j], x) ==> FinalRead(columns, k, x) == Some(j)
  {
    if k != 0 {
      if !ReadsText(columns[k - 1], x) {
        AloneIsOnly(columns, k - 1, x);
      } else {
        NoneBefore(columns, k - 1, x);
      }
    }
  }

  lemma {:induction false} NoneBefore<T>(columns: seq<Column<T>>, k: nat, x: T)
    requires k <= |columns| && FirstRead(columns, k, x) == None
    ensures forall j | 0 <= j < k :: !ReadsText(columns[j], x)
  {
    if k != 0 {
      NoneBefore(columns, k - 1, x);
    }
  }

  lemma FlatStarts<T>(chunks: seq<seq<T>>)
    requires forall i | 0 <= i < |chunks| :: chunks[i] != []
    ensures Flat(chunks, |chunks|) == [] <==> chunks == []
    ensures chunks != [] ==> Flat(chunks, |chunks|)[0] == chunks[0][0]
  {
    if chunks != [] {
      FlatSlice(chunks, 0, 0, 0, 1);
      assert Flat(chunks, |chunks|)[0..1][0] == chunks[0][0..1][0];
    }
  }

  /** With rowsets of one row, a single text column and the calls FIRST and FIRST again. */
  lemma SingleRowsResume<T>(s: Fetcher<T>, columns: seq<Column<T>>)
    requires HoldsAll(s) && PositionOf(s) == BEFORE_FIRST && s.chunks != [] && s.last == NOTHING_READ && columns != []
    requires var x := s.chunks[0][0]; Alone(columns, x) && Tells(columns[FinalRead(columns, |columns|, x).value], x)
    ensures !ShowsFlat(s, 1, columns, [First], First)
  {
    hide FetchColumns, FreshCell, Tells, Fresh, RefStep, Flat, Code;
    var x := s.chunks[0][0];
    var c := FinalRead(columns, |columns|, x).value;
    AloneIsOnly(columns, |columns|, x);
    assert OneText(columns, s.chunks[0], 1, 0, c);
    FirstTwiceResumes(s, 1, columns, 0, c);
    FirstShows(s, 1, columns);
    var s1 := FetchColumns(s, First, 1, columns).0;
    FirstShows(s1, 1, columns);
    var ops := [First];
    assert ops[..|ops| - 1] == [];
    assert ScrollColumns(s, 1, ops, columns) == s1;
    var shown := FetchColumns(s1, First, 1, columns).2;
    assert shown[0].row == x;
  }

  /** Main result on scrolling with bound columns: no run of NEXT, PRIOR and FIRST shows a difference from the flat
      cursor, or a value that is not read from its start, exactly when the chunks are equal, the rowset size divides
      them, and is not one while a single column is bound as text. */
  lemma ColumnsShowFlatExactlyWhen<T>(s: Fetcher<T>, r: nat, columns: seq<Column<T>>)
    requires HoldsAll(s) && PositionOf(s) == BEFORE_FIRST && s.last == NOTHING_READ && 1 <= r && columns != []
    requires Distinct(Flat(s.chunks, |s.chunks|)) && NoNulls(columns, Flat(s.chunks, |s.chunks|))
    requires s.chunks != [] ==> var x := s.chunks[0][0];
      Alone(columns, x) ==> Tells(columns[FinalRead(columns, |columns|, x).value], x)
    ensures AlwaysShowsFlat(s, r, columns)
      <==> Aligned(SizesOf(s.chunks), r) && (s.chunks != [] && Alone(columns, s.chunks[0][0]) ==> 2 <= r)
  {
    hide FirstRead, FinalRead, Tells, ShowsFlat, Flat, Distinct;
    FlatStarts(s.chunks);
    var sizes := SizesOf(s.chunks);
    if AlwaysShowsFlat(s, r, columns) {
      FlatShownRefines(s, r, columns);
      RefinesAligned(sizes, r);
      if r == 1 && s.chunks != [] && Alone(columns, s.chunks[0][0]) {
        SingleRowsResume(s, columns);
      }
    }
    if Aligned(sizes, r) && (s.chunks != [] && Alone(columns, s.chunks[0][0]) ==> 2 <= r) {
      forall ops, op ensures ShowsFlat(s, r, columns, ops, op) {
        AlignedShowsFlat(s, r, columns, ops, op);
      }
    }
  }

  lemma OneColumnRow<T>(column: Column<T>, chunk: seq<T>, last: LastRead)
    requires chunk != []
    ensures var (after, cell) := ReadCell(column, last, 0, 0, chunk[0]);
      && ReadRows([column], chunk, 0, 1, last) == (after, [ShownRow(chunk[0], [cell])])
      && (!cell.Skipped? ==> Code([ShownRow(chunk[0], [cell])]) == cell.ret)
  {
    hide ReadCell;
    var (after, cell) := ReadCell(column, last, 0, 0, chunk[0]);
    var columns := [column];
    var none: (LastRead, seq<Cell>) := ReadCells(columns, 0, last, 0, chunk[0]);
    assert none.1 + [cell] == [cell] && ReadCells(columns, 1, last, 0, chunk[0]) == (after, [cell]);
    var rows: (LastRead, seq<ShownRow<T>>) := ReadRows(columns, chunk, 0, 0, last);
    assert rows.1 + [ShownRow(chunk[0], [cell])] == [ShownRow(chunk[0], [cell])];
  }

  /** From before the first row, SQL_FETCH_NEXT moves like SQL_FETCH_FIRST. */
  lemma NextIsFirst<T>(s: Fetcher<T>, r: nat, columns: seq<Column<T>>)
    requires HoldsAll(s) && PositionOf(s) == BEFORE_FIRST && s.chunks != [] && 1 <= r
    ensures FetchColumns(s, Next, r, columns) == FetchColumns(s, First, r, columns)
  {
    assert MoveTo(s, Next, r) == MoveTo(s, First, r) == (s, SqlSuccess);
  }

  /** The input on which rowsets of one row fail: one column bound as text, and SQL_FETCH_NEXT, then SQL_FETCH_FIRST.
      The first row is fetched again, and the call returns SQL_NO_DATA. */
  lemma FirstRowIsNoData<T>(s: Fetcher<T>, column: Column<T>)
    requires HoldsAll(s) && PositionOf(s) == BEFORE_FIRST && s.chunks != [] && s.last == NOTHING_READ
    requires column.Text? && column.hasTarget && column.space.Some? && column.value(s.chunks[0][0]).Some?
    requires var v := column.value(s.chunks[0][0]).value; v != [] && Fits(v) && |v| <= column.space.value
    ensures var (s1, ret, shown) := FetchColumns(s, Next, 1, [column]);
      ret == SqlSuccess && FetchColumns(s1, First, 1, [column]).1 == SqlNoData
  {
    hide ReadCell, ReadRows, FetchColumns, Code;
    var x := s.chunks[0][0];
    var s1 := FetchColumns(s, First, 1, [column]).0;
    NextIsFirst(s, 1, [column]);
    FirstShows(s, 1, [column]);
    FirstShows(s1, 1, [column]);
    OneColumnRow(column, s.chunks[0], s.last);
    OneColumnRow(column, s.chunks[0], s1.last);
    WholeThenNothing(column, x);
  }

  lemma WholeThenNothing<T>(column: Column<T>, x: T)
    requires column.Text? && column.hasTarget && column.space.Some? && column.value(x).Some?
    requires var v := column.value(x).value; v != [] && Fits(v) && |v| <= column.space.value
    ensures var (last, cell) := ReadCell(column, NOTHING_READ, 0, 0, x);
      cell != Skipped && cell.ret == SqlSuccess && ReadCell(column, last, 0, 0, x).1 == Cell(SqlNoData, None, [])
  {
    hide NextPart;
    var v := column.value(x).value;
    OwnProgress(v, column.memory(x), 0, column.space.value);
    OwnProgress(v, column.memory(x), |v|, column.space.value);
  }
}

/** What runs of fetches show in bound columns: whether every value is read from its start. */
module BoundRuns {
  import opened Common
  import opened HeldCursor
  import opened FetchSpec
  import opened FetchRuns
  import opened ValueParts
  import opened BoundColumns

  predicate ReadsText<T>(column: Column<T>, x: T) {
    column.Text? && column.value(x).Some?
  }

  /** The first and the last of `k` columns that is text and not NULL in a row. */
  function FirstRead<T>(columns: seq<Column<T>>, k: nat, x: T): (c: Option<nat>)
    requires k <= |columns|
    ensures c.Some? ==> c.value < k
  {
    if k == 0 then None
    else if FirstRead(columns, k - 1, x) == None && ReadsText(columns[k - 1], x) then Some(k - 1)
    else FirstRead(columns, k - 1, x)
  }

  function FinalRead<T>(columns: seq<Column<T>>, k: nat, x: T): (c: Option<nat>)
    requires k <= |columns|
    ensures c.Some? ==> c.value < k && ReadsText(columns[c.value], x)
    ensures c == None <==> FirstRead(columns, k, x) == None
  {
    if k == 0 then None else if ReadsText(columns[k - 1], x) then Some(k - 1) else FinalRead(columns, k - 1, x)
  }

  /** What a column of a row should show: NULL in the indicator, the outcome of the conversion, or as much of the value
      as there is room for with its whole length. */
  function FreshCell<T>(column: Column<T>, x: T): Cell {
    match column
    case NotBound => Skipped
    case Fixed(convert, width, hasIndicator) =>
      if convert(x).None? then if hasIndicator then Cell(SqlSuccess, Some(-1), []) else Cell(SqlError, None, [])
      else Cell(convert(x).value, if hasIndicator && convert(x).value.SqlSuccess? then Some(width) else None, [])
    case Text(value, memory, space, hasTarget, hasIndicator) =>
      if value(x).None? then if hasIndicator then Cell(SqlSuccess, Some(-1), []) else Cell(SqlError, None, [])
      else
        var v: seq<Byte>, length := value(x).value, if hasIndicator then Some(|value(x).value|) else None;
        if space.None? then Cell(SqlError, None, [])
        else if !hasTarget then Cell(if hasIndicator then SqlSuccess else SqlError, length, [])
        else if |v| <= space.value then Cell(SqlSuccess, length, v)
        else Cell(SqlSuccessWithInfo, length, v[..space.value])
  }

  function Fresh<T>(columns: seq<Column<T>>, x: T): ShownRow<T> {
    ShownRow(x, seq(|columns|, c requires 0 <= c < |columns| => FreshCell(columns[c], x)))
  }

  function FreshRows<T>(columns: seq<Column<T>>, rows: seq<T>): seq<ShownRow<T>> {
    seq(|rows|, i requires 0 <= i < |rows| => Fresh(columns, rows[i]))
  }

  // ---------------------------------------------------------------- one row

  /** No progress of the first text of a row is left over from an earlier read. */
  predicate StartsFresh<T>(columns: seq<Column<T>>, last: LastRead, row: int, x: T) {
    last.length == 0 || last.row != row || (var c := FirstRead(columns, |columns|, x); c == None || last.col != c.value)
  }

  lemma CellIsFresh<T>(column: Column<T>, last: LastRead, col: nat, row: int, x: T)
    requires ReadsText(column, x) ==> Resumed(last, col, row).length == 0
    ensures var (after, cell) := ReadCell(column, last, col, row, x);
      cell == FreshCell(column, x)
        && after == if ReadsText(column, x) then ReadCell(column, NOTHING_READ, col, row, x).0 else last
  {
  }

  lemma CellKeepsPlace<T>(column: Column<T>, last: LastRead, col: nat, row: int, x: T)
    ensures var after := ReadCell(column, last, col, row, x).0;
      if ReadsText(column, x) then after.col == col && after.row == row else after == last
  {
  }

  lemma {:induction false} FirstReadGrows<T>(columns: seq<Column<T>>, j: nat, k: nat, x: T)
    requires j <= k <= |columns|
    ensures FirstRead(columns, j, x) != None ==> FirstRead(columns, k, x) == FirstRead(columns, j, x)
    decreases k
  {
    if j < k {
      FirstReadGrows(columns, j, k - 1, x);
    }
  }

  /** The cells of a row are read from their starts, and its final text is what was read last. */
  lemma {:induction false} CellsAreFresh<T>(columns: seq<Column<T>>, k: nat, last: LastRead, row: int, x: T)
    requires k <= |columns| && StartsFresh(columns, last, row, x)
    ensures var (after, cells) := ReadCells(columns, k, last, row, x);
      && cells == Fresh(columns, x).cells[..k]
      && match FinalRead(columns, k, x)
         case None => after == last
         case Some(c) => after == ReadCell(columns[c], NOTHING_READ, c, row, x).0 && after.col == c && after.row == row
  {
    hide ReadCell, FreshCell;
    if k != 0 {
      CellsAreFresh(columns, k - 1, last, row, x);
      FirstReadGrows(columns, k, |columns|, x);
      CellKeepsPlace(columns[k - 1], NOTHING_READ, k - 1, row, x);
      CellIsFresh(columns[k - 1], ReadCells(columns, k - 1, last, row, x).0, k - 1, row, x);
    }
  }

  lemma RowIsFresh<T>(columns: seq<Column<T>>, last: LastRead, row: int, x: T)
    requires StartsFresh(columns, last, row, x)
    ensures var (after, cells) := ReadCells(columns, |columns|, last, row, x);
      && ShownRow(x, cells) == Fresh(columns, x)
      && match FinalRead(columns, |columns|, x)
         case None => after == last
         case Some(c) => after == ReadCell(columns[c], NOTHING_READ, c, row, x).0 && after.col == c && after.row == row
  {
    CellsAreFresh(columns, |columns|, last, row, x);
  }

  /** What was read last after a row, fresh or not. */
  lemma {:induction false} RowKeepsPlace<T>(columns: seq<Column<T>>, k: nat, last: LastRead, row: int, x: T)
    requires k <= |columns|
    ensures var after := ReadCells(columns, k, last, row, x).0;
      match FinalRead(columns, k, x)
      case None => after == last
      case Some(c) => after.col == c && after.row == row
  {
    hide ReadCell;
    if k != 0 {
      RowKeepsPlace(columns, k - 1, last, row, x);
      CellKeepsPlace(columns[k - 1], ReadCells(columns, k - 1, last, row, x).0, k - 1, row, x);
    }
  }

  /** Rows without a text of any bound column. */
  predicate NoText<T>(columns: seq<Column<T>>, shown: seq<ShownRow<T>>) {
    forall i | 0 <= i < |shown| :: FinalRead(columns, |columns|, shown[i].row) == None
  }

  /** The final text of a row is in the column that was read last. */
  predicate ReadLast<T>(columns: seq<Column<T>>, last: LastRead, x: T) {
    var c := FinalRead(columns, |columns|, x);
    c.Some? && last.col == c.value
  }

  /** What was read last is as before if the rows have no text, and otherwise nothing of the last row but its final
      text. */
  predicate LeavesPlace<T>(columns: seq<Column<T>>, row: int, shown: seq<ShownRow<T>>, before: LastRead,
                           after: LastRead) {
    if NoText(columns, shown) then after == before
    else after.row < row || (after.row == row && ReadLast(columns, after, shown[|shown| - 1].row))
  }

  lemma {:induction false} RowsKeepPlace<T>(columns: seq<Column<T>>, chunk: seq<T>, from: nat, n: nat, last: LastRead)
    requires from + n <= |chunk|
    ensures var (after, shown) := ReadRows(columns, chunk, from, n, last);
      LeavesPlace(columns, from + n - 1, shown, last, after)
  {
    hide ReadCells, FinalRead;
    if n != 0 {
      RowsKeepPlace(columns, chunk, from, n - 1, last);
      var (before, rows) := ReadRows(columns, chunk, from, n - 1, last);
      var (after, shown) := ReadRows(columns, chunk, from, n, last);
      RowKeepsPlace(columns, |columns|, before, from + n - 1, chunk[from + n - 1]);
      assert shown[..n - 1] == rows;
      assert NoText(columns, shown)
        <==> NoText(columns, rows) && FinalRead(columns, |columns|, shown[n - 1].row) == None;
    }
  }

  // ---------------------------------------------------------------- reading forward

  /** Rows behind the last read are read from their starts. */
  lemma {:induction false} LaterRowsAreFresh<T>(columns: seq<Column<T>>, chunk: seq<T>, from: nat, n: nat,
                                                last: LastRead)
    requires from + n <= |chunk| && last.row < from
    ensures var (after, shown) := ReadRows(columns, chunk, from, n, last);
      && shown == FreshRows(columns, chunk[from..from + n])
      && last.row <= after.row < from + n
  {
    hide ReadCells, Fresh, FinalRead;
    if n != 0 {
      LaterRowsAreFresh(columns, chunk, from, n - 1, last);
      var before := ReadRows(columns, chunk, from, n - 1, last).0;
      RowIsFresh(columns, before, from + n - 1, chunk[from + n - 1]);
      assert chunk[from..from + n] == chunk[from..from + n - 1] + [chunk[from + n - 1]];
    }
  }

  function RowsOf<T>(shown: seq<ShownRow<T>>): seq<T> {
    seq(|shown|, i requires 0 <= i < |shown| => shown[i].row)
  }

  lemma AheadIgnoresRead<T>(s: Fetcher<T>, last: LastRead)
    requires Streaming(s) && last.row <= s.row
    ensures Streaming(s.(last := last)) && Ahead(s.(last := last)) == Ahead(s)
  {
  }

  lemma MovedStreams<T>(s: Fetcher<T>, r: nat)
    requires Streaming(s) && 1 <= r
    ensures var (s1, ret) := MoveTo(s, Next, r);
      ret == SqlSuccess ==> s1.current.Some? && s1.last.row <= s1.row < |s1.current.value|
  {
  }

  lemma UnboundIsFresh<T>(s: Fetcher<T>, r: nat)
    requires s.current.Some? && s.last.row <= s.row && -1 <= s.row && 1 <= r
    ensures var (s1, ret, shown) := ReadColumns(s, r, []);
      shown == FreshRows([], RowsOf(shown)) && s1.last.row <= s1.row
  {
    var shown := ReadColumns(s, r, []).2;
    forall i | 0 <= i < |shown| ensures shown[i] == Fresh([], shown[i].row) {
      assert Fresh([], shown[i].row).cells == [];
    }
  }

  /** The columns of a rowset behind the last read. */
  lemma ReadColumnsAreFresh<T>(s: Fetcher<T>, r: nat, columns: seq<Column<T>>)
    requires s.current.Some? && s.last.row <= s.row < |s.current.value| && -1 <= s.row && 1 <= r
    ensures var (s1, ret, shown) := ReadColumns(s, r, columns);
      shown == FreshRows(columns, RowsOf(shown)) && s1.last.row <= s1.row
  {
    hide ReadColumns, ReadRows, Code, Fresh;
    if columns == [] {
      UnboundIsFresh(s, r);
    } else {
      ReadColumnsIs(s, r, columns);
      var n := |ReadColumns(s, r, columns).2|;
      LaterRowsAreFresh(columns, s.current.value, s.row + 1, n, s.last);
      assert RowsOf(ReadColumns(s, r, columns).2) == s.current.value[s.row + 1..s.row + 1 + n];
    }
  }

  /** One call of SQL_FETCH_NEXT on a streaming result reads every cell from its start. */
  lemma NextColumnsStream<T>(s: Fetcher<T>, r: nat, columns: seq<Column<T>>)
    requires Streaming(s) && 1 <= r && (columns == [] ==> r == 1)
    ensures var (s1, ret, shown) := FetchColumns(s, Next, r, columns);
      && Streaming(s1) && Ahead(s) == RowsOf(shown) + Ahead(s1)
      && shown == FreshRows(columns, RowsOf(shown))
      && if shown == [] then ret == SqlNoData && Ahead(s) == [] else ret == Code(shown)
  {
    hide Ahead, Fresh, ReadRows, Code;
    NextStreams(s, r, BindingOf(columns));
    ColumnsFollowRows(s, Next, r, columns);
    MovedStreams(s, r);
    var (s0, ret0, rows) := Fetch(s, Next, r, BindingOf(columns));
    var (s1, ret, shown) := FetchColumns(s, Next, r, columns);
    assert RowsOf(shown) == rows;
    if ret0 == SqlSuccess {
      ReadColumnsAreFresh(MoveTo(s, Next, r).0, r, columns);
    }
    AheadIgnoresRead(s0, s1.last);
  }

  /** What `n` calls of SQL_FETCH_NEXT show. */
  function ReadOnColumns<T>(s: Fetcher<T>, r: nat, columns: seq<Column<T>>, n: nat): seq<ShownRow<T>>
    requires Ready(s) && 1 <= r
    decreases n
  {
    if n == 0 then []
    else
      var (s1, ret, shown) := FetchColumns(s, Next, r, columns);
      shown + ReadOnColumns(s1, r, columns, n - 1)
  }

  lemma FreshRowsJoin<T>(columns: seq<Column<T>>, a: seq<T>, b: seq<T>)
    ensures FreshRows(columns, a + b) == FreshRows(columns, a) + FreshRows(columns, b)
  {
    hide Fresh;
  }

  /** Reading forward shows every cell of every row once, in order and from its start, whatever is bound. */
  lemma {:induction false} ColumnsReadEverythingOnce<T>(s: Fetcher<T>, r: nat, columns: seq<Column<T>>, n: nat)
    requires Streaming(s) && 1 <= r && (columns == [] ==> r == 1)
    ensures ReadOnColumns(s, r, columns, n) <= FreshRows(columns, Ahead(s))
    ensures |Ahead(s)| <= n ==> ReadOnColumns(s, r, columns, n) == FreshRows(columns, Ahead(s))
    decreases n
  {
    hide FetchColumns, Ahead, Streaming, Fresh;
    StreamingIsReady(s);
    if n != 0 {
      var (s1, ret, shown) := FetchColumns(s, Next, r, columns);
      NextColumnsStream(s, r, columns);
      ColumnsReadEverythingOnce(s1, r, columns, n - 1);
      FreshRowsJoin(columns, RowsOf(shown), Ahead(s1));
    }
  }

  /** The final text of a row was read last, from its start; without one nothing of the row was. */
  predicate KeepsProgress<T>(columns: seq<Column<T>>, row: int, x: T, last: LastRead) {
    match FinalRead(columns, |columns|, x)
    case None => last.row < row
    case Some(c) => last == ReadCell(columns[c], NOTHING_READ, c, row, x).0 && last.col == c && last.row == row
  }

  lemma LastRowKeepsProgress<T>(columns: seq<Column<T>>, chunk: seq<T>, from: nat, n: nat, last: LastRead)
    requires from + n <= |chunk| && last.row < from && 1 <= n
    ensures KeepsProgress(columns, from + n - 1, chunk[from + n - 1], ReadRows(columns, chunk, from, n, last).0)
  {
    hide ReadCells, ReadCell, FinalRead, Fresh;
    LaterRowsAreFresh(columns, chunk, from, n - 1, last);
    RowIsFresh(columns, ReadRows(columns, chunk, from, n - 1, last).0, from + n - 1, chunk[from + n - 1]);
  }

  lemma RowsetKeepsProgress<T>(s: Fetcher<T>, r: nat, columns: seq<Column<T>>)
    requires s.current.Some? && s.last.row <= s.row < |s.current.value| && -1 <= s.row && 1 <= r
    ensures var (s1, ret, shown) := ReadColumns(s, r, columns);
      shown != [] ==> KeepsProgress(columns, s1.row, shown[|shown| - 1].row, s1.last)
  {
    hide ReadRows, KeepsProgress, Code;
    if columns == [] {
      var (s1, ret, shown) := ReadColumns(s, r, columns);
      if shown != [] {
        NothingBound(columns, s1.row, shown[|shown| - 1].row, s1.last);
      }
    } else {
      ReadColumnsIs(s, r, columns);
      hide ReadColumns;
      var shown := ReadColumns(s, r, columns).2;
      if shown != [] {
        LastRowKeepsProgress(columns, s.current.value, s.row + 1, |shown|, s.last);
      }
    }
  }

  lemma NothingBound<T>(columns: seq<Column<T>>, row: int, x: T, last: LastRead)
    requires columns == [] && last.row < row
    ensures KeepsProgress(columns, row, x, last)
  {
  }

  /** After a call of SQL_FETCH_NEXT the final text of the last row is what was read last, from its start. */
  lemma NextKeepsProgress<T>(s: Fetcher<T>, r: nat, columns: seq<Column<T>>)
    requires Streaming(s) && 1 <= r && (columns == [] ==> r == 1)
    ensures var (s1, ret, shown) := FetchColumns(s, Next, r, columns);
      shown != [] ==> KeepsProgress(columns, s1.row, shown[|shown| - 1].row, s1.last)
  {
    MovedStreams(s, r);
    StreamingIsReady(s);
    hide Streaming, MoveTo, ReadColumns, KeepsProgress;
    var (s1, ret) := MoveTo(s, Next, r);
    if ret == SqlSuccess {
      RowsetKeepsProgress(s1, r, columns);
    }
  }

  // ---------------------------------------------------------------- fixed-width columns

  predicate Plain<T>(columns: seq<Column<T>>) {
    forall c | 0 <= c < |columns| :: !columns[c].Text?
  }

  lemma {:induction false} PlainReadsNothing<T>(columns: seq<Column<T>>, k: nat, x: T)
    requires k <= |columns| && Plain(columns)
    ensures FirstRead(columns, k, x) == None && FinalRead(columns, k, x) == None
  {
    if k != 0 {
      PlainReadsNothing(columns, k - 1, x);
    }
  }

  lemma {:induction false} PlainRows<T>(columns: seq<Column<T>>, chunk: seq<T>, from: nat, n: nat, last: LastRead)
    requires from + n <= |chunk| && Plain(columns)
    ensures var (after, shown) := ReadRows(columns, chunk, from, n, last);
      after == last && shown == FreshRows(columns, chunk[from..from + n])
  {
    hide ReadCells, Fresh, FinalRead, FirstRead;
    if n != 0 {
      var x := chunk[from + n - 1];
      PlainRows(columns, chunk, from, n - 1, last);
      PlainReadsNothing(columns, |columns|, x);
      RowIsFresh(columns, last, from + n - 1, x);
      assert chunk[from..from + n] == chunk[from..from + n - 1] + [x];
    }
  }

  /** With fixed-width columns a call is the one on rows and positions alone, and its code that of the
      last conversion. */
  lemma PlainColumnsFetch<T>(s: Fetcher<T>, op: Op, r: nat, columns: seq<Column<T>>)
    requires Ready(s) && 1 <= r && columns != [] && Plain(columns)
    ensures
      var (s0, ret0, rows) := Fetch(s, op, r, Bound);
      var shown := FreshRows(columns, rows);
      FetchColumns(s, op, r, columns) == (s0, if ret0 == SqlSuccess then Code(shown) else ret0, shown)
  {
    hide MoveTo, ReadRowset, ReadRows, Code, Fresh;
    MoveToValid(s, op, r);
    var (s1, ret) := MoveTo(s, op, r);
    if ret == SqlSuccess {
      BoundRowset(s1, r);
      var rows := ReadRowset(s1, r, Bound).1;
      if rows != [] {
        PlainRows(columns, s1.current.value, s1.row + 1, |rows|, s1.last);
      } else {
        RowsNone(columns, s1.current.value, s1.row + 1, s1.last);
        assert FreshRows(columns, rows) == [];
      }
      RowsetKeepsRead(s1, r);
    } else {
      assert FreshRows(columns, []) == [];
    }
  }

  lemma RowsetKeepsRead<T>(s: Fetcher<T>, r: nat)
    requires s.current.Some? && -1 <= s.row
    ensures ReadRowset(s, r, Bound).0.last == s.last
  {
  }

  // ---------------------------------------------------------------- single cells

  lemma {:induction false} CellsWithoutText<T>(columns: seq<Column<T>>, k: nat, last: LastRead, row: int, x: T, c: nat)
    requires c < k <= |columns| && !ReadsText(columns[c], x)
    ensures ReadCells(columns, k, last, row, x).1[c] == FreshCell(columns[c], x)
  {
    hide ReadCell, FreshCell;
    if c + 1 < k {
      CellsWithoutText(columns, k - 1, last, row, x, c);
    } else {
      CellIsFresh(columns[c], ReadCells(columns, c, last, row, x).0, c, row, x);
    }
  }

  lemma {:induction false} RowsWithoutText<T>(columns: seq<Column<T>>, chunk: seq<T>, from: nat, n: nat, last: LastRead,
                                              i: nat, c: nat)
    requires from + n <= |chunk| && i < n && c < |columns| && !ReadsText(columns[c], chunk[from + i])
    ensures ReadRows(columns, chunk, from, n, last).1[i].cells[c] == FreshCell(columns[c], chunk[from + i])
    decreases n
  {
    hide ReadCells, FreshCell;
    if i + 1 < n {
      RowsWithoutText(columns, chunk, from, n - 1, last, i, c);
    } else {
      CellsWithoutText(columns, |columns|, ReadRows(columns, chunk, from, i, last).0, from + i, chunk[from + i], c);
    }
  }

  /** In every orientation and from any state, what is not text, or NULL, is shown as it should be. */
  lemma CellsAreShown<T>(s: Fetcher<T>, op: Op, r: nat, columns: seq<Column<T>>, i: nat, c: nat)
    requires Ready(s) && 1 <= r && c < |columns| && i < |FetchColumns(s, op, r, columns).2|
    requires var shown := FetchColumns(s, op, r, columns).2;
      |shown[i].cells| == |columns| && !ReadsText(columns[c], shown[i].row)
    ensures var shown := FetchColumns(s, op, r, columns).2; shown[i].cells[c] == FreshCell(columns[c], shown[i].row)
  {
    hide MoveTo, ReadRows, FreshCell, Code, ReadsText;
    MoveToValid(s, op, r);
    var s1 := MoveTo(s, op, r).0;
    ReadColumnsIs(s1, r, columns);
    RowsWithoutText(columns, s1.current.value, s1.row + 1, |FetchColumns(s, op, r, columns).2|, s1.last, i, c);
  }

  /** NULL, in the application's terms: the indicator is SQL_NULL_DATA, and without one the cell is an error. */
  lemma NullIsShown<T>(s: Fetcher<T>, op: Op, r: nat, columns: seq<Column<T>>, i: nat, c: nat)
    requires Ready(s) && 1 <= r && c < |columns| && i < |FetchColumns(s, op, r, columns).2|
    requires var x := FetchColumns(s, op, r, columns).2[i].row;
      (columns[c].Text? && columns[c].value(x) == None) || (columns[c].Fixed? && columns[c].convert(x) == None)
    ensures var shown := FetchColumns(s, op, r, columns).2;
      && c < |shown[i].cells|
      && shown[i].cells[c] == if columns[c].hasIndicator then Cell(SqlSuccess, Some(-1), [])
         else Cell(SqlError, None, [])
  {
    hide FetchColumns, Fetch, BindingOf;
    ColumnsFollowRows(s, op, r, columns);
    CellsAreShown(s, op, r, columns, i, c);
  }

  /** A text that no progress is left of is shown from its first byte: as much as there is room for, and its whole
      length. */
  lemma FreshTextIsShown<T>(column: Column<T>, last: LastRead, col: nat, row: int, x: T)
    requires ReadsText(column, x) && Resumed(last, col, row).length == 0
    requires column.space.Some? && column.hasTarget && column.hasIndicator
    ensures
      var v, cell := column.value(x).value, ReadCell(column, last, col, row, x).1;
      && cell == Cell(if |v| <= column.space.value then SqlSuccess else SqlSuccessWithInfo, Some(|v|), cell.piece)
      && cell.piece <= v && |cell.piece| == Min(|v|, column.space.value)
  {
    CellIsFresh(column, last, col, row, x);
    hide ReadCell;
  }

  lemma {:induction false} CodeSkips(cells: seq<Cell>, before: SqlReturn, c: nat)
    requires c <= |cells| && forall k | c <= k < |cells| :: cells[k].Skipped?
    ensures CodeAfter(cells, before) == CodeAfter(cells[..c], before)
    decreases |cells|
  {
    if c < |cells| {
      CodeSkips(cells[..|cells| - 1], before, c);
      assert cells[..|cells| - 1][..c] == cells[..c];
    } else {
      assert cells[..c] == cells;
    }
  }

  /** The code of a fetch is that of the last cell that is bound, of the last row; success if no cell is. */
  lemma {:induction false} CodeIsOfLastCell<T>(shown: seq<ShownRow<T>>, i: nat, c: nat)
    requires i < |shown| && c < |shown[i].cells| && !shown[i].cells[c].Skipped?
    requires forall k | c < k < |shown[i].cells| :: shown[i].cells[k].Skipped?
    requires forall j, k | i < j < |shown| && 0 <= k < |shown[j].cells| :: shown[j].cells[k].Skipped?
    ensures Code(shown) == shown[i].cells[c].ret
    decreases |shown|
  {
    var cells, before := shown[|shown| - 1].cells, shown[..|shown| - 1];
    if i + 1 < |shown| {
      CodeIsOfLastCell(before, i, c);
      CodeSkips(cells, Code(before), 0);
    } else {
      CodeSkips(cells, Code(before), c + 1);
    }
  }

  lemma {:induction false} CodeOfNothingBound<T>(shown: seq<ShownRow<T>>)
    requires forall j, k | 0 <= j < |shown| && 0 <= k < |shown[j].cells| :: shown[j].cells[k].Skipped?
    ensures Code(shown) == SqlSuccess
  {
    if shown != [] {
      CodeOfNothingBound(shown[..|shown| - 1]);
      CodeSkips(shown[|shown| - 1].cells, Code(shown[..|shown| - 1]), 0);
    }
  }
}

/** The loops of a fetch over the rows of a rowset and the bound columns of each.  A variable-length column is
    read like a value in parts, and its progress is kept for the next read of any column. */
module BoundColumns {
  import opened Common
  import opened HeldCursor
  import opened FetchSpec
  import opened ValueParts

  /** A column that is not bound; one bound with a fixed width, with the outcome of converting the value of a row, or
      NULL; or one bound as text or binary data, with the value of a row, or NULL, the memory it lies in,
        the room of the buffer,
      and whether there is a buffer at all.  Either may have an indicator. */
  datatype Column<!T> =
    | NotBound
    | Fixed(convert: T -> Option<SqlReturn>, width: nat, hasIndicator: bool)
    | Text(value: T -> Option<Value>, memory: T -> nat -> Byte, space: Option<nat>, hasTarget: bool, hasIndicator: bool)

  datatype ShownRow<T> = ShownRow(row: T, cells: seq<Cell>)

  /** NULL is told by the indicator alone. */
  function NullCell(hasIndicator: bool): Cell {
    if hasIndicator then Cell(SqlSuccess, Some(SQL_NULL_DATA), []) else Cell(SqlError, None, [])
  }

  function ReadCell<T>(column: Column<T>, last: LastRead, col: int, row: int, x: T): (LastRead, Cell) {
    match column
    case NotBound => (last, Skipped)
    case Fixed(convert, width, hasIndicator) =>
      (match convert(x)
       case None => (last, NullCell(hasIndicator))
       case Some(ret) => (last, Cell(ret, if hasIndicator && ret == SqlSuccess then Some(width) else None, [])))
    case Text(value, memory, space, hasTarget, hasIndicator) =>
      match value(x)
      case None => (last, NullCell(hasIndicator))
      case Some(v) => ReadValue(last, col, row, v, memory(x), space, hasTarget, hasIndicator)
  }

  /** The first `k` columns of a row, one after the other. */
  function ReadCells<T>(columns: seq<Column<T>>, k: nat, last: LastRead, row: int, x: T): (res: (LastRead, seq<Cell>))
    requires k <= |columns|
    ensures |res.1| == k
  {
    if k == 0 then (last, [])
    else
      var (before, cells) := ReadCells(columns, k - 1, last, row, x);
      var (after, cell) := ReadCell(columns[k - 1], before, k - 1, row, x);
      (after, cells + [cell])
  }

  /** The `n` rows of a chunk from row `from` on. */
  function ReadRows<T>(columns: seq<Column<T>>, chunk: seq<T>, from: int, n: nat, last: LastRead)
    : (res: (LastRead, seq<ShownRow<T>>))
    requires n == 0 || (0 <= from && from + n <= |chunk|)
    ensures |res.1| == n && forall i | 0 <= i < n :: res.1[i].row == chunk[from + i] && |res.1[i].cells| == |columns|
  {
    if n == 0 then (last, [])
    else
      var (before, rows) := ReadRows(columns, chunk, from, n - 1, last);
      var x := chunk[from + n - 1];
      var (after, cells) := ReadCells(columns, |columns|, before, from + n - 1, x);
      (after, rows + [ShownRow(x, cells)])
  }

  /** The code that the loops return is that of the last cell they read. */
  function CodeAfter(cells: seq<Cell>, before: SqlReturn): SqlReturn {
    if cells == [] then before
    else
      var last := cells[|cells| - 1];
      if last.Skipped? then CodeAfter(cells[..|cells| - 1], before) else last.ret
  }

  function Code<T>(rows: seq<ShownRow<T>>): SqlReturn {
    if rows == [] then SqlSuccess else CodeAfter(rows[|rows| - 1].cells, Code(rows[..|rows| - 1]))
  }

  /** Without any bindings, not even ones taken back, no loop runs. */
  function BindingOf<T>(columns: seq<Column<T>>): Binding {
    if columns == [] then Unbound else Bound
  }

  /** The second half of a fetch, with all that the application sees of it. */
  function ReadColumns<T>(s: Fetcher<T>, r: nat, columns: seq<Column<T>>): (Fetcher<T>, SqlReturn, seq<ShownRow<T>>)
    requires s.current.Some? && -1 <= s.row
  {
    var (s1, rows) := ReadRowset(s, r, BindingOf(columns));
    if columns == [] then (s1, SqlSuccess, seq(|rows|, i requires 0 <= i < |rows| => ShownRow(rows[i], [])))
    else
      var (last, shown) := ReadRows(columns, s.current.value, s.row + 1, |rows|, s.last);
      (s1.(last := last), Code(shown), shown)
  }

  /** One call of SQLFetchScroll with any bindings. */
  function FetchColumns<T>(s: Fetcher<T>, op: Op, r: nat, columns: seq<Column<T>>)
    : (res: (Fetcher<T>, SqlReturn, seq<ShownRow<T>>))
    requires Ready(s) && 1 <= r
    ensures Ready(res.0)
  {
    MoveToValid(s, op, r);
    var (s1, ret) := MoveTo(s, op, r);
    if ret != SqlSuccess then (s1, ret, []) else ReadColumns(s1, r, columns)
  }

  lemma ReadColumnsFollowRows<T>(s: Fetcher<T>, r: nat, columns: seq<Column<T>>)
    requires s.current.Some? && -1 <= s.row
    ensures
      var (s1, ret, shown) := ReadColumns(s, r, columns);
      var (s0, rows) := ReadRowset(s, r, BindingOf(columns));
      && s1 == s0.(last := s1.last) && |shown| == |rows| && ret == Code(shown)
      && forall i | 0 <= i < |rows| :: shown[i].row == rows[i] && |shown[i].cells| == |columns|
  {
    hide ReadRowset, ReadRows, Code;
    if columns == [] {
      NoColumnsSucceed(ReadColumns(s, r, columns).2);
    } else {
      BoundRowset(s, r);
    }
  }

  lemma BoundRowset<T>(s: Fetcher<T>, r: nat)
    requires s.current.Some? && -1 <= s.row
    ensures var (s1, rows) := ReadRowset(s, r, Bound);
      rows == [] || (s.row + 1 + |rows| <= |s.current.value| && rows == s.current.value[s.row + 1..s.row + 1 + |rows|])
  {
  }

  lemma NoColumnsSucceed<T>(shown: seq<ShownRow<T>>)
    requires forall i | 0 <= i < |shown| :: shown[i].cells == []
    ensures Code(shown) == SqlSuccess
  {
  }

  /** Reading cells moves the cursor no further than the rows do: columns decide what is seen of the rows, the code
      of a rowset and the progress kept, and nothing else. */
  lemma ColumnsFollowRows<T>(s: Fetcher<T>, op: Op, r: nat, columns: seq<Column<T>>)
    requires Ready(s) && 1 <= r
    ensures
      var (s1, ret, shown) := FetchColumns(s, op, r, columns);
      var (s0, ret0, rows) := Fetch(s, op, r, BindingOf(columns));
      && s1 == s0.(last := s1.last) && |shown| == |rows|
      && (forall i | 0 <= i < |rows| :: shown[i].row == rows[i] && |shown[i].cells| == |columns|)
      && (if ret0 == SqlSuccess then ret == Code(shown) else ret == ret0 && s1.last == s0.last && shown == [])
  {
    hide MoveTo, ReadRowset, ReadRows, Code;
    MoveToValid(s, op, r);
    var (s2, ret2) := MoveTo(s, op, r);
    if ret2 == SqlSuccess {
      ReadColumnsFollowRows(s2, r, columns);
    }
  }

  lemma RowsNone<T>(columns: seq<Column<T>>, chunk: seq<T>, from: int, last: LastRead)
    ensures ReadRows(columns, chunk, from, 0, last) == (last, []) && Code<T>([]) == SqlSuccess
  {
  }

  /** One more row behind those read, and its code. */
  lemma RowsGrow<T>(columns: seq<Column<T>>, chunk: seq<T>, from: nat, n: nat, last: LastRead)
    requires from + n < |chunk|
    ensures
      var (before, rows) := ReadRows(columns, chunk, from, n, last);
      var (after, cells) := ReadCells(columns, |columns|, before, from + n, chunk[from + n]);
      var more := rows + [ShownRow(chunk[from + n], cells)];
      ReadRows(columns, chunk, from, n + 1, last) == (after, more) && Code(more) == CodeAfter(cells, Code(rows))
  {
    hide ReadCells, CodeAfter;
    var (before, rows) := ReadRows(columns, chunk, from, n, last);
    var (after, cells) := ReadCells(columns, |columns|, before, from + n, chunk[from + n]);
    assert (rows + [ShownRow(chunk[from + n], cells)])[..n] == rows;
  }

  /** How many rows a rowset reads, and what that leaves behind. */
  lemma ReadColumnsIs<T>(s: Fetcher<T>, r: nat, columns: seq<Column<T>>)
    requires s.current.Some? && -1 <= s.row && columns != []
    ensures
      var end := Min(s.row + 1 + r, |s.current.value|);
      var n := if end <= s.row + 1 then 0 else end - (s.row + 1);
      var (last, shown) := ReadRows(columns, s.current.value, s.row + 1, n, s.last);
      ReadColumns(s, r, columns) == (s.(row := s.row + n, last := last), Code(shown), shown)
  {
    hide ReadRows, Code;
  }
}

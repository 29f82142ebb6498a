/** The transitions of the driver's result cursor, as functions on its fields.

    The query result is a finite list of chunks that is pulled lazily; an empty
    chunk or the end of the list ends the result, a failure is reported and the
    pull after it goes on.  `OdbcCursor.OdbcFetch` updates the same fields in place.
    What is read of bound columns is added in `BoundColumns`.
 */
module FetchSpec {
  import opened Common
  import opened HeldCursor

  datatype CursorType = ForwardOnly | Scrollable

  /** Whether there are bindings of columns; preparing a statement makes one for every column, bound or not, and
      SQL_UNBIND takes all of them away. */
  datatype Binding = Bound | Unbound

  datatype SqlReturn = SqlSuccess | SqlSuccessWithInfo | SqlNoData | SqlError

  /** What one pull from the engine's result yields. */
  datatype Pull<+T> = Chunk(rows: seq<T>) | Failure

  /** The part of a variable-length value already handed out, keyed by column and row in the chunk. */
  datatype LastRead = LastRead(col: int, row: int, length: nat)

  const NOTHING_READ := LastRead(-1, -1, 0)

  /** What is known of a cell when it is read: its own progress, or none. */
  function Resumed(last: LastRead, col: int, row: int): LastRead {
    LastRead(col, row, if last.col == col && last.row == row then last.length else 0)
  }

  datatype Fetcher<T> = Fetcher(
    cursorType: CursorType,
    chunks: seq<seq<T>>,
    source: seq<Pull<T>>,
    idx: nat,
    current: Option<seq<T>>,
    row: int,
    prior: int,
    resultsetEnd: bool,
    last: LastRead)

  /** The current chunk is the held chunk the index names. */
  predicate Valid<T(==)>(s: Fetcher<T>) {
    && (forall i | 0 <= i < |s.chunks| :: s.chunks[i] != [])
    && -1 <= s.row
    && if s.chunks == [] then s.current == None && s.row == -1 && s.prior <= -1
       else
         && s.idx < |s.chunks| && s.current == Some(s.chunks[s.idx])
         && (s.idx == 0 || -1 <= s.prior) && s.prior <= s.row
  }

  /** `Valid`, and `FetchFirst` has put the index back after the chunks were cleared. */
  predicate Ready<T(==)>(s: Fetcher<T>) {
    Valid(s) && (s.chunks == [] ==> s.idx == 0)
  }

  function Cleared<T>(s: Fetcher<T>): Fetcher<T> {
    s.(chunks := [], current := None, row := -1, prior := -1, resultsetEnd := false)
  }

  predicate RequireFetch<T>(s: Fetcher<T>) {
    s.chunks == [] || s.row >= |s.chunks[|s.chunks| - 1]| - 1
  }

  function SetCurrent<T>(s: Fetcher<T>): (Fetcher<T>, SqlReturn) {
    if s.chunks == [] then (s, SqlNoData)
    else
      var i := if s.cursorType.Scrollable? && s.idx < |s.chunks| - 1 then s.idx + 1 else |s.chunks| - 1;
      (s.(idx := i, current := Some(s.chunks[i]), row := -1, prior := -1), SqlSuccess)
  }

  /** Pulls one more chunk unless the end was seen, and stands before its first row. */
  function PullNext<T>(s: Fetcher<T>): (Fetcher<T>, SqlReturn) {
    if s.resultsetEnd then SetCurrent(s)
    else
      var s1 := s.(last := NOTHING_READ, source := if s.source == [] then [] else s.source[1..]);
      if s.source == [] then (s1.(resultsetEnd := true), SqlNoData)
      else
        match s.source[0]
        case Failure => (s1, SqlError)
        case Chunk(rows) =>
          if |rows| == 0 then (s1.(resultsetEnd := true), SqlNoData)
          else SetCurrent(s1.(chunks := if s.cursorType.ForwardOnly? then [rows] else s.chunks + [rows]))
  }

  function ToFront<T>(s: Fetcher<T>): Fetcher<T> {
    s.(current := if s.chunks == [] then s.current else Some(s.chunks[0]), idx := 0, row := -1, prior := -1)
  }

  function ToPrior<T>(s: Fetcher<T>, r: nat): (Fetcher<T>, SqlReturn)
    requires s.idx == 0 || s.idx < |s.chunks|
  {
    var prior := s.prior - r;
    if s.idx == 0 && prior < -1 then (s.(row := -1, prior := prior), SqlNoData)
    else if prior < -1 then
      var back := |s.chunks[s.idx - 1]| - r - 1;
      var row := if back < 0 then -1 else back;
      (s.(idx := s.idx - 1, current := Some(s.chunks[s.idx - 1]), row := row, prior := row), SqlSuccess)
    else (s.(row := prior, prior := prior), SqlSuccess)
  }

  function MoveTo<T>(s: Fetcher<T>, op: Op, r: nat): (Fetcher<T>, SqlReturn)
    requires op == Prior ==> s.idx == 0 || s.idx < |s.chunks|
  {
    if s.cursorType.ForwardOnly? && op != Next then (s, SqlError)
    else
      match op
      case Next =>
        var s1 := s.(prior := s.row);
        if !RequireFetch(s) then (s1, SqlSuccess)
        else if s.resultsetEnd && s.chunks != [] && s.idx == |s.chunks| - 1 then (s1, SqlNoData)
        else PullNext(s1)
      case Prior => ToPrior(s, r)
      case First =>
        var s1 := ToFront(s);
        if s1.current == None then PullNext(s1) else (s1, SqlSuccess)
  }

  /** The rows of the rowset after `s.row`, and the cursor on its last row. */
  function ReadRowset<T>(s: Fetcher<T>, r: nat, b: Binding): (Fetcher<T>, seq<T>)
    requires s.current.Some? && -1 <= s.row
  {
    var chunk := s.current.value;
    match b
    case Bound =>
      var last := Min(s.row + 1 + r, |chunk|);
      if last <= s.row + 1 then (s, []) else (s.(row := last - 1), chunk[s.row + 1..last])
    case Unbound =>
      // there are no bindings: only the cursor moves, and the row it lands on is what SQLGetData reads
      (s.(row := s.row + r), if 0 <= s.row + r < |chunk| then [chunk[s.row + r]] else [])
  }

  lemma PullValid<T>(s: Fetcher<T>)
    requires Valid(s)
    ensures var (s1, ret) := PullNext(s); Valid(s1) && (s1.chunks == [] ==> s1.idx == s.idx)
    ensures var (s1, ret) := PullNext(s); ret == SqlSuccess ==> s1.current.Some?
  {
  }

  lemma PriorValid<T>(s: Fetcher<T>, r: nat)
    requires Ready(s) && 1 <= r
    ensures var (s1, ret) := ToPrior(s, r); Ready(s1) && (ret == SqlSuccess ==> s1.current.Some?)
  {
  }

  lemma MoveToValid<T>(s: Fetcher<T>, op: Op, r: nat)
    requires Ready(s) && 1 <= r
    ensures var (s1, ret) := MoveTo(s, op, r); Ready(s1) && (ret == SqlSuccess ==> s1.current.Some?)
  {
    match op {
      case Next => PullValid(s.(prior := s.row));
      case Prior => PriorValid(s, r);
      case First => PullValid(ToFront(s));
    }
  }

  /** The second half of a fetch: the rows, if moving the cursor succeeded. */
  function ReadAfter<T>(moved: (Fetcher<T>, SqlReturn), r: nat, b: Binding): (Fetcher<T>, SqlReturn, seq<T>)
    requires moved.1 == SqlSuccess ==> moved.0.current.Some? && -1 <= moved.0.row
  {
    if moved.1 != SqlSuccess then (moved.0, moved.1, [])
    else
      var (s1, rows) := ReadRowset(moved.0, r, b);
      (s1, SqlSuccess, rows)
  }

  /** One call of SQLFetchScroll: the new cursor, the return code and the rows delivered, when bound columns have fixed
      widths and are converted without errors. */
  function Fetch<T>(s: Fetcher<T>, op: Op, r: nat, b: Binding): (res: (Fetcher<T>, SqlReturn, seq<T>))
    requires Ready(s) && 1 <= r
    ensures Ready(res.0)
  {
    MoveToValid(s, op, r);
    ReadAfter(MoveTo(s, op, r), r, b)
  }

  /** The peek after execution: like SQL_FETCH_FIRST, on any cursor type, without reading a row. */
  function Peek<T>(s: Fetcher<T>): (Fetcher<T>, SqlReturn) {
    var (s1, ret) := MoveTo(s.(cursorType := Scrollable), First, 1);
    (s1.(cursorType := s.cursorType), ret)
  }
}

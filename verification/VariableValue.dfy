/** Returning one variable-length value in parts, as SQLGetData does
    (Microsoft ODBC Programmer's Reference, "Retrieving Variable-Length Data in Parts"). */
module VariableValue {
  import opened Common
  import opened HeldCursor
  import opened FetchSpec
  import opened FetchRuns
  import opened MaterializeRuns
  import opened ValueParts
  import opened BoundColumns
  import opened BoundRuns
  import opened BoundScroll
  import opened OdbcCursor

  function Zeros(n: nat): (s: seq<Byte>)
    ensures |s| == n
  {
    seq(n, _ => 0)
  }

  /** The buffer starts with the piece and its terminator, and is otherwise as before. */
  predicate Holds(buffer: seq<Byte>, piece: seq<Byte>, term: nat, before: seq<Byte>)
    requires |piece| + term <= |before|
  {
    buffer == piece + Zeros(term) + before[|piece| + term..]
  }

  /** Copies a piece to the front of the buffer and writes the terminator behind it. */
  method CopyTerminated(target: array<Byte>, piece: seq<Byte>, term: nat)
    requires |piece| + term <= target.Length
    modifies target
    ensures Holds(target[..], piece, term, old(target[..]))
  {
    forall i | 0 <= i < |piece| {
      target[i] := piece[i];
    }
    for i := 0 to term
      invariant target[..|piece|] == piece
      invariant forall k | |piece| <= k < |piece| + i :: target[k] == 0
      invariant forall k | |piece| + i <= k < target.Length :: target[k] == old(target[k])
    {
      target[|piece| + i] := 0;
    }
    assert target[|piece|..|piece| + term] == Zeros(term);
    assert target[..] == target[..|piece|] + target[|piece|..|piece| + term] + target[|piece| + term..];
  }

  /** One call; without a target it only reports the length that is left.  The value lies in memory, and
      over a held result an empty value can be met with progress of another row. */
  method GetVariableValue<T>(fetcher: OdbcFetch<T>, colIdx: int, hasTarget: bool, target: array<Byte>,
                             bufferLength: int, hasIndicator: bool, value: seq<Byte>, memory: nat -> Byte,
                             charSize: nat, nullTerminate: bool)
    returns (ret: SqlReturn, indicator: Option<int>)
    requires -SIZE_T_RANGE < 2 * bufferLength < SIZE_T_RANGE && Fits(value) && 1 <= charSize <= 2
    requires fetcher.lastFetched.length < SIZE_T_RANGE
    // the application owns the buffer it announces; a negative length announces more than any value needs
    requires hasTarget ==>
      var left := Remaining(value, Resumed(fetcher.lastFetched, colIdx, fetcher.chunkRow).length);
      (if 0 <= bufferLength then bufferLength else left + charSize) <= target.Length
    modifies fetcher`lastFetched, target
    ensures
      var term := Terminator(charSize, nullTerminate);
      var (last, cell) := ReadValue(old(fetcher.lastFetched), colIdx, fetcher.chunkRow, value, memory,
                                    Space(bufferLength, term), hasTarget, hasIndicator);
      && fetcher.lastFetched == last && ret == cell.ret && indicator == cell.indicator
      && if hasTarget && (ret == SqlSuccess || ret == SqlSuccessWithInfo) then
           |cell.piece| + term <= target.Length && Holds(target[..], cell.piece, term, old(target[..]))
         else target[..] == old(target[..])
  {
    hide Holds, Copied, Remaining, ReadValue, NextPart;
    ReadValueWhole(fetcher.lastFetched, colIdx, fetcher.chunkRow, value, memory,
                   Space(bufferLength, Terminator(charSize, nullTerminate)), hasTarget, hasIndicator);
    fetcher.SetLastFetchedVariableVal(colIdx);
    var lastLen := fetcher.lastFetched.length;
    if |value| > 0 && lastLen >= |value| {
      return SqlNoData, None;
    }
    if nullTerminate && AsSize(bufferLength) < charSize {
      return SqlError, None;
    }
    var effectiveSize := AsSize(bufferLength);
    if nullTerminate {
      effectiveSize := effectiveSize - charSize;
    }
    var remaining := Remaining(value, lastLen);
    if !hasTarget {
      if hasIndicator {
        return SqlSuccess, Some(AsLength(remaining));
      }
      return SqlError, None;
    }
    ret := SqlSuccess;
    var outLen := remaining;
    if outLen > effectiveSize {
      outLen := effectiveSize;
      ret := SqlSuccessWithInfo;
    }
    CopyTerminated(target, Copied(value, memory, lastLen, outLen), Terminator(charSize, nullTerminate));
    indicator := if hasIndicator then Some(AsLength(remaining)) else None;
    fetcher.SetLastFetchedLength((lastLen + outLen) % SIZE_T_RANGE);
  }

  // ---------------------------------------------------------------- reassembly

  function Sum(spaces: seq<nat>): nat {
    if spaces == [] then 0 else Sum(spaces[..|spaces| - 1]) + spaces[|spaces| - 1]
  }

  /** The progress after a run of calls with the given buffer spaces. */
  function Progress(value: seq<Byte>, memory: nat -> Byte, spaces: seq<nat>): nat {
    if spaces == [] then 0
    else NextPart(value, memory, Progress(value, memory, spaces[..|spaces| - 1]), Some(spaces[|spaces| - 1])).done
  }

  /** All pieces a run of calls returned, one after the other. */
  function Reassembled(value: seq<Byte>, memory: nat -> Byte, spaces: seq<nat>): seq<Byte> {
    if spaces == [] then []
    else
      Reassembled(value, memory, spaces[..|spaces| - 1])
      + NextPart(value, memory, Progress(value, memory, spaces[..|spaces| - 1]), Some(spaces[|spaces| - 1])).piece
  }

  /** One more piece behind those returned. */
  lemma PieceFollows(value: seq<Byte>, memory: nat -> Byte, done: nat, space: nat)
    requires Fits(value) && done <= |value|
    ensures var part := NextPart(value, memory, done, Some(space));
      part.done == Min(|value|, done + space) && value[..done] + part.piece == value[..part.done]
  {
    hide NextPart;
    OwnProgress(value, memory, done, space);
  }

  lemma {:induction false} PiecesFollow(value: seq<Byte>, memory: nat -> Byte, spaces: seq<nat>)
    requires Fits(value)
    ensures Progress(value, memory, spaces) == Min(|value|, Sum(spaces))
    ensures Reassembled(value, memory, spaces) == value[..Min(|value|, Sum(spaces))]
  {
    hide NextPart;
    if spaces != [] {
      PiecesFollow(value, memory, spaces[..|spaces| - 1]);
      PieceFollows(value, memory, Progress(value, memory, spaces[..|spaces| - 1]), spaces[|spaces| - 1]);
    }
  }

  /** The pieces of any run are the value as far as the buffers reached, byte for byte; and the next
      call reports what is left, with information exactly while some stays behind, and no data after the end. */
  lemma PartsReassemble(value: seq<Byte>, memory: nat -> Byte, spaces: seq<nat>, next: nat)
    requires Fits(value)
    ensures Progress(value, memory, spaces) == Min(|value|, Sum(spaces))
    ensures Reassembled(value, memory, spaces) == value[..Min(|value|, Sum(spaces))]
    ensures
      var part, before := NextPart(value, memory, Progress(value, memory, spaces), Some(next)), Sum(spaces);
      && (part.ret == SqlNoData <==> value != [] && |value| <= before)
      && (part.ret == SqlSuccessWithInfo <==> before + next < |value|)
      && (part.ret != SqlNoData ==> part.indicator == Some(if |value| < before then 0 else |value| - before))
  {
    hide NextPart, Progress, Reassembled, Sum;
    PiecesFollow(value, memory, spaces);
    OwnProgress(value, memory, Progress(value, memory, spaces), next);
  }

  /** Room for the terminator alone never makes progress. */
  lemma {:induction false} TerminatorOnlyStalls(value: seq<Byte>, memory: nat -> Byte, n: nat)
    requires value != [] && Fits(value)
    ensures NextPart(value, memory, Progress(value, memory, seq(n, _ => 0)), Some(0))
      == Part(SqlSuccessWithInfo, Some(|value|), [], 0)
  {
    if n != 0 {
      TerminatorOnlyStalls(value, memory, n - 1);
      assert seq(n, _ => 0)[..n - 1] == seq(n - 1, _ => 0);
    }
  }

  // ---------------------------------------------------------------- new cells

  /** A row reached by reading forward is read from its start, whichever column is read, but for the final column of the
      row that the fetch itself read as text. */
  lemma NewRowStartsAtZero<T>(s: Fetcher<T>, r: nat, columns: seq<Column<T>>, col: nat)
    requires Streaming(s) && 1 <= r && (columns == [] ==> r == 1)
    ensures var (s1, ret, shown) := FetchColumns(s, Next, r, columns);
      shown != [] ==>
        || Resumed(s1.last, col, s1.row).length == 0
        || FinalRead(columns, |columns|, shown[|shown| - 1].row) == Some(col)
  {
    hide FetchColumns, ReadCell;
    NextKeepsProgress(s, r, columns);
  }

  /** Of that column SQLGetData returns what did not fit into the bound buffer: no data exactly when all of it did. */
  lemma BoundValueIsContinued<T>(s: Fetcher<T>, r: nat, columns: seq<Column<T>>, col: nat, space: nat)
    requires Streaming(s) && 1 <= r && columns != [] && FetchColumns(s, Next, r, columns).2 != []
    requires var shown := FetchColumns(s, Next, r, columns).2;
      FinalRead(columns, |columns|, shown[|shown| - 1].row) == Some(col)
    requires col < |columns| && columns[col].hasTarget && columns[col].space.Some?
    requires var shown := FetchColumns(s, Next, r, columns).2; Fits(columns[col].value(shown[|shown| - 1].row).value)
    ensures
      var (s1, ret, shown) := FetchColumns(s, Next, r, columns);
      var x := shown[|shown| - 1].row;
      var v, first := columns[col].value(x).value, columns[col].space.value;
      var part := NextPart(v, columns[col].memory(x), Resumed(s1.last, col, s1.row).length, Some(space));
      && part.piece == v[Min(|v|, first)..Min(|v|, first + space)]
      && (part.ret == SqlNoData <==> v != [] && |v| <= first)
  {
    hide FetchColumns, NextPart;
    NextKeepsProgress(s, r, columns);
    var shown := FetchColumns(s, Next, r, columns).2;
    var x := shown[|shown| - 1].row;
    var v, first := columns[col].value(x).value, columns[col].space.value;
    OwnProgress(v, columns[col].memory(x), 0, first);
    OwnProgress(v, columns[col].memory(x), Min(|v|, first), space);
  }

  /** Materialization forgets a read in progress: the next call for the value of the same row starts over, and goes on
      where the one before ended exactly when nothing had been returned. */
  lemma MaterializedValueStartsOver<T>(s: Fetcher<T>, col: int, value: seq<Byte>, memory: nat -> Byte, space: nat)
    requires s.current != None && Fits(value) && Resumed(s.last, col, s.row).length <= |value|
    ensures
      var m, done := Materialized(s), Resumed(s.last, col, s.row).length;
      var next := NextPart(value, memory, Resumed(m.last, col, m.row).length, Some(space));
      && m.row == s.row && next.piece == value[..Min(|value|, space)]
      && (next == NextPart(value, memory, done, Some(space)) <==> done == 0)
  {
    hide NextPart, LeadingChunks, HeldAfter, ErrorFree, Rest;
    OwnProgress(value, memory, 0, space);
    OwnProgress(value, memory, Resumed(s.last, col, s.row).length, space);
  }

  /** Where in its chunk a call over the held result lands, if it delivers rows. */
  function Landing<T(==)>(s: Fetcher<T>, op: Op, r: nat): int
    requires HoldsAll(s) && s.chunks != [] && 1 <= r
  {
    match op
    case Next =>
      if s.row + 1 < |s.chunks[|s.chunks| - 1]| then Min(s.row + 1 + r, |s.chunks[s.idx]|) - 1
      else if s.idx + 1 < |s.chunks| then Min(r, |s.chunks[s.idx + 1]|) - 1
      else s.row
    case Prior => if s.prior - r < -1 && 0 < s.idx then |s.chunks[s.idx - 1]| - 1 else s.prior
    case First => Min(r, |s.chunks[0]|) - 1
  }

  /** A call over the held result that shows rows, and reads no text of them. */
  predicate ShowsNoText<T(==)>(s: Fetcher<T>, op: Op, r: nat, columns: seq<Column<T>>)
    requires HoldsAll(s) && 1 <= r
  {
    var shown := FetchColumns(s, op, r, columns).2;
    s.chunks != [] && shown != [] && (columns == [] ==> r == 1) && NoText(columns, shown)
  }

  lemma LandsAt<T>(s: Fetcher<T>, op: Op, r: nat)
    requires HoldsAll(s) && s.chunks != [] && 1 <= r && Fetch(s, op, r, Bound).2 != []
    ensures var s1 := Fetch(s, op, r, Bound).0; s1.row == Landing(s, op, r) && s1.last == s.last
  {
    hide Shows, Offset;
    HeldFetch(s, op, r);
    MoveKeepsRead(s, op, r);
  }

  /** A call that delivers rows leaves the row or the chunk, and there is a chunk to go to. */
  lemma Moved<T>(s: Fetcher<T>, op: Op, r: nat)
    requires HoldsAll(s) && s.chunks != [] && 1 <= r && Fetch(s, op, r, Bound).2 != []
    ensures match op
      case Next => if s.row + 1 < |s.chunks[|s.chunks| - 1]| then s.row < Landing(s, op, r) else s.idx + 1 < |s.chunks|
      case Prior => 0 <= s.idx - (if s.prior - r < -1 then 1 else 0)
      case First => true
  {
  }

  /** Without bindings and with rowsets of one row, a call that shows a row moves as it does with bindings. */
  lemma UnboundLandsAt<T>(s: Fetcher<T>, op: Op)
    requires HoldsAll(s) && s.chunks != [] && Fetch(s, op, 1, Unbound).2 != []
    ensures Fetch(s, op, 1, Unbound) == Fetch(s, op, 1, Bound)
  {
    hide MoveTo;
    MoveToValid(s, op, 1);
    UnboundReadsOne(MoveTo(s, op, 1).0, 1, Unbound);
  }

  lemma UnboundKeepsRead<T>(s: Fetcher<T>, op: Op, r: nat, columns: seq<Column<T>>)
    requires HoldsAll(s) && 1 <= r && columns == []
    ensures FetchColumns(s, op, r, columns).0.last == s.last
  {
    MoveKeepsRead(s, op, r);
    hide MoveTo;
  }

  lemma TextlessLandsAt<T>(s: Fetcher<T>, op: Op, r: nat, columns: seq<Column<T>>)
    requires HoldsAll(s) && 1 <= r && ShowsNoText(s, op, r, columns)
    ensures Fetch(s, op, r, Bound).2 != []
    ensures var s1 := FetchColumns(s, op, r, columns).0; s1.row == Landing(s, op, r) && s1.last == s.last
  {
    hide Landing, Fetch, FetchColumns, NoText;
    ColumnsFollowRows(s, op, r, columns);
    if columns == [] {
      UnboundLandsAt(s, op);
      UnboundKeepsRead(s, op, r, columns);
    } else {
      HeldKeepsPlace(s, op, r, columns);
    }
    LandsAt(s, op, r);
  }

  /** Progress of a read survives a call over the held result that reads no text exactly when the call lands at the
      place that was read. */
  lemma HeldRowStart<T>(s: Fetcher<T>, op: Op, r: nat, columns: seq<Column<T>>, col: int)
    requires HoldsAll(s) && 1 <= r && ShowsNoText(s, op, r, columns) && s.last.length != 0
    ensures var s1 := FetchColumns(s, op, r, columns).0;
      Resumed(s1.last, col, s1.row).length == 0 <==> !(s.last.col == col && s.last.row == Landing(s, op, r))
  {
    TextlessLandsAt(s, op, r, columns);
  }

  /** A call that reads text leaves no progress but that of the final column of its last row. */
  lemma HeldTextStart<T>(s: Fetcher<T>, op: Op, r: nat, columns: seq<Column<T>>, col: nat)
    requires HoldsAll(s) && 1 <= r && s.chunks != [] && columns != []
    requires FetchColumns(s, op, r, columns).2 != [] && !ShowsNoText(s, op, r, columns)
    ensures var (s1, ret, shown) := FetchColumns(s, op, r, columns);
      Resumed(s1.last, col, s1.row).length == 0 || FinalRead(columns, |columns|, shown[|shown| - 1].row) == Some(col)
  {
    hide FetchColumns, NoText, FinalRead;
    HeldKeepsPlace(s, op, r, columns);
  }

  /** A value of the current row was read in part. SQL_FETCH_NEXT resumes in the middle of another value exactly when it
      leaves the chunk and its rowset ends at the same place of the next one; SQL_FETCH_PRIOR when the chunk before ends
      at that place, or behind the last row when it comes back to the same row; SQL_FETCH_FIRST when the first rowset
      ends there. */
  lemma CurrentRowResumesExactlyWhen<T>(s: Fetcher<T>, op: Op, r: nat, columns: seq<Column<T>>, col: int)
    requires HoldsAll(s) && 1 <= r && ShowsNoText(s, op, r, columns)
    requires s.last.length != 0 && s.last.col == col && s.last.row == s.row
    ensures var s1 := FetchColumns(s, op, r, columns).0;
      Resumed(s1.last, col, s1.row).length != 0 <==>
        match op
        case Next =>
          && s.idx + 1 < |s.chunks| && |s.chunks[|s.chunks| - 1]| <= s.row + 1
          && Min(r, |s.chunks[s.idx + 1]|) == s.row + 1
        case Prior => if s.prior - r < -1 then |s.chunks[s.idx - 1]| == s.row + 1 else s.prior == s.row
        case First => Min(r, |s.chunks[0]|) == s.row + 1
  {
    HeldRowStart(s, op, r, columns, col);
    TextlessLandsAt(s, op, r, columns);
    Moved(s, op, r);
    hide FetchColumns;
  }

  /** An empty value of the new row then reads memory behind the value, and does so exactly then. */
  lemma HeldEmptyValueReadsBeyondExactlyWhen<T>(s: Fetcher<T>, op: Op, r: nat, columns: seq<Column<T>>, col: int,
                                                memory: nat -> Byte, space: nat)
    requires HoldsAll(s) && 1 <= r && ShowsNoText(s, op, r, columns) && 0 < s.last.length < SIZE_T_RANGE && 1 <= space
    ensures var s1 := FetchColumns(s, op, r, columns).0;
      var part := NextPart([], memory, Resumed(s1.last, col, s1.row).length, Some(space));
      part.piece != [] <==> s.last.col == col && s.last.row == Landing(s, op, r)
  {
    HeldRowStart(s, op, r, columns, col);
    TextlessLandsAt(s, op, r, columns);
    hide FetchColumns, Landing;
  }

  /** Two held chunks of one row, the first of them current and `last` read of it. */
  function SingleRows<T>(x: T, y: T, last: LastRead): Fetcher<T> {
    Fetcher(Scrollable, [[x], [y]], [], 0, Some([x]), 0, -1, true, last)
  }

  lemma SingleRowsFetch<T>(x: T, y: T, last: LastRead)
    ensures var s := SingleRows(x, y, last);
      HoldsAll(s) && Fetch(s, Next, 1, Bound)
        == (s.(idx := 1, current := Some([y]), row := 0, prior := -1), SqlSuccess, [y])
  {
    assert [y][0..1] == [y];
  }

  /** The input: the second row is read from where the reading of the first one stopped. */
  lemma HeldRowResumesInTheMiddle<T>(x: T, y: T, columns: seq<Column<T>>, col: int, done: nat)
    requires 1 <= done && columns != [] && FinalRead(columns, |columns|, y) == None
    ensures
      var s := SingleRows(x, y, LastRead(col, 0, done));
      HoldsAll(s) &&
      var (s1, ret, shown) := FetchColumns(s, Next, 1, columns);
      RowsOf(shown) == [y] && Resumed(s1.last, col, s1.row).length == done
  {
    hide FetchColumns, Fetch, FinalRead;
    var s := SingleRows(x, y, LastRead(col, 0, done));
    SingleRowsFetch(x, y, s.last);
    ColumnsFollowRows(s, Next, 1, columns);
    HeldKeepsPlace(s, Next, 1, columns);
  }
}

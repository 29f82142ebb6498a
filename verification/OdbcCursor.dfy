/** The driver's result cursor, updated in place. */
module OdbcCursor {
  import opened Common
  import opened HeldCursor
  import opened FetchSpec
  import opened FetchRuns
  import opened MaterializeRuns
  import opened ValueParts
  import opened BoundColumns

  /** Between two pulls of a materialization that started at `before`. */
  predicate Pulling<T(==)>(before: Fetcher<T>, s: Fetcher<T>, ret: SqlReturn) {
    && s.cursorType == before.cursorType && (s.chunks == [] ==> s.current == before.current)
    && if ret == SqlSuccess then
         && !s.resultsetEnd && Rest(s.source) == Rest(before.source) && ErrorFree(s.source) == ErrorFree(before.source)
         && HeldAfter(s) == HeldAfter(before)
       else
         && s.chunks == HeldAfter(before) && s.source == Rest(before.source)
         && s.resultsetEnd == ErrorFree(before.source) && ret == if s.resultsetEnd then SqlNoData else SqlError
  }

  lemma PullingGoesOn<T>(before: Fetcher<T>, s: Fetcher<T>)
    requires Pulling(before, s, SqlSuccess)
    ensures var (s1, ret) := PullNext(s);
      Pulling(before, s1, ret) && s1.last == NOTHING_READ && (ret == SqlSuccess ==> |s1.source| < |s.source|)
  {
    if s.source != [] && s.source[0].Chunk? {
      assert s.chunks + ([s.source[0].rows] + LeadingChunks(s.source[1..]))
        == s.chunks + [s.source[0].rows] + LeadingChunks(s.source[1..]);
    }
    assert s.chunks + [] == s.chunks;
  }

  class OdbcFetch<T(==)> {
    var cursorType: CursorType
    // the engine's result, chunk by chunk
    var source: seq<Pull<T>>
    var lastFetched: LastRead
    var chunks: seq<seq<T>>
    var currentChunkIdx: nat
    var currentChunk: Option<seq<T>>
    var chunkRow: int
    var priorChunkRow: int
    var resultsetEnd: bool

    /** All fields, as one value. */
    ghost function View(): Fetcher<T>
      reads this
    {
      Fetcher(cursorType, chunks, source, currentChunkIdx, currentChunk, chunkRow, priorChunkRow, resultsetEnd,
        lastFetched)
    }

    /** Like the source's constructor, this leaves the cursor's position to `ClearChunks`. */
    constructor (result: seq<Pull<T>>)
      ensures cursorType == ForwardOnly && source == result && chunks == [] && !resultsetEnd
      ensures lastFetched == NOTHING_READ
    {
      cursorType, source, chunks, resultsetEnd, lastFetched := ForwardOnly, result, [], false, NOTHING_READ;
      currentChunkIdx, currentChunk, chunkRow, priorChunkRow := 0, None, 0, 0;
    }

    method ClearChunks()
      modifies this
      ensures View() == Cleared(old(View()))
    {
      chunks := [];
      currentChunk := None;
      chunkRow, priorChunkRow := -1, -1;
      resultsetEnd := false;
    }

    method ResetLastFetchedVariableVal()
      modifies this`lastFetched
      ensures lastFetched == NOTHING_READ
    {
      lastFetched := LastRead(-1, -1, 0);
    }

    method SetCurrentChunk() returns (ret: SqlReturn)
      modifies this
      ensures (View(), ret) == SetCurrent(old(View()))
    {
      if chunks == [] {
        return SqlNoData;
      }
      if cursorType != ForwardOnly && currentChunkIdx < |chunks| - 1 {
        currentChunkIdx := currentChunkIdx + 1;
        currentChunk := Some(chunks[currentChunkIdx]);
        chunkRow, priorChunkRow := -1, -1;
        return SqlSuccess;
      }
      currentChunk := Some(chunks[|chunks| - 1]);
      currentChunkIdx := |chunks| - 1;
      chunkRow, priorChunkRow := -1, -1;
      ret := SqlSuccess;
    }

    method FetchNext() returns (ret: SqlReturn)
      modifies this
      ensures (View(), ret) == PullNext(old(View()))
    {
      if !resultsetEnd {
        ResetLastFetchedVariableVal();
        var pulled := Chunk([]);
        if source != [] {
          pulled := source[0];
          source := source[1..];
        }
        if pulled == Failure {
          return SqlError;
        }
        if |pulled.rows| == 0 {
          resultsetEnd := true;
          return SqlNoData;
        }
        if cursorType == ForwardOnly {
          if chunks != [] {
            chunks := [];
          }
          chunks := chunks + [pulled.rows];
          assert chunks == [pulled.rows];
        } else {
          chunks := chunks + [pulled.rows];
        }
      }
      ret := SetCurrentChunk();
    }

    method BeforeStart()
      modifies this
      ensures View() == ToFront(old(View()))
    {
      if chunks != [] {
        currentChunk := Some(chunks[0]);
      }
      currentChunkIdx := 0;
      chunkRow, priorChunkRow := -1, -1;
    }

    method SetPriorCurrentChunk(arraySize: nat) returns (ret: SqlReturn)
      requires currentChunkIdx == 0 || currentChunkIdx < |chunks|
      modifies this
      ensures (View(), ret) == ToPrior(old(View()), arraySize)
    {
      priorChunkRow := priorChunkRow - arraySize;
      if currentChunkIdx == 0 && priorChunkRow < -1 {
        chunkRow := -1;
        return SqlNoData;
      }
      if priorChunkRow < -1 {
        currentChunkIdx := currentChunkIdx - 1;
        currentChunk := Some(chunks[currentChunkIdx]);
        priorChunkRow := |chunks[currentChunkIdx]| - arraySize - 1;
        if priorChunkRow < 0 {
          priorChunkRow := -1;
        }
      }
      chunkRow := priorChunkRow;
      ret := SqlSuccess;
    }

    method SetFirstCurrentChunk() returns (ret: SqlReturn)
      modifies this
      ensures (View(), ret) == if ToFront(old(View())).current == None then PullNext(ToFront(old(View())))
                               else (ToFront(old(View())), SqlSuccess)
    {
      BeforeStart();
      if currentChunk == None {
        ret := FetchNext();
        return;
      }
      ret := SqlSuccess;
    }

    method FetchNextChunk(orientation: Op, arraySize: nat) returns (ret: SqlReturn)
      requires orientation == Prior ==> currentChunkIdx == 0 || currentChunkIdx < |chunks|
      modifies this
      ensures (View(), ret) == MoveTo(old(View()), orientation, arraySize)
    {
      if cursorType == ForwardOnly && orientation != Next {
        return SqlError;
      }
      match orientation {
        case Next =>
          priorChunkRow := chunkRow;
          if chunks == [] || chunkRow >= |chunks[|chunks| - 1]| - 1 {
            // the size minus one wraps around when no chunk is held, and then equals no index
            if resultsetEnd && chunks != [] && currentChunkIdx == |chunks| - 1 {
              return SqlNoData;
            }
            ret := FetchNext();
            return;
          }
          ret := SqlSuccess;
        case Prior =>
          ret := SetPriorCurrentChunk(arraySize);
        case First =>
          ret := SetFirstCurrentChunk();
      }
    }

    /** The loop over the columns of the current row. The code is that of the last cell. */
    method ReadRow(columns: seq<Column<T>>, x: T, before: SqlReturn) returns (ret: SqlReturn, cells: seq<Cell>)
      modifies this`lastFetched
      ensures (lastFetched, cells) == ReadCells(columns, |columns|, old(lastFetched), chunkRow, x)
      ensures ret == CodeAfter(cells, before)
    {
      hide ReadCell;
      ret, cells := before, [];
      for col := 0 to |columns|
        invariant (lastFetched, cells) == ReadCells(columns, col, old(lastFetched), chunkRow, x)
        invariant ret == CodeAfter(cells, before)
      {
        var (after, cell) := ReadCell(columns[col], lastFetched, col, chunkRow, x);
        lastFetched := after;
        if cell != Skipped {
          ret := cell.ret;
        }
        assert (cells + [cell])[..|cells|] == cells;
        cells := cells + [cell];
      }
    }

    /** The loop over the rows of the next rowset, by column or by row alike. */
    method ReadBound(arraySize: nat, columns: seq<Column<T>>) returns (ret: SqlReturn, rows: seq<ShownRow<T>>)
      requires currentChunk.Some? && -1 <= chunkRow && columns != []
      modifies this`chunkRow, this`lastFetched
      ensures (View(), ret, rows) == ReadColumns(old(View()), arraySize, columns)
    {
      hide ReadRows, Code, ReadCells, ReadColumns, ReadRowset;
      ReadColumnsIs(View(), arraySize, columns);
      RowsNone(columns, currentChunk.value, chunkRow + 1, lastFetched);
      ret, rows := SqlSuccess, [];
      var chunk := currentChunk.value;
      var firstRow := chunkRow + 1;
      var lastRow := firstRow + arraySize;
      if lastRow > |chunk| {
        lastRow := |chunk|;
      }
      ghost var last := lastFetched;
      for rowIdx := firstRow to if lastRow < firstRow then firstRow else lastRow
        invariant firstRow <= rowIdx && chunkRow == rowIdx - 1 && (firstRow < rowIdx ==> rowIdx <= lastRow)
        invariant (lastFetched, rows) == ReadRows(columns, chunk, firstRow, rowIdx - firstRow, last)
        invariant ret == Code(rows)
      {
        chunkRow := chunkRow + 1;
        var cells;
        RowsGrow(columns, chunk, firstRow, rowIdx - firstRow, last);
        ret, cells := ReadRow(columns, chunk[rowIdx], ret);
        rows := rows + [ShownRow(chunk[rowIdx], cells)];
      }
    }

    method Fetch(orientation: Op, arraySize: nat, columns: seq<Column<T>>)
      returns (ret: SqlReturn, rows: seq<ShownRow<T>>)
      requires Ready(View()) && 1 <= arraySize
      modifies this
      ensures (View(), ret, rows) == FetchColumns(old(View()), orientation, arraySize, columns)
    {
      hide ReadRows, Code, MoveTo;
      MoveToValid(View(), orientation, arraySize);
      ret := FetchNextChunk(orientation, arraySize);
      if ret != SqlSuccess {
        return ret, [];
      }
      if columns == [] {
        chunkRow := chunkRow + arraySize;
        // the row that SQLGetData now reads
        rows := if 0 <= chunkRow < |currentChunk.value| then [ShownRow(currentChunk.value[chunkRow], [])] else [];
        ghost var read := ReadRowset(MoveTo(old(View()), orientation, arraySize).0, arraySize, Unbound).1;
        assert rows == seq(|read|, i requires 0 <= i < |read| => ShownRow(read[i], []));
      } else {
        ret, rows := ReadBound(arraySize, columns);
      }
    }

    method FetchFirst() returns (ret: SqlReturn)
      modifies this
      ensures (View(), ret) == Peek(old(View()))
    {
      var cursorTypeBefore := cursorType;
      cursorType := Scrollable;
      ret := FetchNextChunk(First, 1);
      cursorType := cursorTypeBefore;
    }

    /** Pulls everything that is left and stands again where it stood, on a forward-only cursor with the only
        chunk it holds gone.  With the end already seen and a chunk held the loop below would not end, see
        `EndSeenPullsForever`. */
    method Materialize() returns (ret: SqlReturn)
      requires Valid(View())
      requires !resultsetEnd || chunks == []
      modifies this
      ensures !old(resultsetEnd) ==> View() == Materialized(old(View()))
      ensures old(resultsetEnd) ==> View() == ToFront(old(View()))
      ensures ret == if old(resultsetEnd) || ErrorFree(old(source)) then SqlSuccess else SqlError
    {
      var beforeCurChunk, beforeCurChunkIdx := currentChunk, currentChunkIdx;
      var beforeChunkRow, beforePriorChunkRow := chunkRow, priorChunkRow;
      ghost var before := View();
      if !resultsetEnd {
        PullingGoesOn(before, before);
      }

      ret := FetchNext();
      while ret == SqlSuccess
        invariant before.resultsetEnd ==> ret == SqlNoData && View() == before
        invariant !before.resultsetEnd ==> Pulling(before, View(), ret) && lastFetched == NOTHING_READ
        decreases if ret == SqlSuccess then 1 + |source| else 0
      {
        PullingGoesOn(before, View());
        ret := FetchNext();
      }

      if beforeCurChunk != None {
        currentChunk := beforeCurChunk;
        currentChunkIdx := beforeCurChunkIdx;
        chunkRow := beforeChunkRow;
        priorChunkRow := beforePriorChunkRow;
      } else {
        if chunks != [] {
          currentChunk := Some(chunks[0]);
        }
        currentChunkIdx := 0;
        chunkRow, priorChunkRow := -1, -1;
      }
      if ret == SqlNoData || ret == SqlSuccess {
        return SqlSuccess;
      }
    }

    /** Forgets how much of a value was returned unless the same cell is read again. */
    method SetLastFetchedVariableVal(colIdx: int)
      modifies this`lastFetched
      ensures lastFetched == Resumed(old(lastFetched), colIdx, chunkRow)
    {
      if lastFetched.col != colIdx || lastFetched.row != chunkRow {
        lastFetched := lastFetched.(length := 0);
      }
      lastFetched := lastFetched.(col := colIdx, row := chunkRow);
    }

    method SetLastFetchedLength(newLen: nat)
      modifies this`lastFetched
      ensures lastFetched == old(lastFetched).(length := newLen)
    {
      lastFetched := lastFetched.(length := newLen);
    }
  }

  /** With the end seen and a chunk held, pulling succeeds every time: a loop that stops only on
      failure, as materialization does, would run forever. */
  lemma {:induction false} EndSeenPullsForever<T>(s: Fetcher<T>, n: nat)
    requires s.resultsetEnd && s.chunks != []
    ensures PulledTimes(s, n).resultsetEnd && PulledTimes(s, n).chunks == s.chunks
    ensures PullNext(PulledTimes(s, n)).1 == SqlSuccess
  {
    if n != 0 {
      EndSeenPullsForever(s, n - 1);
    }
  }

  function PulledTimes<T>(s: Fetcher<T>, n: nat): Fetcher<T> {
    if n == 0 then s else PullNext(PulledTimes(s, n - 1)).0
  }
}

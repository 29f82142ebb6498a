/** Reading on over the materialized result with bound columns. */
module BoundMaterialize {
  import opened Common
  import opened HeldCursor
  import opened FetchSpec
  import opened FetchRuns
  import opened MaterializeRuns
  import opened ValueParts
  import opened BoundColumns
  import opened BoundRuns
  import opened BoundScroll

  /** One call of SQL_FETCH_NEXT over steady chunks: the next rows of the chunk or, from its end, of the next one. */
  predicate ReadsOn(sizes: seq<nat>, h: Held, h1: Held, out: Outcome)
    requires h.idx < |sizes| && h1.idx < |sizes|
  {
    match out
    case NoData => End(sizes, h) == Total(sizes) == End(sizes, h1) && h1.idx == h.idx == |sizes| - 1 && h1.row == h.row
    case Rowset(start, count) =>
      && start == End(sizes, h) && 1 <= count && End(sizes, h1) == End(sizes, h) + count <= Total(sizes)
      && if h1.idx == h.idx then h1.row == h.row + count
         else h1.idx == h.idx + 1 && h.row + 1 == sizes[h.idx] && h1.row + 1 == count
  }

  lemma SteadyReadsOn(sizes: seq<nat>, r: nat, h: Held)
    requires Sizes(sizes) && InRange(sizes, h) && sizes != [] && 1 <= r && Steady(sizes, r, h)
    ensures var (h1, out) := Step(sizes, r, h, Next);
      InRange(sizes, h1) && Steady(sizes, r, h1) && ReadsOn(sizes, h, h1, out)
  {
    StepInRange(sizes, r, h, Next);
    OffsetMonotone(sizes, h.idx + 1, |sizes|);
    if h.row + 1 < sizes[h.idx] {
      SteadyInChunk(sizes, r, h);
    } else if h.idx + 1 < |sizes| {
      SteadyNextChunk(sizes, r, h);
      OffsetMonotone(sizes, h.idx + 2, |sizes|);
    }
    hide EndsWhereExpected;
  }

  /** No chunk of a single row is left behind with its value just read, before the last chunk. */
  predicate CrossesFresh(sizes: seq<nat>, h: Held, progress: bool) {
    forall i | h.idx <= i < |sizes| - 1 && sizes[i] == 1 :: i == h.idx && h.row == 0 && !progress
  }

  /** What a call of SQL_FETCH_NEXT does to that, when it reads a single text of every row. */
  lemma CrossingStep(sizes: seq<nat>, h: Held, h1: Held, out: Outcome, progress: bool)
    requires Sizes(sizes) && InRange(sizes, h) && InRange(sizes, h1) && sizes != [] && ReadsOn(sizes, h, h1, out)
    requires out.Rowset?
    ensures
      var from := h1.row + 1 - out.count;
      && CrossesFresh(sizes, h, progress) <==> !(progress && h.row == from) && CrossesFresh(sizes, h1, true)
  {
  }

  /** The rows have the texts of the row `x0`; and if that is a single one, reading it shows where it starts. */
  predicate Telling<T(==)>(columns: seq<Column<T>>, x0: T, rows: seq<T>) {
    && NoNulls(columns, rows)
    && forall x | x in rows ::
         && FirstRead(columns, |columns|, x) == FirstRead(columns, |columns|, x0)
         && FinalRead(columns, |columns|, x) == FinalRead(columns, |columns|, x0)
         && (Alone(columns, x) ==> Tells(columns[FinalRead(columns, |columns|, x).value], x))
  }

  lemma {:induction false} FirstRowRead<T>(columns: seq<Column<T>>, chunk: seq<T>, from: nat, n: nat, last: LastRead)
    requires from + n <= |chunk| && 1 <= n
    ensures ReadRows(columns, chunk, from, n, last).1[0].cells
      == ReadCells(columns, |columns|, last, from, chunk[from]).1
  {
    hide ReadCells;
    if 1 < n {
      FirstRowRead(columns, chunk, from, n - 1, last);
    }
  }

  /** What was read last, if some of it was returned, is the final text of a row at the given place. */
  predicate LeftAt<T>(columns: seq<Column<T>>, x0: T, row: int, last: LastRead) {
    last.length != 0 ==> ReadLast(columns, last, x0) && last.row == row
  }

  /** A rowset is read from the starts of its values exactly when no single text was read last at the place of its first
      row. */
  lemma TellingRowset<T>(columns: seq<Column<T>>, x0: T, chunk: seq<T>, from: nat, n: nat, last: LastRead, row: int)
    requires from + n <= |chunk| && 1 <= n && Telling(columns, x0, chunk) && LeftAt(columns, x0, row, last)
    ensures var (after, shown) := ReadRows(columns, chunk, from, n, last);
      var expected := FreshRows(columns, chunk[from..from + n]);
      && (shown == expected <==> !(Alone(columns, x0) && last.length != 0 && row == from))
      && (shown == expected ==> LeftAt(columns, x0, from + n - 1, after) && (Alone(columns, x0) ==> after.length != 0))
  {
    hide ReadCells, ReadCell, FirstRead, FinalRead, FreshCell, ReadRows, Tells;
    assert chunk[from] in chunk && chunk[from + n - 1] in chunk;
    if Alone(columns, x0) && last.length != 0 && row == from {
      ResumedRowset(columns, x0, chunk, from, n, last);
    } else {
      RowsetIsFresh(columns, chunk, from, n, last);
      if Alone(columns, x0) {
        var c := FinalRead(columns, |columns|, x0).value;
        ReadMakesProgress(columns[c], c, from + n - 1, chunk[from + n - 1]);
      }
    }
  }

  lemma ResumedRowset<T>(columns: seq<Column<T>>, x0: T, chunk: seq<T>, from: nat, n: nat, last: LastRead)
    requires from + n <= |chunk| && 1 <= n && Telling(columns, x0, chunk)
    requires Alone(columns, x0) && last.length != 0 && last.row == from && ReadLast(columns, last, x0)
    ensures ReadRows(columns, chunk, from, n, last).1 != FreshRows(columns, chunk[from..from + n])
  {
    hide ReadCells, ReadCell, FirstRead, FinalRead, Fresh, FreshCell, ReadRows, Tells;
    var x, c := chunk[from], FinalRead(columns, |columns|, x0).value;
    assert x in chunk;
    FirstRowRead(columns, chunk, from, n, last);
    AloneIsOnly(columns, |columns|, x);
    OneCellRead(columns, |columns|, last, from, x, c);
    ProgressTells(columns[c], last, c, from, x);
    FreshAt(columns, x, c);
    assert FreshRows(columns, chunk[from..from + n])[0] == Fresh(columns, x);
  }

  lemma FreshAt<T>(columns: seq<Column<T>>, x: T, c: nat)
    requires c < |columns|
    ensures Fresh(columns, x).cells[c] == FreshCell(columns[c], x)
  {
  }

  lemma ChunkTells<T>(columns: seq<Column<T>>, x0: T, chunks: seq<seq<T>>, i: nat)
    requires i < |chunks| && Telling(columns, x0, Flat(chunks, |chunks|))
    ensures Telling(columns, x0, chunks[i])
  {
    hide Flat, Offset, FirstRead, FinalRead, Tells, Alone;
    if chunks[i] != [] {
      ChunkTexts(columns, chunks, i);
    }
    var flat := Flat(chunks, |chunks|);
    forall x | x in chunks[i] ensures x in flat {
      var k :| 0 <= k < |chunks[i]| && chunks[i][k] == x;
      FlatRow(chunks, i, k);
    }
  }

  /** What one call of SQL_FETCH_NEXT shows over steady chunks. */
  ghost predicate ReadsOnColumns<T>(s: Fetcher<T>, r: nat, columns: seq<Column<T>>, x0: T)
    requires HoldsAll(s) && s.chunks != [] && 1 <= r
  {
    var (s1, ret, shown) := FetchColumns(s, Next, r, columns);
    var sizes, flat := SizesOf(s.chunks), Flat(s.chunks, |s.chunks|);
    && Sizes(sizes) && InRange(sizes, PositionOf(s))
    && var (h1, out) := Step(sizes, r, PositionOf(s), Next);
    && HoldsAll(s1) && s1.chunks == s.chunks && PositionOf(s1) == h1 && InRange(sizes, h1)
    && Steady(sizes, r, h1) && ReadsOn(sizes, PositionOf(s), h1, out)
    && match out
       case NoData => shown == [] && s1.last == s.last
       case Rowset(start, count) =>
         && |shown| == count && start + count <= |flat|
         && var same := shown == FreshRows(columns, flat[start..start + count]);
            && (same <==> !(Alone(columns, x0) && s.last.length != 0 && s.row == s1.row + 1 - count))
            && (same ==> LeftAt(columns, x0, s1.row, s1.last) && (Alone(columns, x0) ==> s1.last.length != 0))
  }

  lemma NextReadsOn<T>(s: Fetcher<T>, r: nat, columns: seq<Column<T>>, x0: T)
    requires HoldsAll(s) && s.chunks != [] && 1 <= r && columns != []
    requires Telling(columns, x0, Flat(s.chunks, |s.chunks|))
    requires Sizes(SizesOf(s.chunks)) && InRange(SizesOf(s.chunks), PositionOf(s))
    requires Steady(SizesOf(s.chunks), r, PositionOf(s)) && LeftAt(columns, x0, s.row, s.last)
    ensures ReadsOnColumns(s, r, columns, x0)
  {
    hide FetchColumns, Step, Flat, Offset, Steady, Telling, LeftAt, Alone, ReadRows, FreshRows, Code;
    HeldColumns(s, Next, r, columns);
    SteadyReadsOn(SizesOf(s.chunks), r, PositionOf(s));
    var (s1, ret, shown) := FetchColumns(s, Next, r, columns);
    if shown != [] {
      var from := s1.row + 1 - |shown|;
      ChunkTells(columns, x0, s.chunks, s1.idx);
      TellingRowset(columns, x0, s1.current.value, from, |shown|, s.last, s.row);
      assert RowsOf(shown) == s1.current.value[from..from + |shown|];
    }
  }

  lemma EndsInLast(sizes: seq<nat>, h: Held)
    requires Sizes(sizes) && InRange(sizes, h) && sizes != []
    ensures End(sizes, h) <= Total(sizes)
    ensures End(sizes, h) == Total(sizes) ==> h.idx == |sizes| - 1
  {
    OffsetMonotone(sizes, h.idx + 1, |sizes|);
    if h.idx + 1 < |sizes| {
      OffsetMonotone(sizes, h.idx + 2, |sizes|);
    }
  }

  lemma JoinsExactlyWhen<A>(a: seq<A>, b: seq<A>, a1: seq<A>, b1: seq<A>)
    requires |a| == |a1|
    ensures a + b == a1 + b1 <==> a == a1 && b == b1
  {
    if a + b == a1 + b1 {
      assert a == (a + b)[..|a|] == (a1 + b1)[..|a|] == a1;
      assert b == (a + b)[|a|..] == (a1 + b1)[|a|..] == b1;
    }
  }

  lemma FreshTail<T>(columns: seq<Column<T>>, flat: seq<T>, a: nat, b: nat)
    requires a <= b <= |flat|
    ensures FreshRows(columns, flat[a..]) == FreshRows(columns, flat[a..b]) + FreshRows(columns, flat[b..])
  {
    hide Fresh;
  }

  /** Reading on over steady chunks reads every value from its start exactly when every crossing does. */
  lemma {:induction false} SteadyColumnsRead<T>(s: Fetcher<T>, r: nat, columns: seq<Column<T>>, x0: T, n: nat)
    requires HoldsAll(s) && s.chunks != [] && 1 <= r && columns != []
    requires Telling(columns, x0, Flat(s.chunks, |s.chunks|))
    requires Sizes(SizesOf(s.chunks)) && InRange(SizesOf(s.chunks), PositionOf(s))
    requires Steady(SizesOf(s.chunks), r, PositionOf(s)) && LeftAt(columns, x0, s.row, s.last)
    requires Total(SizesOf(s.chunks)) - End(SizesOf(s.chunks), PositionOf(s)) <= n
    ensures var sizes, h, flat := SizesOf(s.chunks), PositionOf(s), Flat(s.chunks, |s.chunks|);
      && End(sizes, h) <= |flat|
      && (ReadOnColumns(s, r, columns, n) == FreshRows(columns, flat[End(sizes, h)..])
        <==> (Alone(columns, x0) ==> CrossesFresh(sizes, h, s.last.length != 0)))
    decreases n
  {
    hide FetchColumns, Step, Flat, Offset, Steady, Telling, Alone, FreshRows;
    var sizes, h, flat := SizesOf(s.chunks), PositionOf(s), Flat(s.chunks, |s.chunks|);
    EndsInLast(sizes, h);
    FlatLength(s.chunks, |s.chunks|);
    var (s1, ret, shown) := FetchColumns(s, Next, r, columns);
    if n == 0 {
      assert flat[End(sizes, h)..] == [];
      NoFreshRows(columns);
    } else {
      NextReadsOn(s, r, columns, x0);
      var (h1, out) := Step(sizes, r, h, Next);
      if out.Rowset? {
        CrossingStep(sizes, h, h1, out, s.last.length != 0);
        FreshTail(columns, flat, End(sizes, h), End(sizes, h1));
        FreshRowsLength(columns, flat[End(sizes, h)..End(sizes, h1)]);
        JoinsExactlyWhen(shown, ReadOnColumns(s1, r, columns, n - 1),
                         FreshRows(columns, flat[End(sizes, h)..End(sizes, h1)]),
                         FreshRows(columns, flat[End(sizes, h1)..]));
        if shown == FreshRows(columns, flat[End(sizes, h)..End(sizes, h1)]) {
          SteadyColumnsRead(s1, r, columns, x0, n - 1);
        }
      } else {
        SteadyColumnsRead(s1, r, columns, x0, n - 1);
      }
    }
  }

  lemma NoFreshRows<T>(columns: seq<Column<T>>)
    ensures FreshRows(columns, []) == []
  {
  }

  lemma FreshRowsLength<T>(columns: seq<Column<T>>, rows: seq<T>)
    ensures |FreshRows(columns, rows)| == |rows|
  {
  }

  /** Where a call goes and what rows it moves over does not depend on what was read. */
  lemma FetchIgnoresRead<T>(s: Fetcher<T>, t: Fetcher<T>, op: Op, r: nat)
    requires Ready(s) && Ready(t) && 1 <= r && t == s.(last := t.last)
    ensures var (s1, ret, rows) := Fetch(s, op, r, Bound); var (t1, ret1, rows1) := Fetch(t, op, r, Bound);
      ret1 == ret && rows1 == rows && t1 == s1.(last := t1.last)
  {
    hide MoveTo, ReadRowset;
    MoveIgnoresRead(s, t, op, r);
    MoveToValid(s, op, r);
    MoveToValid(t, op, r);
    var (s1, ret) := MoveTo(s, op, r);
    if ret == SqlSuccess {
      RowsetIgnoresRead(s1, MoveTo(t, op, r).0, r);
    }
  }

  lemma MoveIgnoresRead<T>(s: Fetcher<T>, t: Fetcher<T>, op: Op, r: nat)
    requires Ready(s) && Ready(t) && 1 <= r && t == s.(last := t.last)
    ensures var (s1, ret) := MoveTo(s, op, r); var (t1, ret1) := MoveTo(t, op, r);
      ret1 == ret && t1 == s1.(last := t1.last)
  {
    hide PullNext, ToPrior;
    match op {
      case Next => PullIgnoresRead(s.(prior := s.row), t.(prior := t.row));
      case Prior => PriorIgnoresRead(s, t, r);
      case First => PullIgnoresRead(ToFront(s), ToFront(t));
    }
  }

  lemma PullIgnoresRead<T>(s: Fetcher<T>, t: Fetcher<T>)
    requires t == s.(last := t.last)
    ensures var (s1, ret) := PullNext(s); var (t1, ret1) := PullNext(t); ret1 == ret && t1 == s1.(last := t1.last)
  {
  }

  lemma PriorIgnoresRead<T>(s: Fetcher<T>, t: Fetcher<T>, r: nat)
    requires t == s.(last := t.last) && (s.idx == 0 || s.idx < |s.chunks|)
    ensures var (s1, ret) := ToPrior(s, r); var (t1, ret1) := ToPrior(t, r); ret1 == ret && t1 == s1.(last := t1.last)
  {
  }

  lemma RowsetIgnoresRead<T>(s: Fetcher<T>, t: Fetcher<T>, r: nat)
    requires s.current.Some? && -1 <= s.row && t == s.(last := t.last)
    ensures var (s1, rows) := ReadRowset(s, r, Bound); var (t1, rows1) := ReadRowset(t, r, Bound);
      rows1 == rows && t1 == s1.(last := t1.last)
  {
  }

  lemma {:induction false} ColumnsReadTheRows<T>(s: Fetcher<T>, t: Fetcher<T>, r: nat, columns: seq<Column<T>>, n: nat)
    requires Ready(s) && Ready(t) && 1 <= r && columns != [] && t == s.(last := t.last)
    ensures RowsOf(ReadOnColumns(s, r, columns, n)) == ReadOn(t, r, Bound, n)
    decreases n
  {
    hide Fetch, FetchColumns;
    if n != 0 {
      var (s1, ret, shown) := FetchColumns(s, Next, r, columns);
      var (t1, ret1, rows) := Fetch(t, Next, r, Bound);
      FetchIgnoresRead(s, t, Next, r);
      ColumnsFollowRows(s, Next, r, columns);
      ColumnsReadTheRows(s1, t1, r, columns, n - 1);
      assert RowsOf(shown) == rows;
      assert RowsOf(shown + ReadOnColumns(s1, r, columns, n - 1))
        == RowsOf(shown) + RowsOf(ReadOnColumns(s1, r, columns, n - 1));
    }
  }

  lemma FreshRowsOf<T>(columns: seq<Column<T>>, rows: seq<T>)
    ensures RowsOf(FreshRows(columns, rows)) == rows
  {
  }

  /** Main result on materialization with bound columns: reading on shows the same, cell by cell, exactly when the
      chunks are steady, and while a single column is bound as text, no chunk of one row still to be read is left
      behind. */
  lemma ColumnsMaterializeInvisiblyExactlyWhen<T>(s: Fetcher<T>, r: nat, columns: seq<Column<T>>, x0: T, n: nat)
    requires Streaming(s) && s.cursorType.Scrollable? && !s.resultsetEnd && 1 <= r && columns != []
    requires Materialized(s).chunks != [] && |Ahead(s)| <= n
    requires var flat := Flat(Materialized(s).chunks, |Materialized(s).chunks|);
      Distinct(flat) && Telling(columns, x0, flat)
    ensures HoldsAll(Materialized(s))
    ensures var m := Materialized(s); var sizes, h := SizesOf(m.chunks), PositionOf(m);
      && Sizes(sizes) && InRange(sizes, h)
      && (ReadOnColumns(m, r, columns, n) == ReadOnColumns(s, r, columns, n)
        <==> Steady(sizes, r, h) && (Alone(columns, x0) ==> CrossesFresh(sizes, h, false)))
  {
    hide Streaming, Ahead, Flat, Materialized, Steady, ReadOn, ReadOnColumns, Offset, Telling, Alone, FreshRows;
    var m := Materialized(s);
    StreamingIsReady(s);
    MaterializeInvisibleWhenSteady(s, r, n);
    MaterializedHolds(s);
    MaterializedReadsNothing(s);
    var sizes, h, flat := SizesOf(m.chunks), PositionOf(m), Flat(m.chunks, |m.chunks|);
    FlatLength(m.chunks, |m.chunks|);
    ColumnsReadEverythingOnce(s, r, columns, n);
    ReadsEverythingOnce(s, r, Bound, n);
    if Steady(sizes, r, h) {
      SteadyColumnsRead(m, r, columns, x0, n);
    } else if ReadOnColumns(m, r, columns, n) == ReadOnColumns(s, r, columns, n) {
      ColumnsReadTheRows(m, m, r, columns, n);
      FreshRowsOf(columns, Ahead(s));
    }
  }

  lemma MaterializedReadsNothing<T>(s: Fetcher<T>)
    ensures Materialized(s).last == NOTHING_READ
  {
  }

  /** Equal chunks: a single text column is read on from the start of every value exactly when they have two rows or
      more, or no crossing is left. */
  lemma EqualChunksCrossFresh(sizes: seq<nat>, h: Held)
    requires Sizes(sizes) && InRange(sizes, h) && sizes != [] && Equal(sizes)
    ensures CrossesFresh(sizes, h, false)
      <==> 2 <= sizes[0] || h.idx == |sizes| - 1 || (h.idx == |sizes| - 2 && h.row == 0)
  {
    if !(2 <= sizes[0] || h.idx == |sizes| - 1 || (h.idx == |sizes| - 2 && h.row == 0)) {
      var i := if h.idx == |sizes| - 2 then h.idx else h.idx + 1;
      assert sizes[i] == 1;
    }
  }
}

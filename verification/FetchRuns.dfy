/** What whole runs of the result cursor deliver. */
module FetchRuns {
  import opened Common
  import opened HeldCursor
  import opened FetchSpec

  // ---------------------------------------------------------------- reading forward from a lazy source

  /** The rows the source will still yield. */
  function SourceRows<T>(source: seq<Pull<T>>): seq<T> {
    if source == [] || source[0] == Failure || |source[0].rows| == 0 then []
    else source[0].rows + SourceRows(source[1..])
  }

  predicate ErrorFree<T>(source: seq<Pull<T>>) {
    source == [] || (source[0].Chunk? && (|source[0].rows| == 0 || ErrorFree(source[1..])))
  }

  /** The current chunk is the newest, and nothing was read past the cursor. */
  predicate Streaming<T(==)>(s: Fetcher<T>) {
    && Ready(s)
    && (s.resultsetEnd || ErrorFree(s.source))
    && (s.chunks != [] ==> s.idx == |s.chunks| - 1 && s.row < |s.chunks[s.idx]|)
    && s.last.row <= s.row
  }

  /** The rows not yet delivered. */
  function Ahead<T(==)>(s: Fetcher<T>): seq<T>
    requires Streaming(s)
  {
    (if s.chunks == [] then [] else s.current.value[s.row + 1..])
    + (if s.resultsetEnd then [] else SourceRows(s.source))
  }

  /** The rows delivered are those of the current chunk that end at the cursor. */
  predicate EndsAtCursor<T(==)>(s: Fetcher<T>, rows: seq<T>) {
    && s.current.Some? && |rows| <= s.row + 1 <= |s.current.value|
    && rows == s.current.value[s.row + 1 - |rows|..s.row + 1]
  }

  /** A pull that finds a chunk stands before its first row. */
  lemma PulledStreams<T>(s: Fetcher<T>, rows: seq<T>)
    requires Streaming(s) && RequireFetch(s) && !s.resultsetEnd && s.source != [] && s.source[0] == Chunk(rows)
    requires rows != []
    ensures var (s1, ret) := PullNext(s);
      && ret == SqlSuccess && s1.chunks != [] && s1.current == Some(rows) && s1.row == -1 && s1.last == NOTHING_READ
      && s1.source == s.source[1..] && !s1.resultsetEnd && Streaming(s1)
  {
  }

  /** A pull that finds none ends the result and leaves the cursor where it is. */
  lemma EndStreams<T>(s: Fetcher<T>)
    requires Streaming(s) && RequireFetch(s) && (s.resultsetEnd ==> s.chunks == [])
    requires !s.resultsetEnd ==> s.source == [] || s.source[0] == Chunk([])
    ensures var (s1, ret) := PullNext(s);
      ret == SqlNoData && s1 == s.(last := s1.last, source := s1.source, resultsetEnd := true) && Streaming(s1)
  {
  }

  lemma NothingInChunk<T>(s: Fetcher<T>)
    requires Streaming(s) && RequireFetch(s)
    ensures Ahead(s) == if s.resultsetEnd then [] else SourceRows(s.source)
  {
    if s.chunks != [] {
      assert s.current.value[s.row + 1..] == [];
    }
  }

  lemma PullStreams<T>(s: Fetcher<T>)
    requires Streaming(s) && RequireFetch(s)
    requires s.resultsetEnd ==> s.chunks == []
    ensures var (s1, ret) := PullNext(s);
      && Streaming(s1) && Ahead(s1) == Ahead(s)
      && (if ret == SqlSuccess then s1.chunks != [] && s1.row == -1 && s1.last == NOTHING_READ
          else ret == SqlNoData && Ahead(s) == [])
  {
    NothingInChunk(s);
    var s1 := PullNext(s).0;
    if !s.resultsetEnd && s.source != [] && s.source[0] != Chunk([]) {
      PulledStreams(s, s.source[0].rows);
      hide PullNext, Streaming;
      assert s1.current.value[s1.row + 1..] == s1.current.value;
    } else {
      EndStreams(s);
      hide PullNext;
      NothingInChunk(s1);
    }
  }

  /** Without bindings, rowsets of one row move the cursor as bound rowsets of one row do. */
  lemma UnboundReadsOne<T>(s: Fetcher<T>, r: nat, b: Binding)
    requires s.current.Some? && -1 <= s.row && s.row + 1 < |s.current.value|
    requires b == Unbound ==> r == 1
    ensures ReadRowset(s, r, b) == ReadRowset(s, r, Bound)
  {
    var chunk, row := s.current.value, s.row + 1;
    assert chunk[row..row + 1] == [chunk[row]];
  }

  lemma MoveAcross<T>(left: seq<T>, rows: seq<T>, rest: seq<T>, source: seq<T>)
    requires left == rows + rest
    ensures left + source == rows + (rest + source)
  {
    assert (rows + rest) + source == rows + (rest + source);
  }

  lemma ReadStreams<T>(s: Fetcher<T>, r: nat, b: Binding)
    requires Streaming(s) && s.chunks != [] && s.row + 1 < |s.current.value|
    requires 1 <= r && (b == Unbound ==> r == 1)
    ensures var (s1, rows) := ReadRowset(s, r, b);
      && Streaming(s1) && Ahead(s) == rows + Ahead(s1)
      && 1 <= |rows| <= r && EndsAtCursor(s1, rows) && s1.last.row < s1.row
  {
    UnboundReadsOne(s, r, b);
    var last := Min(s.row + 1 + r, |s.current.value|);
    assert ReadRowset(s, r, Bound) == (s.(row := last - 1), s.current.value[s.row + 1..last]);
    AheadSplits(s, last);
  }

  lemma AheadSplits<T>(s: Fetcher<T>, last: nat)
    requires Streaming(s) && s.chunks != [] && s.row < last - 1 < |s.current.value|
    ensures Streaming(s.(row := last - 1))
    ensures Ahead(s) == s.current.value[s.row + 1..last] + Ahead(s.(row := last - 1))
  {
    var chunk, rest := s.current.value, if s.resultsetEnd then [] else SourceRows(s.source);
    assert chunk[s.row + 1..] == chunk[s.row + 1..last] + chunk[last..];
    MoveAcross(chunk[s.row + 1..], chunk[s.row + 1..last], chunk[last..], rest);
  }

  predicate NextDelivers<T(==)>(s: Fetcher<T>, r: nat, s1: Fetcher<T>, ret: SqlReturn, rows: seq<T>)
    requires Streaming(s)
  {
    && Streaming(s1) && Ahead(s) == rows + Ahead(s1)
    && (ret == SqlSuccess ==> 1 <= |rows| <= r && EndsAtCursor(s1, rows) && s1.last.row < s1.row)
    && (ret != SqlSuccess ==> ret == SqlNoData && rows == [] && Ahead(s) == [])
  }

  lemma NextInChunk<T>(s: Fetcher<T>, r: nat, b: Binding)
    requires Streaming(s) && 1 <= r && (b == Unbound ==> r == 1)
    requires !RequireFetch(s)
    ensures var (s1, ret, rows) := Fetch(s, Next, r, b); NextDelivers(s, r, s1, ret, rows)
  {
    var s0 := s.(prior := s.row);
    ReadStreams(s0, r, b);
    assert Ahead(s0) == Ahead(s);
  }

  lemma NextAtEnd<T>(s: Fetcher<T>, r: nat, b: Binding)
    requires Streaming(s) && 1 <= r
    requires RequireFetch(s) && s.resultsetEnd && s.chunks != []
    ensures var (s1, ret, rows) := Fetch(s, Next, r, b); NextDelivers(s, r, s1, ret, rows)
  {
    assert s.current.value[s.row + 1..] == [];
  }

  lemma NextIsPull<T>(s: Fetcher<T>, r: nat)
    requires RequireFetch(s) && (s.resultsetEnd ==> s.chunks == [])
    ensures MoveTo(s, Next, r) == PullNext(s.(prior := s.row))
  {
  }

  lemma ReadAfterPull<T>(s: Fetcher<T>, s1: Fetcher<T>, ret: SqlReturn, r: nat, b: Binding)
    requires Streaming(s) && Streaming(s1) && Ahead(s1) == Ahead(s) && 1 <= r && (b == Unbound ==> r == 1)
    requires if ret == SqlSuccess then s1.chunks != [] && s1.row == -1 else ret == SqlNoData && Ahead(s) == []
    ensures var (s2, ret2, rows) := ReadAfter((s1, ret), r, b); NextDelivers(s, r, s2, ret2, rows)
  {
    if ret == SqlSuccess {
      ReadStreams(s1, r, b);
    }
  }

  lemma NextPulls<T>(s: Fetcher<T>, r: nat, b: Binding)
    requires Streaming(s) && 1 <= r && (b == Unbound ==> r == 1)
    requires RequireFetch(s) && (s.resultsetEnd ==> s.chunks == [])
    ensures var (s1, ret, rows) := Fetch(s, Next, r, b); NextDelivers(s, r, s1, ret, rows)
  {
    var s0 := s.(prior := s.row);
    assert Ahead(s0) == Ahead(s);
    PullStreams(s0);
    NextIsPull(s, r);
    ReadAfterPull(s, PullNext(s0).0, PullNext(s0).1, r, b);
  }

  /** One call of SQL_FETCH_NEXT delivers the next rows and nothing else, from one chunk; it
      reports SQL_NO_DATA exactly when no row is left, and then nothing changes any more. */
  lemma NextStreams<T>(s: Fetcher<T>, r: nat, b: Binding)
    requires Streaming(s) && 1 <= r && (b == Unbound ==> r == 1)
    ensures var (s1, ret, rows) := Fetch(s, Next, r, b); NextDelivers(s, r, s1, ret, rows)
  {
    if !RequireFetch(s) {
      NextInChunk(s, r, b);
    } else if s.resultsetEnd && s.chunks != [] {
      NextAtEnd(s, r, b);
    } else {
      NextPulls(s, r, b);
    }
  }

  /** The pull forgets the last read, so it may as well be forgotten before it. */
  lemma PeekPulls<T>(s: Fetcher<T>)
    ensures var (s1, ret) := PullNext(ToFront(Cleared(s).(cursorType := Scrollable, last := NOTHING_READ)));
      Peek(Cleared(s)) == (s1.(cursorType := s.cursorType), ret)
  {
  }

  /** The peek after execution stands before the first row and loses none, on either cursor type. */
  lemma PeekConsumesNothing<T>(s: Fetcher<T>)
    requires ErrorFree(s.source)
    ensures var (s1, ret) := Peek(Cleared(s));
      && Streaming(s1) && Ahead(s1) == SourceRows(s.source)
      && s1.cursorType == s.cursorType
      && ret == if SourceRows(s.source) == [] then SqlNoData else SqlSuccess
  {
    var s0 := ToFront(Cleared(s).(cursorType := Scrollable, last := NOTHING_READ));
    ClearedStreams(s);
    PullStreams(s0);
    PeekPulls(s);
    hide PullNext, ToFront;
    TypeKeepsAhead(PullNext(s0).0, s.cursorType);
  }

  lemma ClearedStreams<T>(s: Fetcher<T>)
    requires ErrorFree(s.source)
    ensures var s0 := ToFront(Cleared(s).(cursorType := Scrollable, last := NOTHING_READ));
      Streaming(s0) && RequireFetch(s0) && s0.chunks == [] && Ahead(s0) == SourceRows(s.source)
  {
  }

  lemma TypeKeepsAhead<T>(s: Fetcher<T>, cursorType: CursorType)
    requires Streaming(s)
    ensures Streaming(s.(cursorType := cursorType)) && Ahead(s.(cursorType := cursorType)) == Ahead(s)
  {
  }

  /** A forward-only cursor refuses every other orientation and stays as it is. */
  lemma ForwardOnlyRefuses<T>(s: Fetcher<T>, op: Op, r: nat, b: Binding)
    requires Ready(s) && 1 <= r && s.cursorType.ForwardOnly? && op != Next
    ensures Fetch(s, op, r, b) == (s, SqlError, [])
  {
  }

  /** A failure of the engine is reported by the call that meets it; the cursor stays where it is, and the next call
      goes on with what the engine yields then. */
  lemma FailureIsReported<T>(s: Fetcher<T>, r: nat, b: Binding)
    requires Ready(s) && 1 <= r && !s.resultsetEnd && s.source != [] && s.source[0].Failure? && RequireFetch(s)
    ensures Fetch(s, Next, r, b) == (s.(prior := s.row, last := NOTHING_READ, source := s.source[1..]), SqlError, [])
  {
  }

  /** The rows `n` calls of SQL_FETCH_NEXT deliver. */
  function ReadOn<T>(s: Fetcher<T>, r: nat, b: Binding, n: nat): seq<T>
    requires Ready(s) && 1 <= r
    decreases n
  {
    if n == 0 then []
    else
      var (s1, ret, rows) := Fetch(s, Next, r, b);
      rows + ReadOn(s1, r, b, n - 1)
  }

  lemma StreamingIsReady<T>(s: Fetcher<T>)
    requires Streaming(s)
    ensures Ready(s)
  {
  }

  /** Reading forward delivers every row once and in order; calls beyond the last row add nothing. */
  lemma {:induction false} ReadsEverythingOnce<T>(s: Fetcher<T>, r: nat, b: Binding, n: nat)
    requires Streaming(s) && 1 <= r && (b == Unbound ==> r == 1)
    ensures ReadOn(s, r, b, n) <= Ahead(s)
    ensures |Ahead(s)| <= n ==> ReadOn(s, r, b, n) == Ahead(s)
    decreases n
  {
    hide Fetch, Ahead, Streaming;
    if n != 0 {
      NextStreams(s, r, b);
      StreamingIsReady(s);
      var (s1, ret, rows) := Fetch(s, Next, r, b);
      ReadsEverythingOnce(s1, r, b, n - 1);
      assert ReadOn(s, r, b, n) == rows + ReadOn(s1, r, b, n - 1);
    }
  }

  /** From execution to the last row: whatever the cursor type and the rowset size. */
  lemma ExecutedResultIsRead<T>(s: Fetcher<T>, r: nat, b: Binding, n: nat)
    requires ErrorFree(s.source) && 1 <= r && (b == Unbound ==> r == 1)
    requires |SourceRows(s.source)| <= n
    ensures Streaming(Peek(Cleared(s)).0)
    ensures ReadOn(Peek(Cleared(s)).0, r, b, n) == SourceRows(s.source)
  {
    PeekConsumesNothing(s);
    ReadsEverythingOnce(Peek(Cleared(s)).0, r, b, n);
  }

  // ---------------------------------------------------------------- the whole result held

  function SizesOf<T>(chunks: seq<seq<T>>): (sizes: seq<nat>)
    ensures |sizes| == |chunks| && forall i | 0 <= i < |sizes| :: sizes[i] == |chunks[i]|
  {
    seq(|chunks|, i requires 0 <= i < |chunks| => |chunks[i]|)
  }

  /** All rows of the chunks before chunk `i`. */
  function Flat<T>(chunks: seq<seq<T>>, i: nat): (rows: seq<T>)
    requires i <= |chunks|
  {
    if i == 0 then [] else Flat(chunks, i - 1) + chunks[i - 1]
  }

  lemma {:induction false} FlatLength<T>(chunks: seq<seq<T>>, i: nat)
    requires i <= |chunks|
    ensures |Flat(chunks, i)| == Offset(SizesOf(chunks), i)
  {
    if i != 0 {
      FlatLength(chunks, i - 1);
    }
  }

  predicate HoldsAll<T(==)>(s: Fetcher<T>) {
    Ready(s) && s.resultsetEnd && s.cursorType.Scrollable? && (s.chunks != [] ==> s.row < |s.chunks[s.idx]|)
  }

  function PositionOf<T>(s: Fetcher<T>): Held {
    Held(s.idx, s.row, s.prior)
  }

  /** The rows of chunk `i` come after those of the chunks before it, and before the others. */
  lemma {:induction false} FlatAround<T>(chunks: seq<seq<T>>, i: nat, n: nat) returns (after: seq<T>)
    requires i < n <= |chunks|
    ensures Flat(chunks, n) == Flat(chunks, i) + chunks[i] + after
  {
    if i + 1 < n {
      after := FlatAround(chunks, i, n - 1);
      after := after + chunks[n - 1];
    } else {
      after := [];
    }
  }

  predicate Shows<T(==)>(chunks: seq<seq<T>>, out: Outcome, ret: SqlReturn, rows: seq<T>) {
    match out
    case NoData => ret == SqlNoData && rows == []
    case Rowset(start, count) =>
      && ret == SqlSuccess && start + count <= |Flat(chunks, |chunks|)|
      && rows == Flat(chunks, |chunks|)[start..start + count]
  }

  lemma MiddleSlice<T>(before: seq<T>, mid: seq<T>, after: seq<T>, from: nat, to: nat)
    requires from <= to <= |mid|
    ensures (before + mid + after)[|before| + from..|before| + to] == mid[from..to]
  {
  }

  lemma FlatSlice<T>(chunks: seq<seq<T>>, i: nat, o: nat, from: nat, to: nat)
    requires i < |chunks| && from <= to <= |chunks[i]| && o == Offset(SizesOf(chunks), i)
    ensures o + to <= |Flat(chunks, |chunks|)|
    ensures Flat(chunks, |chunks|)[o + from..o + to] == chunks[i][from..to]
  {
    hide Flat, Offset;
    var after := FlatAround(chunks, i, |chunks|);
    FlatLength(chunks, i);
    MiddleSlice(Flat(chunks, i), chunks[i], after, from, to);
  }

  /** A row of a chunk among all rows. */
  lemma FlatRow<T>(chunks: seq<seq<T>>, i: nat, k: nat)
    requires i < |chunks| && k < |chunks[i]|
    ensures Offset(SizesOf(chunks), i) + k < |Flat(chunks, |chunks|)|
    ensures Flat(chunks, |chunks|)[Offset(SizesOf(chunks), i) + k] == chunks[i][k]
  {
    hide Flat, Offset;
    var flat, o := Flat(chunks, |chunks|), Offset(SizesOf(chunks), i);
    FlatSlice(chunks, i, o, k, k + 1);
    assert flat[o + k] == flat[o + k..o + (k + 1)][0] == chunks[i][k..k + 1][0];
  }

  lemma RowsetShows<T>(s: Fetcher<T>, r: nat)
    requires HoldsAll(s) && s.chunks != [] && 1 <= r
    ensures var (h1, out) := Deliver(SizesOf(s.chunks), r, PositionOf(s)); var (s1, rows) := ReadRowset(s, r, Bound);
      Shows(s.chunks, out, SqlSuccess, rows) && PositionOf(s1) == h1 && HoldsAll(s1) && s1.chunks == s.chunks
  {
    hide Flat, Offset;
    var last := Min(s.row + 1 + r, |s.chunks[s.idx]|);
    FlatSlice(s.chunks, s.idx, Offset(SizesOf(s.chunks), s.idx), s.row + 1, last);
  }

  /** Moving the cursor is the first half of a step of the position machine; reading the rowset is the other. */
  predicate Moves<T(==)>(s: Fetcher<T>, op: Op, r: nat)
    requires HoldsAll(s) && 1 <= r
  {
    var sizes := SizesOf(s.chunks);
    && Sizes(sizes) && InRange(sizes, PositionOf(s))
    && var (s1, ret) := MoveTo(s, op, r);
       && HoldsAll(s1) && s1.chunks == s.chunks
       && (ret == SqlSuccess ==>
           s.chunks != [] && Step(sizes, r, PositionOf(s), op) == Deliver(sizes, r, PositionOf(s1)))
       && (ret != SqlSuccess ==>
           ret == SqlNoData && Step(sizes, r, PositionOf(s), op) == (PositionOf(s1), Outcome.NoData))
  }

  lemma NextMoves<T>(s: Fetcher<T>, r: nat)
    requires HoldsAll(s) && 1 <= r
    ensures Moves(s, Next, r)
  {
  }

  lemma PriorMoves<T>(s: Fetcher<T>, r: nat)
    requires HoldsAll(s) && 1 <= r
    ensures Moves(s, Prior, r)
  {
  }

  lemma FirstMoves<T>(s: Fetcher<T>, r: nat)
    requires HoldsAll(s) && 1 <= r
    ensures Moves(s, First, r)
  {
  }

  predicate Steps<T(==)>(s: Fetcher<T>, op: Op, r: nat)
    requires HoldsAll(s) && 1 <= r
  {
    && Sizes(SizesOf(s.chunks)) && InRange(SizesOf(s.chunks), PositionOf(s))
    && var (h1, out) := Step(SizesOf(s.chunks), r, PositionOf(s), op);
       var (s1, ret, rows) := Fetch(s, op, r, Bound);
       Shows(s.chunks, out, ret, rows) && PositionOf(s1) == h1 && HoldsAll(s1) && s1.chunks == s.chunks
  }

  /** A call on the held result is a step of the position machine, and delivers the rows at its positions. */
  lemma HeldFetch<T>(s: Fetcher<T>, op: Op, r: nat)
    requires HoldsAll(s) && 1 <= r
    ensures Steps(s, op, r)
  {
    assert Moves(s, op, r) by {
      match op {
        case Next => NextMoves(s, r);
        case Prior => PriorMoves(s, r);
        case First => FirstMoves(s, r);
      }
    }
    var (s1, ret) := MoveTo(s, op, r);
    if ret == SqlSuccess {
      RowsetShows(s1, r);
    }
  }

  // ---------------------------------------------------------------- scrolling over the held result

  function Scroll<T>(s: Fetcher<T>, r: nat, ops: seq<Op>): (s1: Fetcher<T>)
    requires Ready(s) && 1 <= r
    ensures Ready(s1)
  {
    if ops == [] then s else Fetch(Scroll(s, r, ops[..|ops| - 1]), ops[|ops| - 1], r, Bound).0
  }

  lemma {:induction false} ScrollSteps<T>(s: Fetcher<T>, r: nat, ops: seq<Op>)
    requires HoldsAll(s) && PositionOf(s) == BEFORE_FIRST && 1 <= r
    ensures Sizes(SizesOf(s.chunks))
    ensures var s1 := Scroll(s, r, ops);
      HoldsAll(s1) && s1.chunks == s.chunks && PositionOf(s1) == Run(SizesOf(s.chunks), r, ops)
  {
    if ops != [] {
      ScrollSteps(s, r, ops[..|ops| - 1]);
      HeldFetch(Scroll(s, r, ops[..|ops| - 1]), ops[|ops| - 1], r);
    }
  }

  /** Equal chunks and a rowset size that divides them: after any run, any call returns the rows
      that the flat cursor of SQLFetchScroll returns, or SQL_NO_DATA exactly when it does. */
  lemma ScrollShowsFlatCursor<T>(s: Fetcher<T>, r: nat, ops: seq<Op>, op: Op)
    requires HoldsAll(s) && PositionOf(s) == BEFORE_FIRST && 1 <= r && Aligned(SizesOf(s.chunks), r)
    ensures var s1 := Scroll(s, r, ops); var flat := Flat(s.chunks, |s.chunks|);
      Shows(s.chunks, RefSeen(|flat|, r, ops, op), Fetch(s1, op, r, Bound).1, Fetch(s1, op, r, Bound).2)
  {
    ScrollSteps(s, r, ops);
    HeldFetch(Scroll(s, r, ops), op, r);
    RefinesExactlyWhenAligned(SizesOf(s.chunks), r);
    FlatLength(s.chunks, |s.chunks|);
    assert Seen(SizesOf(s.chunks), r, ops, op) == RefSeen(Total(SizesOf(s.chunks)), r, ops, op);
  }
}

/** Materializing the rest of the result in the middle of a run. */
module MaterializeRuns {
  import opened Common
  import opened HeldCursor
  import opened FetchSpec
  import opened FetchRuns

  /** The chunks the source yields before it ends or fails. */
  function LeadingChunks<T>(source: seq<Pull<T>>): seq<seq<T>> {
    if source == [] || source[0] == Failure || |source[0].rows| == 0 then []
    else [source[0].rows] + LeadingChunks(source[1..])
  }

  /** What is left of the source after its end or its first failure was seen. */
  function Rest<T>(source: seq<Pull<T>>): seq<Pull<T>> {
    if source == [] then []
    else if source[0] == Failure || |source[0].rows| == 0 then source[1..]
    else Rest(source[1..])
  }

  /** The source yields these chunks first, then its end or a failure, and then the rest. */
  lemma {:induction false} SourceSplits<T>(source: seq<Pull<T>>)
    ensures var chunks, rest := LeadingChunks(source), Rest(source);
      && (forall i | 0 <= i < |chunks| :: i < |source| && source[i] == Chunk(chunks[i]) && chunks[i] != [])
      && if |chunks| == |source| then rest == []
         else |chunks| < |source| && source[|chunks|] in [Failure, Chunk([])] && rest == source[|chunks| + 1..]
  {
    if source != [] && source[0] != Failure && |source[0].rows| != 0 {
      SourceSplits(source[1..]);
      var chunks := LeadingChunks(source);
      forall i | 0 <= i < |chunks| ensures i < |source| && source[i] == Chunk(chunks[i]) && chunks[i] != [] {
        if i != 0 {
          assert source[i] == source[1..][i - 1] && chunks[i] == LeadingChunks(source[1..])[i - 1];
        }
      }
    }
  }

  /** The chunks held once all the others are pulled; a forward-only cursor holds one and releases those before it. */
  function HeldAfter<T>(s: Fetcher<T>): seq<seq<T>> {
    var more := LeadingChunks(s.source);
    if s.cursorType.Scrollable? then s.chunks + more else if more == [] then s.chunks else [more[|more| - 1]]
  }

  /** All remaining chunks pulled, and the cursor where it was. */
  function Materialized<T>(s: Fetcher<T>): Fetcher<T> {
    var chunks := HeldAfter(s);
    var s1 := s.(chunks := chunks, source := Rest(s.source), resultsetEnd := ErrorFree(s.source), last := NOTHING_READ);
    if s.current != None then s1
    else s1.(current := if chunks == [] then None else Some(chunks[0]), idx := 0, row := -1, prior := -1)
  }

  lemma {:induction false} FlatAppend<T>(chunks: seq<seq<T>>, more: seq<seq<T>>, n: nat)
    requires n <= |more|
    ensures Flat(chunks + more, |chunks| + n) == Flat(chunks, |chunks|) + Flat(more, n)
  {
    if n == 0 {
      FlatPrefix(chunks, more, |chunks|);
    } else {
      FlatAppend(chunks, more, n - 1);
      assert (chunks + more)[|chunks| + n - 1] == more[n - 1];
    }
  }

  lemma {:induction false} FlatPrefix<T>(chunks: seq<seq<T>>, more: seq<seq<T>>, n: nat)
    requires n <= |chunks|
    ensures Flat(chunks + more, n) == Flat(chunks, n)
  {
    if n != 0 {
      FlatPrefix(chunks, more, n - 1);
    }
  }

  lemma {:induction false} LeadingChunksFlat<T>(source: seq<Pull<T>>)
    ensures var chunks := LeadingChunks(source);
      Flat(chunks, |chunks|) == SourceRows(source) && forall i | 0 <= i < |chunks| :: chunks[i] != []
  {
    if source != [] && source[0] != Failure && |source[0].rows| != 0 {
      hide Flat;
      var first, rest := [source[0].rows], LeadingChunks(source[1..]);
      LeadingChunksFlat(source[1..]);
      FlatAppend(first, rest, |rest|);
      FlatOne(source[0].rows);
    } else {
      assert LeadingChunks(source) == [];
    }
  }

  lemma FlatOne<T>(rows: seq<T>)
    ensures Flat([rows], 1) == rows
  {
    assert Flat([rows], 0) == [];
  }

  lemma DropInto<T>(before: seq<T>, mid: seq<T>, after: seq<T>, from: nat)
    requires from <= |mid|
    ensures (before + mid + after)[|before| + from..] == mid[from..] + after
  {
  }

  /** The rows of the last of `chunks`, when `more` chunks follow, lie between those of the others. */
  lemma AroundLast<T>(chunks: seq<seq<T>>, more: seq<seq<T>>)
    requires chunks != []
    ensures |Flat(chunks, |chunks| - 1)| == Offset(SizesOf(chunks + more), |chunks| - 1)
    ensures Flat(chunks + more, |chunks + more|)
      == Flat(chunks, |chunks| - 1) + chunks[|chunks| - 1] + Flat(more, |more|)
  {
    FlatAppend(chunks, more, |more|);
    FlatPrefix(chunks, more, |chunks| - 1);
    FlatLength(chunks + more, |chunks| - 1);
  }

  lemma TailAfter<T>(chunks: seq<seq<T>>, more: seq<seq<T>>, o: nat, from: nat)
    requires chunks != [] && from <= |chunks[|chunks| - 1]|
    requires o == Offset(SizesOf(chunks + more), |chunks| - 1)
    ensures o + from <= |Flat(chunks + more, |chunks + more|)|
    ensures Flat(chunks + more, |chunks + more|)[o + from..] == chunks[|chunks| - 1][from..] + Flat(more, |more|)
  {
    AroundLast(chunks, more);
    DropInto(Flat(chunks, |chunks| - 1), chunks[|chunks| - 1], Flat(more, |more|), from);
  }

  lemma MaterializedValid<T>(s: Fetcher<T>)
    requires Streaming(s) && s.cursorType.Scrollable? && !s.resultsetEnd
    ensures HoldsAll(Materialized(s))
    ensures s.chunks != [] ==> PositionOf(Materialized(s)) == PositionOf(s) && Materialized(s).current == s.current
  {
    LeadingChunksFlat(s.source);
  }

  /** After materialization everything is held, the cursor has not moved, and the rows not
      yet delivered are those after its position. */
  lemma MaterializedHolds<T>(s: Fetcher<T>)
    requires Streaming(s) && s.cursorType.Scrollable? && !s.resultsetEnd
    ensures var m := Materialized(s);
      && HoldsAll(m)
      && (s.chunks != [] ==> PositionOf(m) == PositionOf(s) && m.current == s.current)
      && End(SizesOf(m.chunks), PositionOf(m)) <= |Flat(m.chunks, |m.chunks|)|
      && Flat(m.chunks, |m.chunks|)[End(SizesOf(m.chunks), PositionOf(m))..] == Ahead(s)
  {
    hide FetchRuns.Flat;
    var more := LeadingChunks(s.source);
    MaterializedValid(s);
    LeadingChunksFlat(s.source);
    if s.chunks != [] {
      TailAfter(s.chunks, more, Offset(SizesOf(s.chunks + more), s.idx), s.row + 1);
    } else {
      assert s.chunks + more == more;
      assert SourceRows(s.source)[0..] == SourceRows(s.source);
    }
  }

  /** The rows at the given positions. */
  function RowsAt<T>(flat: seq<T>, positions: seq<nat>): seq<T>
    requires forall i | 0 <= i < |positions| :: positions[i] < |flat|
  {
    seq(|positions|, i requires 0 <= i < |positions| => flat[positions[i]])
  }

  lemma {:induction false} DrainIgnoresPrior(sizes: seq<nat>, r: nat, h: Held)
    requires Sizes(sizes) && InRange(sizes, h) && 1 <= r
    ensures Drain(sizes, r, h.(prior := h.row)) == Drain(sizes, r, h)
  {
    assert Step(sizes, r, h.(prior := h.row), Next) == Step(sizes, r, h, Next);
  }

  lemma {:induction false} StoppedReadsNothing<T>(s: Fetcher<T>, r: nat, n: nat)
    requires HoldsAll(s) && 1 <= r
    requires Sizes(SizesOf(s.chunks)) && InRange(SizesOf(s.chunks), PositionOf(s))
    requires Drain(SizesOf(s.chunks), r, PositionOf(s)) == []
    ensures ReadOn(s, r, Bound, n) == []
    decreases n
  {
    if n != 0 {
      HeldFetch(s, Next, r);
      var (s1, ret, rows) := Fetch(s, Next, r, Bound);
      DrainIgnoresPrior(SizesOf(s.chunks), r, PositionOf(s));
      assert PositionOf(s1) == PositionOf(s).(prior := s.row);
      StoppedReadsNothing(s1, r, n - 1);
    }
  }

  predicate Within<T>(flat: seq<T>, positions: seq<nat>) {
    forall i | 0 <= i < |positions| :: positions[i] < |flat|
  }

  /** `rows` are the rows at `positions`. */
  predicate ReadsAt<T(==)>(flat: seq<T>, positions: seq<nat>, rows: seq<T>) {
    Within(flat, positions) && rows == RowsAt(flat, positions)
  }

  lemma ReadsAtHead<T>(flat: seq<T>, start: nat, count: nat, positions: seq<nat>, rows: seq<T>)
    requires start + count <= |flat| && ReadsAt(flat, positions, rows)
    ensures ReadsAt(flat, Rows(start, start + count) + positions, flat[start..start + count] + rows)
  {
  }

  lemma DrainStep<T>(s: Fetcher<T>, r: nat, n: nat) returns (s1: Fetcher<T>, start: nat, count: nat)
    requires HoldsAll(s) && 1 <= r
    requires Sizes(SizesOf(s.chunks)) && InRange(SizesOf(s.chunks), PositionOf(s))
    requires Drain(SizesOf(s.chunks), r, PositionOf(s)) != [] && 1 <= n
    ensures HoldsAll(s1) && s1.chunks == s.chunks && 1 <= count
    ensures InRange(SizesOf(s.chunks), PositionOf(s1))
    ensures Drain(SizesOf(s.chunks), r, PositionOf(s))
      == Rows(start, start + count) + Drain(SizesOf(s.chunks), r, PositionOf(s1))
    ensures start + count <= |Flat(s.chunks, |s.chunks|)|
    ensures ReadOn(s, r, Bound, n) == Flat(s.chunks, |s.chunks|)[start..start + count] + ReadOn(s1, r, Bound, n - 1)
  {
    hide FetchSpec.Fetch;
    hide HeldCursor.Step;
    HeldFetch(s, Next, r);
    var out := Step(SizesOf(s.chunks), r, PositionOf(s), Next).1;
    s1, start, count := Fetch(s, Next, r, Bound).0, out.start, out.count;
    StepInRange(SizesOf(s.chunks), r, PositionOf(s), Next);
  }

  /** Reading on over the held result delivers the rows at the drained positions. */
  lemma {:induction false} HeldReadsDrain<T>(s: Fetcher<T>, r: nat, n: nat)
    requires HoldsAll(s) && 1 <= r
    requires Sizes(SizesOf(s.chunks)) && InRange(SizesOf(s.chunks), PositionOf(s))
    requires |Drain(SizesOf(s.chunks), r, PositionOf(s))| <= n
    ensures ReadsAt(Flat(s.chunks, |s.chunks|), Drain(SizesOf(s.chunks), r, PositionOf(s)), ReadOn(s, r, Bound, n))
    decreases n
  {
    hide FetchSpec.Fetch;
    hide HeldCursor.Step;
    if Drain(SizesOf(s.chunks), r, PositionOf(s)) == [] {
      StoppedReadsNothing(s, r, n);
    } else {
      var s1, start, count := DrainStep(s, r, n);
      HeldReadsDrain(s1, r, n - 1);
      ReadsAtHead(Flat(s.chunks, |s.chunks|), start, count, Drain(SizesOf(s.chunks), r, PositionOf(s1)),
        ReadOn(s1, r, Bound, n - 1));
    }
  }

  predicate Distinct<T(==)>(rows: seq<T>) {
    forall i, j | 0 <= i < j < |rows| :: rows[i] != rows[j]
  }

  lemma RowsTellPositions<T>(flat: seq<T>, positions: seq<nat>, from: nat)
    requires Within(flat, positions) && from <= |flat|
    ensures positions == Rows(from, |flat|) ==> RowsAt(flat, positions) == flat[from..]
    ensures Distinct(flat) && RowsAt(flat, positions) == flat[from..] ==> positions == Rows(from, |flat|)
  {
    if Distinct(flat) && RowsAt(flat, positions) == flat[from..] {
      forall i | 0 <= i < |positions| ensures positions[i] == from + i {
        assert flat[positions[i]] == RowsAt(flat, positions)[i] == flat[from + i];
      }
    }
  }

  /** Materializing the result in the middle of a run is invisible to an application that reads on, when
      the chunks are steady; and when the rows tell positions apart, only then. */
  lemma MaterializeInvisibleWhenSteady<T>(s: Fetcher<T>, r: nat, n: nat)
    requires Streaming(s) && s.cursorType.Scrollable? && !s.resultsetEnd && 1 <= r
    requires Materialized(s).chunks != [] && |Ahead(s)| <= n
    ensures HoldsAll(Materialized(s))
    ensures var m := Materialized(s); Sizes(SizesOf(m.chunks)) && InRange(SizesOf(m.chunks), PositionOf(m))
    ensures var m := Materialized(s); var same := ReadOn(m, r, Bound, n) == ReadOn(s, r, Bound, n);
      && (Steady(SizesOf(m.chunks), r, PositionOf(m)) ==> same)
      && (Distinct(Flat(m.chunks, |m.chunks|)) ==> (Steady(SizesOf(m.chunks), r, PositionOf(m)) <==> same))
  {
    hide Streaming, Ahead, Flat, Materialized, Drain, Steady, ReadOn, Offset;
    var m := Materialized(s);
    MaterializedHolds(s);
    var sizes, h, flat := SizesOf(m.chunks), PositionOf(m), Flat(m.chunks, |m.chunks|);
    FlatLength(m.chunks, |m.chunks|);
    DrainsAtMost(sizes, r, h);
    ReadsEverythingOnce(s, r, Bound, n);
    HeldReadsDrain(m, r, n);
    DrainsExactlyWhenSteady(sizes, r, h);
    RowsTellPositions(flat, Drain(sizes, r, h), End(sizes, h));
  }

  /** Equal chunks: materialization is invisible, whatever the rowset size and the rows are. */
  lemma MaterializeInvisibleForEqualChunks<T>(s: Fetcher<T>, r: nat, n: nat)
    requires Streaming(s) && s.cursorType.Scrollable? && !s.resultsetEnd && 1 <= r
    requires Materialized(s).chunks != [] && |Ahead(s)| <= n
    requires forall i | 0 <= i < |Materialized(s).chunks| :: |Materialized(s).chunks[i]| == |Materialized(s).chunks[0]|
    ensures HoldsAll(Materialized(s)) && ReadOn(Materialized(s), r, Bound, n) == ReadOn(s, r, Bound, n)
  {
    hide Streaming, Ahead, Flat, Materialized, Steady, ReadOn;
    MaterializeInvisibleWhenSteady(s, r, n);
    EqualChunksAreSteady(SizesOf(Materialized(s).chunks), r, PositionOf(Materialized(s)));
  }

  lemma {:induction false} ChunksAreRows<T>(source: seq<Pull<T>>)
    ensures var more := LeadingChunks(source);
      && (more == [] ==> SourceRows(source) == [])
      && (|more| == 1 ==> SourceRows(source) == more[0])
      && (more != [] ==> more[|more| - 1] != [] && |more[|more| - 1]| <= |SourceRows(source)|)
      && (|more| > 1 ==> |more[|more| - 1]| < |SourceRows(source)|)
  {
    if source != [] && source[0].Chunk? && source[0].rows != [] {
      ChunksAreRows(source[1..]);
      assert LeadingChunks(source) == [source[0].rows] + LeadingChunks(source[1..]);
    }
  }

  /** Main result on a forward-only cursor, which holds one chunk: after materialization the remaining rows can
      still be read, from a chunk that is still held, exactly when no chunk had to make room for another. */
  lemma ForwardOnlyKeepsRowsExactlyWhen<T>(s: Fetcher<T>, r: nat, n: nat)
    requires Streaming(s) && s.cursorType.ForwardOnly? && !s.resultsetEnd && 1 <= r && |Ahead(s)| <= n
    ensures Streaming(Materialized(s)) && ReadOn(Materialized(s), r, Bound, n) == ReadOn(s, r, Bound, n)
      <==> |LeadingChunks(s.source)| <= if s.chunks == [] then 1 else 0
  {
    hide ReadOn;
    var m := Materialized(s);
    ChunksAreRows(s.source);
    hide LeadingChunks, SourceRows;
    ReadsEverythingOnce(s, r, Bound, n);
    if Streaming(m) {
      assert |Ahead(m)| <= |Ahead(s)|;
      ReadsEverythingOnce(m, r, Bound, n);
    }
  }
}

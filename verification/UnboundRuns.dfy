/** Reading forward with SQLGetData after SQL_UNBIND left no bindings: only the last row of a whole rowset is read. */
module UnboundRuns {
  import opened Common
  import opened HeldCursor
  import opened FetchSpec
  import opened FetchRuns

  /** The last row of every whole rowset. */
  function Sampled<T>(rows: seq<T>, r: nat): seq<T>
    requires 1 <= r
  {
    if |rows| < r then [] else [rows[r - 1]] + Sampled(rows[r..], r)
  }

  /** Those of all chunks that the source will still yield, each chunk on its own. */
  function SourceSampled<T>(source: seq<Pull<T>>, r: nat): seq<T>
    requires 1 <= r
  {
    if source == [] || source[0] == Failure || |source[0].rows| == 0 then []
    else Sampled(source[0].rows, r) + SourceSampled(source[1..], r)
  }

  /** Like `Streaming`, but the cursor may stand behind the rows of its chunk. */
  predicate Running<T(==)>(s: Fetcher<T>) {
    Ready(s) && (s.resultsetEnd || ErrorFree(s.source)) && (s.chunks != [] ==> s.idx == |s.chunks| - 1)
  }

  /** The rows of the current chunk behind the cursor. */
  function InChunk<T(==)>(s: Fetcher<T>): seq<T>
    requires Running(s)
  {
    if s.chunks == [] || |s.current.value| <= s.row then [] else s.current.value[s.row + 1..]
  }

  function AheadSampled<T(==)>(s: Fetcher<T>, r: nat): seq<T>
    requires Running(s) && 1 <= r
  {
    Sampled(InChunk(s), r) + if s.resultsetEnd then [] else SourceSampled(s.source, r)
  }

  function RowsLeft<T(==)>(s: Fetcher<T>): nat
    requires Running(s)
  {
    |InChunk(s)| + if s.resultsetEnd then 0 else |SourceRows(s.source)|
  }

  /** The rowset behind the cursor, without bindings: its last row if it is whole. */
  lemma RowsetSampled<T>(s: Fetcher<T>, r: nat)
    requires Running(s) && s.chunks != [] && s.row + 1 < |s.current.value| && 1 <= r
    ensures var (s1, rows) := ReadRowset(s, r, Unbound);
      Running(s1) && AheadSampled(s, r) == rows + AheadSampled(s1, r) && RowsLeft(s1) < RowsLeft(s)
  {
    var (s1, rows) := ReadRowset(s, r, Unbound);
    if s.row + r < |s.current.value| {
      assert InChunk(s1) == InChunk(s)[r..];
      Regroup(rows, Sampled(InChunk(s1), r), if s.resultsetEnd then [] else SourceSampled(s.source, r));
    }
  }

  lemma PullRuns<T>(s: Fetcher<T>, r: nat)
    requires Running(s) && RequireFetch(s) && (s.resultsetEnd ==> s.chunks == []) && 1 <= r
    ensures var (s1, ret) := PullNext(s);
      && Running(s1) && AheadSampled(s1, r) == AheadSampled(s, r) && RowsLeft(s1) == RowsLeft(s)
      && if ret == SqlSuccess then s1.chunks != [] && s1.row == -1 else ret == SqlNoData && RowsLeft(s) == 0
  {
    assert InChunk(s) == [];
    if !s.resultsetEnd && s.source != [] && s.source[0].Chunk? && s.source[0].rows != [] {
      PulledRuns(s, s.source[0].rows);
      hide Sampled;
    }
  }

  lemma PulledRuns<T>(s: Fetcher<T>, rows: seq<T>)
    requires Running(s) && !s.resultsetEnd && s.source != [] && s.source[0] == Chunk(rows) && rows != []
    ensures var (s1, ret) := PullNext(s);
      && ret == SqlSuccess && Running(s1) && InChunk(s1) == rows && s1.source == s.source[1..]
      && !s1.resultsetEnd && s1.chunks != [] && s1.row == -1
  {
  }

  /** What one call without bindings does. */
  predicate UnboundShows<T(==)>(s: Fetcher<T>, r: nat, s1: Fetcher<T>, ret: SqlReturn, rows: seq<T>)
    requires Running(s) && 1 <= r
  {
    && Running(s1) && AheadSampled(s, r) == rows + AheadSampled(s1, r)
    && if ret == SqlSuccess then RowsLeft(s1) < RowsLeft(s)
       else ret == SqlNoData && rows == [] && RowsLeft(s) == RowsLeft(s1) == 0
  }

  lemma UnboundPulls<T>(s: Fetcher<T>, r: nat)
    requires Running(s) && RequireFetch(s) && (s.resultsetEnd ==> s.chunks == []) && 1 <= r
    ensures var (s1, ret, rows) := Fetch(s, Next, r, Unbound); UnboundShows(s, r, s1, ret, rows)
  {
    hide Sampled, SourceSampled, PullNext;
    var s0 := s.(prior := s.row);
    assert InChunk(s0) == InChunk(s);
    PullRuns(s0, r);
    NextIsPull(s, r);
    hide MoveTo;
    var (s1, ret) := PullNext(s0);
    if ret == SqlSuccess {
      assert s1.row + 1 < |s1.current.value|;
      RowsetSampled(s1, r);
    }
  }

  lemma UnboundStays<T>(s: Fetcher<T>, r: nat)
    requires Running(s) && 1 <= r && s.chunks != [] && (RequireFetch(s) ==> s.resultsetEnd)
    ensures var (s1, ret, rows) := Fetch(s, Next, r, Unbound); UnboundShows(s, r, s1, ret, rows)
  {
    hide Sampled, SourceSampled, PullNext;
    var s0 := s.(prior := s.row);
    assert Running(s0) && InChunk(s0) == InChunk(s);
    if !RequireFetch(s) {
      RowsetSampled(s0, r);
    }
  }

  /** One call without bindings shows the last row of the next rowset of its chunk, or no row if it is
      not whole. */
  lemma UnboundNext<T>(s: Fetcher<T>, r: nat)
    requires Running(s) && 1 <= r
    ensures var (s1, ret, rows) := Fetch(s, Next, r, Unbound); UnboundShows(s, r, s1, ret, rows)
  {
    hide UnboundShows, Fetch, Running;
    if RequireFetch(s) && (s.resultsetEnd ==> s.chunks == []) {
      UnboundPulls(s, r);
    } else {
      UnboundStays(s, r);
    }
  }

  lemma RunningIsReady<T>(s: Fetcher<T>)
    requires Running(s)
    ensures Ready(s)
  {
  }

  lemma NothingSampled<T>(s: Fetcher<T>, r: nat)
    requires Running(s) && 1 <= r && RowsLeft(s) == 0
    ensures AheadSampled(s, r) == []
  {
    SampledIsAllExactlyWhen(InChunk(s), r);
    SourceSampledIsAllExactlyWhen(s.source, r);
  }

  /** Without bindings, reading forward shows the last row of every whole rowset of every chunk, and no
      other row. */
  lemma {:induction false} UnboundReadsSampled<T>(s: Fetcher<T>, r: nat, n: nat)
    requires Running(s) && 1 <= r && RowsLeft(s) <= n
    ensures ReadOn(s, r, Unbound, n) == AheadSampled(s, r)
    decreases n
  {
    hide Fetch, Running, AheadSampled;
    UnboundNext(s, r);
    if n == 0 {
      NothingSampled(s, r);
    } else {
      RunningIsReady(s);
      var s1, rows := Fetch(s, Next, r, Unbound).0, Fetch(s, Next, r, Unbound).2;
      UnboundReadsSampled(s1, r, n - 1);
      assert ReadOn(s, r, Unbound, n) == rows + ReadOn(s1, r, Unbound, n - 1);
    }
  }

  lemma {:induction false} SampledIsAllExactlyWhen<T>(rows: seq<T>, r: nat)
    requires 1 <= r
    ensures |Sampled(rows, r)| <= |rows|
    ensures Sampled(rows, r) == rows <==> r == 1 || rows == []
    ensures r != 1 && rows != [] ==> |Sampled(rows, r)| < |rows|
  {
    if r <= |rows| {
      SampledIsAllExactlyWhen(rows[r..], r);
      assert r == 1 ==> rows == [rows[0]] + rows[1..];
    }
  }

  lemma {:induction false} SourceSampledIsAllExactlyWhen<T>(source: seq<Pull<T>>, r: nat)
    requires 1 <= r
    ensures |SourceSampled(source, r)| <= |SourceRows(source)|
    ensures r == 1 ==> SourceSampled(source, r) == SourceRows(source)
    ensures r != 1 && SourceRows(source) != [] ==> |SourceSampled(source, r)| < |SourceRows(source)|
  {
    if source != [] && source[0] != Failure && |source[0].rows| != 0 {
      SampledIsAllExactlyWhen(source[0].rows, r);
      SourceSampledIsAllExactlyWhen(source[1..], r);
    }
  }

  /** Main result: without bindings, reading forward delivers every row exactly when rowsets have one row. */
  lemma UnboundReadsEverythingExactlyWhen<T>(s: Fetcher<T>, r: nat, n: nat)
    requires Streaming(s) && 1 <= r && |Ahead(s)| <= n
    ensures ReadOn(s, r, Unbound, n) == Ahead(s) <==> r == 1 || Ahead(s) == []
  {
    assert Running(s) && Ahead(s) == InChunk(s) + if s.resultsetEnd then [] else SourceRows(s.source);
    UnboundReadsSampled(s, r, n);
    SampledIsAllExactlyWhen(InChunk(s), r);
    SourceSampledIsAllExactlyWhen(s.source, r);
  }

  /** For example, of two rows read as one rowset the first is never shown; of one row read as half a rowset,
      none is. */
  lemma UnboundRowsetSkipsRows<T>(row0: T, row1: T)
    ensures
      var two := Fetcher(ForwardOnly, [[row0, row1]], [], 0, Some([row0, row1]), -1, -1, true, NOTHING_READ);
      Streaming(two) && Ahead(two) == [row0, row1] && Fetch(two, Next, 2, Unbound).2 == [row1]
    ensures
      var one := Fetcher(ForwardOnly, [[row0]], [], 0, Some([row0]), -1, -1, true, NOTHING_READ);
      Streaming(one) && Ahead(one) == [row0] && Fetch(one, Next, 2, Unbound).1 == SqlSuccess
        && Fetch(one, Next, 2, Unbound).2 == []
  {
    var two := Fetcher(ForwardOnly, [[row0, row1]], [], 0, Some([row0, row1]), -1, -1, true, NOTHING_READ);
    var one := Fetcher(ForwardOnly, [[row0]], [], 0, Some([row0]), -1, -1, true, NOTHING_READ);
    assert Streaming(two) && Ahead(two) == [row0, row1];
    assert Streaming(one) && Ahead(one) == [row0];
  }
}

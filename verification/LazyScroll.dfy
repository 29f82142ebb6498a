/** Scrolling over a result that is still being pulled: going back and forward again before its end was seen. */
module LazyScroll {
  import opened Common
  import opened Multiples
  import opened HeldCursor
  import opened FetchSpec
  import opened FetchRuns
  import opened MaterializeRuns

  /** All the chunks of a result: those held, and those still to be pulled. */
  function AllChunks<T>(s: Fetcher<T>): seq<seq<T>> {
    s.chunks + if s.resultsetEnd then [] else LeadingChunks(s.source)
  }

  /** A scrollable cursor on a result without failures, of which some chunk is held. */
  predicate Underway<T(==)>(s: Fetcher<T>) {
    && Ready(s) && s.cursorType.Scrollable? && s.chunks != []
    && (s.resultsetEnd || ErrorFree(s.source)) && s.row < |s.chunks[s.idx]|
  }

  /** The driver wants another chunk, the result has none left, and it does not look at the chunk it already holds. */
  predicate Overlooks<T(==)>(s: Fetcher<T>, op: Op)
    requires Underway(s)
  {
    && op == Next && RequireFetch(s) && !s.resultsetEnd && LeadingChunks(s.source) == []
    && s.idx + 1 < |s.chunks|
  }

  lemma AllSizes<T>(s: Fetcher<T>)
    requires Underway(s)
    ensures Sizes(SizesOf(AllChunks(s))) && InRange(SizesOf(AllChunks(s)), PositionOf(s))
  {
    LeadingChunksFlat(s.source);
    hide Flat;
  }

  /** What one call does on equal chunks: it shows the flat rows that the position machine over all chunks names, unless
      it overlooks a chunk, and then it shows no data where that machine has rows. */
  predicate Lazily<T(==)>(s: Fetcher<T>, op: Op, r: nat)
    requires Underway(s) && 1 <= r
  {
    var all := AllChunks(s);
    var (s1, ret, rows) := Fetch(s, op, r, Bound);
    && Sizes(SizesOf(all)) && InRange(SizesOf(all), PositionOf(s))
    && Underway(s1) && AllChunks(s1) == all
    && var (h1, out) := Step(SizesOf(all), r, PositionOf(s), op);
       if Overlooks(s, op) then ret == SqlNoData && rows == [] && out.Rowset?
       else PositionOf(s1) == h1 && Shows(all, out, ret, rows)
  }

  /** The cursor that has pulled everything already. */
  function Pulled<T>(s: Fetcher<T>): Fetcher<T> {
    s.(chunks := AllChunks(s), source := [], resultsetEnd := true, last := NOTHING_READ)
  }

  predicate EqualChunks<T>(chunks: seq<seq<T>>) {
    forall i | 0 <= i < |chunks| :: |chunks[i]| == |chunks[0]|
  }

  /** A move that overlooks nothing is that of the cursor that has pulled everything. */
  predicate Mirrors<T(==)>(s: Fetcher<T>, op: Op, r: nat)
    requires Underway(s) && 1 <= r
  {
    Ready(Pulled(s)) &&
    var (s1, ret) := MoveTo(s, op, r);
    var (t1, ret1) := MoveTo(Pulled(s), op, r);
    && ret == ret1 && Underway(s1) && AllChunks(s1) == AllChunks(s) && t1.(last := NOTHING_READ) == Pulled(s1)
  }

  lemma PulledHolds<T>(s: Fetcher<T>)
    requires Underway(s)
    ensures HoldsAll(Pulled(s)) && AllChunks(s)[..|s.chunks|] == s.chunks
  {
    LeadingChunksFlat(s.source);
    hide Flat;
  }

  /** The size of the last chunk decides whether to fetch; for equal chunks it does not matter which is held. */
  lemma SameTest<T>(s: Fetcher<T>)
    requires Underway(s) && EqualChunks(AllChunks(s))
    ensures RequireFetch(s) <==> RequireFetch(Pulled(s))
    ensures RequireFetch(s) ==> s.row == |s.chunks[s.idx]| - 1
  {
    PulledHolds(s);
    var all := AllChunks(s);
    assert s.chunks[|s.chunks| - 1] == all[|s.chunks| - 1] && s.chunks[s.idx] == all[s.idx];
    hide LeadingChunks;
  }

  lemma NextStaysMirrored<T>(s: Fetcher<T>, r: nat)
    requires Underway(s) && 1 <= r && (RequireFetch(s) <==> RequireFetch(Pulled(s)))
    requires RequireFetch(s) ==> s.resultsetEnd
    ensures Mirrors(s, Next, r)
  {
    PulledHolds(s);
    hide LeadingChunks;
    assert s.resultsetEnd ==> AllChunks(s) == s.chunks;
  }

  /** Before the first row of the next chunk, with one more chunk held. */
  function Onto<T>(s: Fetcher<T>, chunks: seq<seq<T>>): Fetcher<T>
    requires s.idx + 1 < |chunks|
  {
    s.(prior := -1, last := NOTHING_READ, source := if s.source == [] then [] else s.source[1..], chunks := chunks,
       idx := s.idx + 1, current := Some(chunks[s.idx + 1]), row := -1)
  }

  lemma NextGoesOnto<T>(s: Fetcher<T>, r: nat)
    requires Underway(s) && RequireFetch(s) && !s.resultsetEnd && LeadingChunks(s.source) != []
    ensures s.source != [] && s.source[0].Chunk?
    ensures LeadingChunks(s.source) == [s.source[0].rows] + LeadingChunks(s.source[1..])
    ensures MoveTo(s, Next, r) == (Onto(s, s.chunks + [s.source[0].rows]), SqlSuccess)
  {
    hide ErrorFree;
  }

  lemma PulledGoesOnto<T>(s: Fetcher<T>, r: nat)
    requires HoldsAll(s) && RequireFetch(s) && s.idx + 1 < |s.chunks| && s.source == []
    ensures var (s1, ret) := MoveTo(s, Next, r); ret == SqlSuccess && s1.(last := NOTHING_READ) == Onto(s, s.chunks)
  {
  }

  lemma OntoIsUnderway<T>(s: Fetcher<T>, rows: seq<T>)
    requires Underway(s) && !s.resultsetEnd && s.source != [] && s.source[0] == Chunk(rows) && rows != []
    ensures Underway(Onto(s, s.chunks + [rows]))
  {
  }

  lemma NextPullsMirrored<T>(s: Fetcher<T>, r: nat)
    requires Underway(s) && 1 <= r && RequireFetch(s) && RequireFetch(Pulled(s))
    requires !s.resultsetEnd && LeadingChunks(s.source) != []
    ensures Mirrors(s, Next, r)
  {
    PulledHolds(s);
    LeadingChunksFlat(s.source);
    NextGoesOnto(s, r);
    hide MoveTo, LeadingChunks, Underway, HoldsAll, Flat;
    var more := s.chunks + [s.source[0].rows];
    Regroup(s.chunks, [s.source[0].rows], LeadingChunks(s.source[1..]));
    PulledGoesOnto(Pulled(s), r);
    OntoIsUnderway(s, s.source[0].rows);
    assert more[s.idx + 1] == AllChunks(s)[s.idx + 1];
  }

  lemma NextEndsMirrored<T>(s: Fetcher<T>, r: nat)
    requires Underway(s) && 1 <= r && RequireFetch(s) && RequireFetch(Pulled(s))
    requires !s.resultsetEnd && LeadingChunks(s.source) == [] && s.idx + 1 == |s.chunks|
    ensures Mirrors(s, Next, r)
  {
    PulledHolds(s);
    assert AllChunks(s) == s.chunks;
  }

  lemma NextMirrors<T>(s: Fetcher<T>, r: nat)
    requires Underway(s) && 1 <= r && EqualChunks(AllChunks(s)) && !Overlooks(s, Next)
    ensures Mirrors(s, Next, r)
  {
    hide Mirrors, RequireFetch;
    SameTest(s);
    if !RequireFetch(s) || s.resultsetEnd {
      NextStaysMirrored(s, r);
    } else if LeadingChunks(s.source) != [] {
      NextPullsMirrored(s, r);
    } else {
      NextEndsMirrored(s, r);
    }
  }

  /** Going back does not depend on the chunks behind the current one, nor on the source. */
  lemma PriorLooksBack<T>(s: Fetcher<T>, chunks: seq<seq<T>>, r: nat)
    requires s.idx < |s.chunks| && s.chunks <= chunks
    ensures ToPrior(s.(chunks := chunks, source := [], resultsetEnd := true, last := NOTHING_READ), r)
      == (ToPrior(s, r).0.(chunks := chunks, source := [], resultsetEnd := true, last := NOTHING_READ), ToPrior(s, r).1)
    ensures ToPrior(s, r).0 == s.(idx := ToPrior(s, r).0.idx, current := ToPrior(s, r).0.current,
                                  row := ToPrior(s, r).0.row, prior := ToPrior(s, r).0.prior)
  {
    assert 0 < s.idx ==> s.chunks[s.idx - 1] == chunks[s.idx - 1];
  }

  lemma PriorStaysInside<T>(s: Fetcher<T>, r: nat)
    requires Underway(s) && 1 <= r
    ensures var s1 := ToPrior(s, r).0; Underway(s1)
  {
    PriorValid(s, r);
    hide ErrorFree;
  }

  lemma PriorMirrors<T>(s: Fetcher<T>, r: nat)
    requires Underway(s) && 1 <= r
    ensures Mirrors(s, Prior, r)
  {
    hide LeadingChunks, ToPrior, ErrorFree, PullNext, ToFront;
    PulledHolds(s);
    PriorLooksBack(s, AllChunks(s), r);
    PriorStaysInside(s, r);
  }

  lemma FirstMirrors<T>(s: Fetcher<T>, r: nat)
    requires Underway(s) && 1 <= r
    ensures Mirrors(s, First, r)
  {
    PulledHolds(s);
  }

  lemma RowsetMirrors<T>(s: Fetcher<T>, t: Fetcher<T>, r: nat)
    requires s.current.Some? && -1 <= s.row && t.current == s.current && t.row == s.row && t.idx == s.idx
    requires t.prior == s.prior
    ensures var (s1, rows) := ReadRowset(s, r, Bound); var (t1, rows1) := ReadRowset(t, r, Bound);
      && rows == rows1 && PositionOf(s1) == PositionOf(t1) && s1 == s.(row := s1.row)
      && (s.row < |s.current.value| ==> s.row <= s1.row < |s.current.value|)
  {
  }

  lemma OverlooksRows<T>(s: Fetcher<T>, op: Op, r: nat)
    requires Underway(s) && 1 <= r && EqualChunks(AllChunks(s)) && Overlooks(s, op)
    ensures Fetch(s, op, r, Bound) ==
      (s.(prior := s.row, last := NOTHING_READ, source := if s.source == [] then []
        else s.source[1..], resultsetEnd := true), SqlNoData, [])
    ensures Sizes(SizesOf(AllChunks(s))) && InRange(SizesOf(AllChunks(s)), PositionOf(s))
    ensures Step(SizesOf(AllChunks(s)), r, PositionOf(s), op).1.Rowset?
  {
    AllSizes(s);
    SameTest(s);
    assert AllChunks(s) == s.chunks;
    hide Offset;
  }

  lemma MoveMirrors<T>(s: Fetcher<T>, op: Op, r: nat)
    requires Underway(s) && 1 <= r && EqualChunks(AllChunks(s)) && !Overlooks(s, op)
    ensures Mirrors(s, op, r)
  {
    hide Mirrors, Overlooks;
    match op {
      case Next => NextMirrors(s, r);
      case Prior => PriorMirrors(s, r);
      case First => FirstMirrors(s, r);
    }
  }

  /** Reading after a mirrored move. */
  lemma FetchMirrors<T>(s: Fetcher<T>, op: Op, r: nat)
    requires Underway(s) && 1 <= r && Mirrors(s, op, r)
    ensures Ready(Pulled(s))
    ensures var (s1, ret, rows) := Fetch(s, op, r, Bound); var (t1, ret1, rows1) := Fetch(Pulled(s), op, r, Bound);
      && ret == ret1 && rows == rows1 && PositionOf(s1) == PositionOf(t1)
      && Underway(s1) && AllChunks(s1) == AllChunks(s)
  {
    hide MoveTo, ReadRowset, LeadingChunks, ErrorFree;
    MoveToValid(s, op, r);
    MoveToValid(Pulled(s), op, r);
    var (s1, ret) := MoveTo(s, op, r);
    var (t1, ret1) := MoveTo(Pulled(s), op, r);
    if ret == SqlSuccess {
      RowsetMirrors(s1, t1, r);
    }
  }

  /** One call on equal chunks, of which some may still have to be pulled. */
  lemma LazyFetch<T>(s: Fetcher<T>, op: Op, r: nat)
    requires Underway(s) && 1 <= r && EqualChunks(AllChunks(s))
    ensures Lazily(s, op, r)
  {
    hide Fetch, Step, Mirrors, Flat, Offset, LeadingChunks;
    AllSizes(s);
    if Overlooks(s, op) {
      OverlooksRows(s, op, r);
    } else {
      MoveMirrors(s, op, r);
      FetchMirrors(s, op, r);
      PulledHolds(s);
      HeldFetch(Pulled(s), op, r);
    }
  }

  // ---------------------------------------------------------------- runs

  /** After the calls `ops`, the call `op` shows what the flat cursor shows. */
  predicate ShowsFlatRows<T(==)>(s: Fetcher<T>, r: nat, ops: seq<Op>, op: Op)
    requires Ready(s) && 1 <= r
  {
    var (s1, ret, rows) := Fetch(Scroll(s, r, ops), op, r, Bound);
    Shows(AllChunks(s), RefSeen(Total(SizesOf(AllChunks(s))), r, ops, op), ret, rows)
  }

  /** A run that overlooked nothing so far. */
  predicate OnCourse<T(==)>(s: Fetcher<T>, r: nat, ops: seq<Op>)
    requires Ready(s) && 1 <= r
  {
    var s1, sizes := Scroll(s, r, ops), SizesOf(AllChunks(s));
    && Underway(s1) && AllChunks(s1) == AllChunks(s) && Sizes(sizes) && Aligned(sizes, r)
    && InRange(sizes, PositionOf(s1)) && Related(sizes, r, PositionOf(s1), RefRun(Total(sizes), r, ops))
  }

  lemma AlignedIsEqual<T>(chunks: seq<seq<T>>, r: nat)
    requires 1 <= r && Aligned(SizesOf(chunks), r)
    ensures EqualChunks(chunks)
  {
    forall i | 0 <= i < |chunks| ensures |chunks[i]| == |chunks[0]| {
      assert SizesOf(chunks)[i] == SizesOf(chunks)[0];
    }
  }

  /** One more call stays on course and shows what it should, unless it overlooks a chunk; then it does not. */
  lemma CourseStep<T>(s: Fetcher<T>, r: nat, ops: seq<Op>, op: Op)
    requires Ready(s) && 1 <= r && OnCourse(s, r, ops)
    ensures ShowsFlatRows(s, r, ops, op) <==> !Overlooks(Scroll(s, r, ops), op)
    ensures !Overlooks(Scroll(s, r, ops), op) ==> OnCourse(s, r, ops + [op])
  {
    hide Fetch, Step, RefStep, Related, Overlooks, Flat, Offset, LeadingChunks, Underway;
    var s1, sizes := Scroll(s, r, ops), SizesOf(AllChunks(s));
    AlignedIsEqual(AllChunks(s), r);
    LazyFetch(s1, op, r);
    StepKeepsRelated(sizes, r, PositionOf(s1), RefRun(Total(sizes), r, ops), op);
    StepInRange(sizes, r, PositionOf(s1), op);
    assert (ops + [op])[..|ops|] == ops;
  }

  /** The first call that overlooks a chunk needs two of them. */
  lemma {:induction false} SingleChunkOnCourse<T>(s: Fetcher<T>, r: nat, ops: seq<Op>)
    requires Ready(s) && 1 <= r && OnCourse(s, r, []) && |AllChunks(s)| == 1
    ensures OnCourse(s, r, ops)
  {
    hide OnCourse, Fetch, LeadingChunks;
    if ops != [] {
      var before := ops[..|ops| - 1];
      SingleChunkOnCourse(s, r, before);
      SingleOverlooksNothing(s, r, before, ops[|ops| - 1]);
      CourseStep(s, r, before, ops[|ops| - 1]);
      assert before + [ops[|ops| - 1]] == ops;
    }
  }

  lemma SingleOverlooksNothing<T>(s: Fetcher<T>, r: nat, ops: seq<Op>, op: Op)
    requires Ready(s) && 1 <= r && OnCourse(s, r, ops) && |AllChunks(s)| == 1
    ensures Underway(Scroll(s, r, ops)) && !Overlooks(Scroll(s, r, ops), op)
  {
    hide LeadingChunks;
  }

  /** While the cursor reads forward, the current chunk is the newest, and the end was not seen. */
  predicate Forward<T(==)>(s: Fetcher<T>, r: nat, ops: seq<Op>)
    requires Ready(s) && 1 <= r
  {
    var s1 := Scroll(s, r, ops);
    && OnCourse(s, r, ops) && !s1.resultsetEnd && s1.idx + 1 == |s1.chunks| && (s1.row + 1) % r == 0
  }

  lemma MoreIsLeading<T>(s: Fetcher<T>)
    requires Underway(s) && !s.resultsetEnd && s.idx + 1 == |s.chunks| < |AllChunks(s)|
    ensures LeadingChunks(s.source) != [] && !Overlooks(s, Next)
  {
    assert |AllChunks(s)| == |s.chunks| + |LeadingChunks(s.source)|;
    hide LeadingChunks;
  }

  /** Before the last chunk, reading forward pulls at most one chunk and does not see the end. */
  lemma ForwardHolds<T>(s: Fetcher<T>, r: nat)
    requires Underway(s) && 1 <= r && !s.resultsetEnd && s.idx + 1 == |s.chunks| < |AllChunks(s)|
    ensures var s1 := Fetch(s, Next, r, Bound).0;
      !s1.resultsetEnd && s1.idx + 1 == |s1.chunks| && s1.idx <= s.idx + 1
  {
    MoreIsLeading(s);
    var s1 := MoveTo(s, Next, r).0;
    assert !s1.resultsetEnd && s1.idx + 1 == |s1.chunks| && s1.idx <= s.idx + 1;
    hide LeadingChunks, MoveTo;
  }

  /** On equal chunks that `r` divides, one rowset further on. */
  lemma StepForward(sizes: seq<nat>, r: nat, h: Held)
    requires Sizes(sizes) && 1 <= r && Aligned(sizes, r) && InRange(sizes, h) && sizes != []
    requires h.idx + 1 < |sizes| && (h.row + 1) % r == 0
    ensures var h1 := Step(sizes, r, h, Next).0;
      && (h1.row + 1) % r == 0
      && if h.row + 1 < sizes[0] then h1.idx == h.idx && h1.row == h.row + r else h1 == Held(h.idx + 1, r - 1, -1)
  {
    MultipleGap(0, sizes[0], r);
    MultipleShift(h.row + 1, r);
    if h.row + 1 < sizes[0] {
      MultipleGap(h.row + 1, sizes[0], r);
    }
    MultipleOf(1, r);
  }

  /** Reading forward reaches the first rowset of the last chunk before the end is seen. */
  lemma {:induction false} ReachLast<T>(s: Fetcher<T>, r: nat, ops: seq<Op>) returns (ops1: seq<Op>)
    requires Ready(s) && 1 <= r && Forward(s, r, ops) && Scroll(s, r, ops).idx + 1 < |AllChunks(s)|
    ensures OnCourse(s, r, ops1)
    ensures var s1 := Scroll(s, r, ops1);
      && !s1.resultsetEnd && |s1.chunks| == |AllChunks(s)| && PositionOf(s1) == Held(|AllChunks(s)| - 1, r - 1, -1)
    decreases |AllChunks(s)| - Scroll(s, r, ops).idx, |AllChunks(s)[0]| - Scroll(s, r, ops).row
  {
    hide Fetch, Step, RefStep, Related, Overlooks, Flat, Offset, LeadingChunks, RefRun;
    var s1, sizes := Scroll(s, r, ops), SizesOf(AllChunks(s));
    var next := ops + [Next];
    assert next[..|next| - 1] == ops;
    MoreIsLeading(s1);
    CourseStep(s, r, ops, Next);
    ForwardHolds(s1, r);
    StepForward(sizes, r, PositionOf(s1));
    AlignedIsEqual(AllChunks(s), r);
    LazyFetch(s1, Next, r);
    var s2 := Scroll(s, r, next);
    assert s2 == Fetch(s1, Next, r, Bound).0;
    if s2.idx + 1 == |AllChunks(s)| {
      ops1 := next;
    } else {
      ops1 := ReachLast(s, r, next);
    }
  }

  /** From the first rowset of the last chunk, SQL_FETCH_PRIOR goes to the last row of the chunk before. */
  lemma BackToBoundary(sizes: seq<nat>, r: nat)
    requires Sizes(sizes) && 1 <= r && Aligned(sizes, r) && 2 <= |sizes| && r <= sizes[0]
    ensures InRange(sizes, Held(|sizes| - 1, r - 1, -1))
    ensures var h1 := Step(sizes, r, Held(|sizes| - 1, r - 1, -1), Prior).0;
      h1.idx == |sizes| - 2 && h1.row == sizes[0] - 1
  {
    hide Offset;
    assert sizes[|sizes| - 1] == sizes[0] && sizes[|sizes| - 2] == sizes[0];
  }

  lemma PriorKeepsPulled<T>(s: Fetcher<T>, r: nat)
    requires Underway(s) && 1 <= r
    ensures var s1 := Fetch(s, Prior, r, Bound).0;
      s1.chunks == s.chunks && s1.source == s.source && s1.resultsetEnd == s.resultsetEnd
  {
    hide LeadingChunks, ErrorFree;
  }

  /** From there, SQL_FETCH_PRIOR goes back a chunk, and SQL_FETCH_NEXT finds the end instead of the chunk that is
      held. */
  lemma PriorThenOverlooks<T>(s: Fetcher<T>, r: nat)
    requires Underway(s) && 1 <= r && Aligned(SizesOf(AllChunks(s)), r) && !s.resultsetEnd
    requires 2 <= |s.chunks| == |AllChunks(s)| && PositionOf(s) == Held(|s.chunks| - 1, r - 1, -1)
    ensures var s1 := Fetch(s, Prior, r, Bound).0; Underway(s1) && Overlooks(s1, Next)
  {
    hide Fetch, Step, LeadingChunks, Flat, Offset;
    AlignedIsEqual(AllChunks(s), r);
    LazyFetch(s, Prior, r);
    PriorKeepsPulled(s, r);
    assert AllChunks(s) == s.chunks + LeadingChunks(s.source);
    assert SizesOf(AllChunks(s))[0] == |s.chunks[0]| == |s.chunks[|s.chunks| - 1]|;
    MultipleGap(0, |s.chunks[0]|, r);
    BackToBoundary(SizesOf(AllChunks(s)), r);
  }

  /** Main result on scrolling while the result is still being pulled: over chunks that are equal and that the rowset
      size divides, no run shows a difference from the flat cursor exactly when there is a single chunk. */
  lemma LazyScrollShowsFlatExactlyWhen<T>(s: Fetcher<T>, r: nat)
    requires Underway(s) && PositionOf(s) == BEFORE_FIRST && |s.chunks| == 1 && !s.resultsetEnd
    requires 1 <= r && Aligned(SizesOf(AllChunks(s)), r)
    ensures (forall ops, op :: ShowsFlatRows(s, r, ops, op)) <==> |AllChunks(s)| == 1
  {
    hide Fetch, Step, RefStep, Related, Overlooks, Flat, Offset, LeadingChunks, ShowsFlatRows, OnCourse, AllChunks;
    StartsOnCourse(s, r);
    if |AllChunks(s)| == 1 {
      forall ops, op ensures ShowsFlatRows(s, r, ops, op) {
        SingleChunkOnCourse(s, r, ops);
        SingleOverlooksNothing(s, r, ops, op);
        CourseStep(s, r, ops, op);
      }
    } else {
      var ops := ManyOverlook(s, r);
      assert !ShowsFlatRows(s, r, ops, Next);
    }
  }

  lemma StartsOnCourse<T>(s: Fetcher<T>, r: nat)
    requires Underway(s) && PositionOf(s) == BEFORE_FIRST && |s.chunks| == 1 && 1 <= r
    requires Aligned(SizesOf(AllChunks(s)), r)
    ensures OnCourse(s, r, []) && 1 <= |AllChunks(s)|
  {
    AllSizes(s);
    hide LeadingChunks;
  }

  lemma ManyOverlook<T>(s: Fetcher<T>, r: nat) returns (ops: seq<Op>)
    requires Underway(s) && PositionOf(s) == BEFORE_FIRST && |s.chunks| == 1 && !s.resultsetEnd
    requires 1 <= r && Aligned(SizesOf(AllChunks(s)), r) && 2 <= |AllChunks(s)|
    ensures !ShowsFlatRows(s, r, ops, Next)
  {
    hide Fetch, Step, RefStep, Related, Overlooks, Flat, Offset, LeadingChunks, ShowsFlatRows;
    StartsOnCourse(s, r);
    var there := ReachLast(s, r, []);
    var s1 := Scroll(s, r, there);
    PriorThenOverlooks(s1, r);
    NotOverlookedBack(s1);
    CourseStep(s, r, there, Prior);
    ops := there + [Prior];
    assert ops[..|ops| - 1] == there;
    CourseStep(s, r, ops, Next);
  }

  lemma NotOverlookedBack<T>(s: Fetcher<T>)
    requires Underway(s)
    ensures !Overlooks(s, Prior) && !Overlooks(s, First)
  {
  }
}

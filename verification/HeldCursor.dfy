/** Positions of the cursor once every chunk of the result is held.

    `Step` is the cursor of the driver, which knows only a chunk index, a row
    inside that chunk and a "prior" row.  `RefStep` is the cursor that
    SQLFetchScroll describes (Microsoft ODBC Programmer's Reference, "Cursor
    Positioning Rules"), which knows one flat sequence of rows.  The main result says for
    which chunk sizes and rowset sizes no application can tell their rowsets apart; what it
    sees of bound columns in them is the matter of `BoundScroll`.
 */
module HeldCursor {
  import opened Common
  import opened Multiples

  datatype Op = Next | Prior | First

  /** What one call shows: a rowset, by flat start row and row count, or SQL_NO_DATA. */
  datatype Outcome = Rowset(start: nat, count: nat) | NoData

  /** chunk index, row and prior row; -1 stands before the first row of the chunk. */
  datatype Held = Held(idx: nat, row: int, prior: int)

  const BEFORE_FIRST := Held(0, -1, -1)

  predicate Sizes(sizes: seq<nat>) {
    forall i | 0 <= i < |sizes| :: 1 <= sizes[i]
  }

  /** The flat row at which chunk `i` starts. */
  function Offset(sizes: seq<nat>, i: nat): (n: nat)
    requires i <= |sizes|
  {
    if i == 0 then 0 else Offset(sizes, i - 1) + sizes[i - 1]
  }

  function Total(sizes: seq<nat>): nat {
    Offset(sizes, |sizes|)
  }

  /** A cursor that stands inside the held chunks. */
  predicate InRange(sizes: seq<nat>, h: Held) {
    && -1 <= h.row
    && if sizes == [] then h.idx == 0 && h.row == -1 && h.prior <= -1
       else h.idx < |sizes| && h.row < sizes[h.idx] && (h.idx == 0 || -1 <= h.prior) && h.prior <= h.row
  }

  /** Reads the rowset after `h.row`, as far as the current chunk reaches. */
  function Deliver(sizes: seq<nat>, r: nat, h: Held): (res: (Held, Outcome))
    requires h.idx < |sizes| && -1 <= h.row < sizes[h.idx]
  {
    var last := Min(h.row + 1 + r, sizes[h.idx]);
    (h.(row := last - 1), Rowset(Offset(sizes, h.idx) + h.row + 1, last - (h.row + 1)))
  }

  function Step(sizes: seq<nat>, r: nat, h: Held, op: Op): (Held, Outcome)
    requires Sizes(sizes) && InRange(sizes, h) && 1 <= r
  {
    match op
    case Next =>
      var h1 := h.(prior := h.row);
      if sizes == [] then (h1.(row := -1, prior := -1), NoData)
      else if h.row < sizes[|sizes| - 1] - 1 then Deliver(sizes, r, h1)
      else if h.idx == |sizes| - 1 then (h1, NoData)
      else Deliver(sizes, r, Held(h.idx + 1, -1, -1))
    case Prior =>
      var prior := h.prior - r;
      if h.idx == 0 && prior < -1 then (h.(row := -1, prior := prior), NoData)
      else if prior < -1 then
        var back := sizes[h.idx - 1] - r - 1;
        var row := if back < 0 then -1 else back;
        Deliver(sizes, r, Held(h.idx - 1, row, row))
      else Deliver(sizes, r, h.(row := prior, prior := prior))
    case First =>
      if sizes == [] then (BEFORE_FIRST, NoData) else Deliver(sizes, r, BEFORE_FIRST)
  }

  // ---------------------------------------------------------------- the reference

  datatype Position = BeforeStart | At(start: nat) | AfterEnd

  function RefRowset(n: nat, r: nat, start: nat): (Position, Outcome)
    requires start < n
  {
    (At(start), Rowset(start, Min(r, n - start)))
  }

  /** The SQLFetchScroll rules for SQL_FETCH_NEXT, SQL_FETCH_PRIOR and SQL_FETCH_FIRST over `n` rows. */
  function RefStep(n: nat, r: nat, p: Position, op: Op): (Position, Outcome)
    requires 1 <= r && (p.At? ==> p.start < n)
  {
    if n == 0 then (p, NoData) else
    match op
    case First => RefRowset(n, r, 0)
    case Next =>
      (match p
       case BeforeStart => RefRowset(n, r, 0)
       case At(start) => if start + r < n then RefRowset(n, r, start + r) else (AfterEnd, NoData)
       case AfterEnd => (AfterEnd, NoData))
    case Prior =>
      match p
      case BeforeStart => (BeforeStart, NoData)
      case At(start) =>
        if start == 0 then (BeforeStart, NoData)
        else RefRowset(n, r, if start < r then 0 else start - r)
      case AfterEnd => RefRowset(n, r, if n < r then 0 else n - r)
  }

  // ---------------------------------------------------------------- runs

  lemma StepInRange(sizes: seq<nat>, r: nat, h: Held, op: Op)
    requires Sizes(sizes) && InRange(sizes, h) && 1 <= r
    ensures InRange(sizes, Step(sizes, r, h, op).0)
  {
  }

  function Run(sizes: seq<nat>, r: nat, ops: seq<Op>): (h: Held)
    requires Sizes(sizes) && 1 <= r
    ensures InRange(sizes, h)
  {
    if ops == [] then BEFORE_FIRST
    else
      var h := Run(sizes, r, ops[..|ops| - 1]);
      StepInRange(sizes, r, h, ops[|ops| - 1]);
      Step(sizes, r, h, ops[|ops| - 1]).0
  }

  function RefRun(n: nat, r: nat, ops: seq<Op>): (p: Position)
    requires 1 <= r
    ensures p.At? ==> p.start < n
  {
    if ops == [] then BeforeStart
    else RefStep(n, r, RefRun(n, r, ops[..|ops| - 1]), ops[|ops| - 1]).0
  }

  /** What the call `op` shows after the calls `ops`. */
  function Seen(sizes: seq<nat>, r: nat, ops: seq<Op>, op: Op): Outcome
    requires Sizes(sizes) && 1 <= r
  {
    Step(sizes, r, Run(sizes, r, ops), op).1
  }

  function RefSeen(n: nat, r: nat, ops: seq<Op>, op: Op): Outcome
    requires 1 <= r
  {
    RefStep(n, r, RefRun(n, r, ops), op).1
  }

  /** No run of calls shows a difference from the flat cursor. */
  ghost predicate Refines(sizes: seq<nat>, r: nat)
    requires Sizes(sizes) && 1 <= r
  {
    forall ops, op :: Seen(sizes, r, ops, op) == RefSeen(Total(sizes), r, ops, op)
  }

  /** Equal chunks that the rowset size divides. */
  predicate Aligned(sizes: seq<nat>, r: nat)
    requires 1 <= r
  {
    forall i | 0 <= i < |sizes| :: sizes[i] == sizes[0] && sizes[i] % r == 0
  }

  // ---------------------------------------------------------------- aligned chunks refine the flat cursor

  /** The invariant of every run: after a successful fetch `prior` is the row
      before the current rowset, and `row` is its last row. */
  predicate Related(sizes: seq<nat>, r: nat, h: Held, p: Position)
    requires 1 <= r
  {
    if sizes == [] then h.idx == 0 && h.row == -1 && h.prior <= -1 && p == BeforeStart
    else
      h.idx < |sizes| &&
      match p
      case BeforeStart => h.idx == 0 && h.row == -1 && h.prior <= -1
      case At(start) =>
        && -1 <= h.prior && h.row == h.prior + r < sizes[h.idx]
        && (h.prior + 1) % r == 0
        && start == Offset(sizes, h.idx) + h.prior + 1
      case AfterEnd => h.idx == |sizes| - 1 && h.row + 1 == h.prior + 1 == sizes[h.idx]
  }

  lemma {:induction false} OffsetMonotone(sizes: seq<nat>, i: nat, j: nat)
    requires i <= j <= |sizes|
    ensures Offset(sizes, i) <= Offset(sizes, j)
    ensures Sizes(sizes) && i < j ==> Offset(sizes, i) + sizes[i] <= Offset(sizes, j)
  {
    if i < j {
      OffsetMonotone(sizes, i, j - 1);
    }
  }

  predicate Equal(sizes: seq<nat>) {
    forall i | 0 <= i < |sizes| :: sizes[i] == sizes[0]
  }

  lemma NextInChunk(sizes: seq<nat>, r: nat, h: Held, p: Position)
    requires Sizes(sizes) && sizes != [] && 1 <= r <= sizes[0] && Equal(sizes)
    requires InRange(sizes, h) && Related(sizes, r, h, p)
    requires h.row + 1 + r <= sizes[0] && (h.row + 1) % r == 0
    requires p.At? ==> p.start < Total(sizes)
    ensures Step(sizes, r, h, Next).1 == RefStep(Total(sizes), r, p, Next).1
    ensures Related(sizes, r, Step(sizes, r, h, Next).0, RefStep(Total(sizes), r, p, Next).0)
  {
    OffsetMonotone(sizes, h.idx, |sizes|);
  }

  lemma NextAcross(sizes: seq<nat>, r: nat, h: Held, p: Position)
    requires Sizes(sizes) && sizes != [] && 1 <= r <= sizes[0] && Equal(sizes)
    requires InRange(sizes, h) && Related(sizes, r, h, p)
    requires h.row + 1 == sizes[0]
    requires p.At? ==> p.start < Total(sizes)
    ensures Step(sizes, r, h, Next).1 == RefStep(Total(sizes), r, p, Next).1
    ensures Related(sizes, r, Step(sizes, r, h, Next).0, RefStep(Total(sizes), r, p, Next).0)
  {
    if h.idx + 1 < |sizes| {
      OffsetMonotone(sizes, h.idx + 1, |sizes|);
    }
  }

  lemma PriorInChunk(sizes: seq<nat>, r: nat, h: Held, p: Position)
    requires Sizes(sizes) && sizes != [] && 1 <= r <= sizes[0] && Equal(sizes)
    requires InRange(sizes, h) && Related(sizes, r, h, p)
    requires p.At? ==> p.start < Total(sizes) && (0 == h.prior + 1 || r <= h.prior + 1)
    requires p.At? ==> 1 <= h.prior + 1 || h.idx == 0
    requires (h.prior + 1 - r) % r == 0
    ensures Step(sizes, r, h, Prior).1 == RefStep(Total(sizes), r, p, Prior).1
    ensures Related(sizes, r, Step(sizes, r, h, Prior).0, RefStep(Total(sizes), r, p, Prior).0)
  {
    OffsetMonotone(sizes, h.idx, |sizes|);
  }

  lemma PriorAcross(sizes: seq<nat>, r: nat, h: Held, p: Position)
    requires Sizes(sizes) && sizes != [] && 1 <= r <= sizes[0] && Equal(sizes)
    requires InRange(sizes, h) && Related(sizes, r, h, p)
    requires p.At? && p.start < Total(sizes) && h.prior == -1 && 1 <= h.idx
    requires (sizes[0] - r) % r == 0
    ensures Step(sizes, r, h, Prior).1 == RefStep(Total(sizes), r, p, Prior).1
    ensures Related(sizes, r, Step(sizes, r, h, Prior).0, RefStep(Total(sizes), r, p, Prior).0)
  {
    OffsetMonotone(sizes, h.idx - 1, |sizes|);
  }

  lemma StepKeepsRelated(sizes: seq<nat>, r: nat, h: Held, p: Position, op: Op)
    requires Sizes(sizes) && 1 <= r && Aligned(sizes, r)
    requires InRange(sizes, h) && Related(sizes, r, h, p) && (p.At? ==> p.start < Total(sizes))
    ensures Step(sizes, r, h, op).1 == RefStep(Total(sizes), r, p, op).1
    ensures Related(sizes, r, Step(sizes, r, h, op).0, RefStep(Total(sizes), r, p, op).0)
  {
    if sizes != [] {
      var s := sizes[0];
      MultipleGap(0, s, r);
      MultipleShift(s, r);
      if p.At? {
        MultipleShift(h.prior + 1, r);
        if h.row + 1 < s {
          MultipleGap(h.row + 1, s, r);
        }
        if 0 < h.prior + 1 {
          MultipleGap(0, h.prior + 1, r);
        }
      }
      match op {
        case Next =>
          if h.row + 1 == s {
            NextAcross(sizes, r, h, p);
          } else {
            NextInChunk(sizes, r, h, p);
          }
        case Prior =>
          if p.At? && h.prior == -1 && 1 <= h.idx {
            PriorAcross(sizes, r, h, p);
          } else if !p.BeforeStart? {
            PriorInChunk(sizes, r, h, p);
          }
        case First => OffsetMonotone(sizes, 0, |sizes|);
      }
    }
  }

  lemma {:induction false} AlignedRun(sizes: seq<nat>, r: nat, ops: seq<Op>)
    requires Sizes(sizes) && 1 <= r && Aligned(sizes, r)
    ensures Related(sizes, r, Run(sizes, r, ops), RefRun(Total(sizes), r, ops))
  {
    if ops != [] {
      var before := ops[..|ops| - 1];
      AlignedRun(sizes, r, before);
      StepKeepsRelated(sizes, r, Run(sizes, r, before), RefRun(Total(sizes), r, before), ops[|ops| - 1]);
    }
  }

  lemma AlignedRefines(sizes: seq<nat>, r: nat)
    requires Sizes(sizes) && 1 <= r && Aligned(sizes, r)
    ensures Refines(sizes, r)
  {
    forall ops, op ensures Seen(sizes, r, ops, op) == RefSeen(Total(sizes), r, ops, op) {
      AlignedRun(sizes, r, ops);
      StepKeepsRelated(sizes, r, Run(sizes, r, ops), RefRun(Total(sizes), r, ops), op);
    }
  }

  // ---------------------------------------------------------------- nothing else does

  function Nexts(t: nat): seq<Op> {
    seq(t, _ => Next)
  }

  /** The flat row after the last delivered one. */
  function End(sizes: seq<nat>, h: Held): int
    requires h.idx <= |sizes|
  {
    Offset(sizes, h.idx) + h.row + 1
  }

  /** After `t` calls of SQL_FETCH_NEXT the flat cursor has read `t` rowsets, and so has the driver. */
  lemma {:induction false} NextsReached(sizes: seq<nat>, r: nat, t: nat)
    requires Sizes(sizes) && 1 <= r && sizes != [] && Refines(sizes, r)
    requires 1 <= t && (t - 1) * r < Total(sizes)
    ensures RefRun(Total(sizes), r, Nexts(t)) == At((t - 1) * r)
    ensures var h := Run(sizes, r, Nexts(t));
      End(sizes, h) == Min(t * r, Total(sizes)) && t * r - r >= Offset(sizes, h.idx)
  {
    var n := Total(sizes);
    var ops := Nexts(t);
    assert ops[..t - 1] == Nexts(t - 1) && ops[t - 1] == Next;
    if 1 < t {
      assert (t - 2) * r < (t - 1) * r;
      NextsReached(sizes, r, t - 1);
    }
    assert Seen(sizes, r, Nexts(t - 1), Next) == RefSeen(n, r, Nexts(t - 1), Next);
  }

  lemma NextsStep(sizes: seq<nat>, r: nat, t: nat)
    requires Sizes(sizes) && 1 <= r
    ensures Run(sizes, r, Nexts(t + 1)) == Step(sizes, r, Run(sizes, r, Nexts(t)), Next).0
    ensures RefRun(Total(sizes), r, Nexts(t + 1)) == RefStep(Total(sizes), r, RefRun(Total(sizes), r, Nexts(t)), Next).0
  {
    assert Nexts(t + 1)[..t] == Nexts(t);
  }

  /** A position after `o` rows, seen from a chunk that starts before `o` and does not reach past it. */
  lemma EndsChunk(sizes: seq<nat>, h: Held, i: nat)
    requires Sizes(sizes) && InRange(sizes, h) && sizes != [] && i <= |sizes|
    requires Offset(sizes, h.idx) < Offset(sizes, i) <= End(sizes, h)
    ensures h.idx == i - 1 && h.row + 1 == sizes[i - 1]
  {
    if i <= h.idx {
      OffsetMonotone(sizes, i, h.idx);
    } else {
      OffsetMonotone(sizes, h.idx + 1, i);
    }
  }

  /** A chunk boundary before the last chunk falls on a rowset boundary, and the
      calls that reach it stand on the last row of the chunk before it. */
  lemma BoundaryReached(sizes: seq<nat>, r: nat, i: nat) returns (t: nat)
    requires Sizes(sizes) && 1 <= r && Refines(sizes, r) && 1 <= i < |sizes|
    ensures 1 <= t && t * r == Offset(sizes, i) < Total(sizes)
    ensures var h := Run(sizes, r, Nexts(t)); h.idx == i - 1 && h.row + 1 == sizes[i - 1]
  {
    var o := Offset(sizes, i);
    OffsetMonotone(sizes, 0, i);
    OffsetMonotone(sizes, i, |sizes|);
    t := Pieces(o, r);
    PiecesBound(o, r);
    NextsReached(sizes, r, t);
    EndsChunk(sizes, Run(sizes, r, Nexts(t)), i);
  }

  /** The call after a boundary leaves the chunk, although the driver looks at the last chunk's size. */
  lemma LeavesInTime(sizes: seq<nat>, r: nat, i: nat, t: nat)
    requires Sizes(sizes) && 1 <= r && Refines(sizes, r) && 1 <= i < |sizes|
    requires 1 <= t && t * r == Offset(sizes, i) < Total(sizes)
    requires var h := Run(sizes, r, Nexts(t)); h.idx == i - 1 && h.row + 1 == sizes[i - 1]
    ensures sizes[|sizes| - 1] <= sizes[i - 1]
  {
    hide Run, RefRun, RefStep, Refines, Offset;
    Difference(t + 1, t, r);
    NextsReached(sizes, r, t);
    NextsReached(sizes, r, t + 1);
    NextsStep(sizes, r, t);
    OffsetNext(sizes, i);
  }

  lemma OffsetNext(sizes: seq<nat>, i: nat)
    requires 1 <= i <= |sizes|
    ensures Offset(sizes, i) == Offset(sizes, i - 1) + sizes[i - 1]
  {
  }

  /** One call before a boundary that is more than one rowset away from the boundary before it. */
  lemma StandsBefore(sizes: seq<nat>, r: nat, i: nat, t: nat)
    requires Sizes(sizes) && 1 <= r && Refines(sizes, r) && 1 <= i < |sizes|
    requires 1 <= t && t * r + r == Offset(sizes, i) < Total(sizes) && Offset(sizes, i - 1) < t * r
    ensures var h := Run(sizes, r, Nexts(t)); h.idx == i - 1 && h.row + 1 == sizes[i - 1] - r
  {
    hide Run, Refines, Offset;
    assert (t - 1) * r == t * r - r;
    NextsReached(sizes, r, t);
    OffsetNext(sizes, i);
    var h := Run(sizes, r, Nexts(t));
    if h.idx < i - 1 {
      OffsetNext(sizes, h.idx + 1);
      OffsetMonotone(sizes, h.idx + 1, i - 1);
    } else if i - 1 < h.idx {
      OffsetMonotone(sizes, i, h.idx);
    }
  }

  /** The call before a boundary does not leave the chunk, although the driver looks at the last chunk's size. */
  lemma StaysLongEnough(sizes: seq<nat>, r: nat, i: nat, before: nat, t: nat)
    requires Sizes(sizes) && 1 <= r && Refines(sizes, r) && 1 <= i < |sizes|
    requires before + 1 < t && before * r == Offset(sizes, i - 1) && t * r == Offset(sizes, i) < Total(sizes)
    requires Run(sizes, r, Nexts(t)).idx == i - 1
    ensures sizes[i - 1] - r < sizes[|sizes| - 1]
  {
    hide Run, RefRun, RefStep, Refines, Offset;
    Difference(t, t - 1, r);
    Difference(t - 1, before, r);
    StandsBefore(sizes, r, i, t - 1);
    NextsStep(sizes, r, t - 1);
  }

  /** Every chunk before the last is the last chunk's size rounded up to whole rowsets. */
  lemma InnerChunkSize(sizes: seq<nat>, r: nat, i: nat)
    requires Sizes(sizes) && 1 <= r && Refines(sizes, r) && 1 <= i < |sizes|
    ensures sizes[i - 1] % r == 0
    ensures sizes[i - 1] - r < sizes[|sizes| - 1] <= sizes[i - 1]
  {
    var t := BoundaryReached(sizes, r, i);
    var before := 0;
    if 1 < i {
      before := BoundaryReached(sizes, r, i - 1);
    }
    Difference(t, before, r);
    LeavesInTime(sizes, r, i, t);
    if before + 1 < t {
      StaysLongEnough(sizes, r, i, before, t);
    }
  }

  /** All rows read, one more call at the end, then `q` calls of SQL_FETCH_PRIOR. */
  function BackFromEnd(t: nat, q: nat): seq<Op> {
    Nexts(t + 1) + seq(q, _ => Prior)
  }

  /** Past the last row, after `q` further calls of SQL_FETCH_PRIOR that all stayed in the last chunk. */
  predicate Backed(sizes: seq<nat>, r: nat, h: Held, p: Position, q: nat)
    requires sizes != []
  {
    var last := |sizes| - 1;
    && h.idx == last && 0 <= h.prior + 1 == sizes[last] - q * r
    && (q == 0 ==> h.row == h.prior)
    && p == if q == 0 then AfterEnd else At(Offset(sizes, last) + (h.prior + 1))
  }

  lemma PastEnd(sizes: seq<nat>, r: nat, t: nat)
    requires Sizes(sizes) && 1 <= r && Refines(sizes, r) && sizes != []
    requires 1 <= t && t * r - r < Total(sizes) <= t * r
    ensures Backed(sizes, r, Run(sizes, r, Nexts(t + 1)), RefRun(Total(sizes), r, Nexts(t + 1)), 0)
  {
    assert (t - 1) * r == t * r - r;
    NextsReached(sizes, r, t);
    NextsStep(sizes, r, t);
    var h := Run(sizes, r, Nexts(t));
    OffsetMonotone(sizes, h.idx, |sizes|);
    EndsChunk(sizes, h, |sizes|);
  }

  lemma BackOne(sizes: seq<nat>, r: nat, h: Held, p: Position, q: nat)
    requires Sizes(sizes) && 1 <= r && sizes != [] && InRange(sizes, h)
    requires p.At? ==> p.start < Total(sizes)
    requires Backed(sizes, r, h, p, q) && (q + 1) * r < sizes[|sizes| - 1]
    ensures Backed(sizes, r, Step(sizes, r, h, Prior).0, RefStep(Total(sizes), r, p, Prior).0, q + 1)
  {
    assert (q + 1) * r == q * r + r;
  }

  lemma {:induction false} BackedUp(sizes: seq<nat>, r: nat, t: nat, q: nat)
    requires Sizes(sizes) && 1 <= r && Refines(sizes, r) && sizes != []
    requires 1 <= t && t * r - r < Total(sizes) <= t * r
    requires q * r < sizes[|sizes| - 1]
    ensures Backed(sizes, r, Run(sizes, r, BackFromEnd(t, q)), RefRun(Total(sizes), r, BackFromEnd(t, q)), q)
  {
    hide Refines, Backed, Step, RefStep, Offset;
    var ops := BackFromEnd(t, q);
    if q == 0 {
      assert ops == Nexts(t + 1);
      PastEnd(sizes, r, t);
    } else {
      assert (q - 1) * r == q * r - r;
      BackedUp(sizes, r, t, q - 1);
      assert ops[..|ops| - 1] == BackFromEnd(t, q - 1) && ops[|ops| - 1] == Prior;
      BackOne(sizes, r, Run(sizes, r, BackFromEnd(t, q - 1)), RefRun(Total(sizes), r, BackFromEnd(t, q - 1)), q - 1);
    }
  }

  /** When a rowset does not fit in front, the driver falls back to a chunk boundary and the flat cursor does not. */
  lemma CrossingDiffers(sizes: seq<nat>, r: nat, h: Held, p: Position, q: nat)
    requires Sizes(sizes) && 1 <= r && sizes != [] && InRange(sizes, h)
    requires p.At? ==> p.start < Total(sizes)
    requires Backed(sizes, r, h, p, q) && q * r < sizes[|sizes| - 1] < q * r + r
    requires 1 < |sizes| ==> r <= sizes[|sizes| - 2]
    ensures Step(sizes, r, h, Prior).1 != RefStep(Total(sizes), r, p, Prior).1
  {
  }

  lemma LastChunkDivides(sizes: seq<nat>, r: nat)
    requires Sizes(sizes) && 1 <= r && Refines(sizes, r) && sizes != []
    ensures sizes[|sizes| - 1] % r == 0
  {
    var n, last := Total(sizes), |sizes| - 1;
    var size := sizes[last];
    var q := size / r;
    if size % r != 0 {
      assert size == q * r + size % r;
      var t := Pieces(n, r);
      PiecesBound(n, r);
      OffsetMonotone(sizes, last, |sizes|);
      BackedUp(sizes, r, t, q);
      if 0 < last {
        InnerChunkSize(sizes, r, last);
        MultipleGap(0, sizes[last - 1], r);
      }
      var ops := BackFromEnd(t, q);
      assert Seen(sizes, r, ops, Prior) == RefSeen(n, r, ops, Prior);
      CrossingDiffers(sizes, r, Run(sizes, r, ops), RefRun(n, r, ops), q);
    }
  }

  lemma RefinesAligned(sizes: seq<nat>, r: nat)
    requires Sizes(sizes) && 1 <= r && Refines(sizes, r)
    ensures Aligned(sizes, r)
  {
    if sizes != [] {
      var last := |sizes| - 1;
      LastChunkDivides(sizes, r);
      forall i | 0 <= i < |sizes| ensures sizes[i] == sizes[last] && sizes[i] % r == 0 {
        if i < last {
          InnerChunkSize(sizes, r, i + 1);
          if sizes[last] < sizes[i] {
            MultipleGap(sizes[last], sizes[i], r);
          }
        }
      }
    }
  }

  /** Main result: no run of NEXT, PRIOR and FIRST distinguishes the driver's cursor from the
      flat cursor of SQLFetchScroll exactly when all held chunks are equal and the rowset size divides them. */
  lemma RefinesExactlyWhenAligned(sizes: seq<nat>, r: nat)
    requires Sizes(sizes) && 1 <= r
    ensures Refines(sizes, r) <==> Aligned(sizes, r)
  {
    if Refines(sizes, r) {
      RefinesAligned(sizes, r);
    }
    if Aligned(sizes, r) {
      AlignedRefines(sizes, r);
    }
  }

  // ---------------------------------------------------------------- reading to the end

  /** The flat rows that repeated SQL_FETCH_NEXT delivers, up to SQL_NO_DATA or a rowset without rows. */
  function Drain(sizes: seq<nat>, r: nat, h: Held): seq<nat>
    requires Sizes(sizes) && InRange(sizes, h) && 1 <= r
    decreases |sizes| - h.idx, if sizes == [] then 0 else sizes[h.idx] - h.row
  {
    var (h1, out) := Step(sizes, r, h, Next);
    StepInRange(sizes, r, h, Next);
    if out == NoData || out.count == 0 then []
    else Rows(out.start, out.start + out.count) + Drain(sizes, r, h1)
  }

  /** Reading on never delivers more rows than there are behind the cursor. */
  lemma {:induction false} DrainsAtMost(sizes: seq<nat>, r: nat, h: Held)
    requires Sizes(sizes) && InRange(sizes, h) && 1 <= r
    ensures h.idx <= |sizes| && |Drain(sizes, r, h)| <= Total(sizes) - End(sizes, h)
    decreases |sizes| - h.idx, if sizes == [] then 0 else sizes[h.idx] - h.row
  {
    var (h1, out) := Step(sizes, r, h, Next);
    StepInRange(sizes, r, h, Next);
    if sizes != [] {
      OffsetNext(sizes, h.idx + 1);
      OffsetMonotone(sizes, h.idx + 1, |sizes|);
    }
    if out != NoData && out.count != 0 {
      DrainsAtMost(sizes, r, h1);
    }
  }

  function Rows(from: nat, to: nat): (rows: seq<nat>)
    requires from <= to
    ensures |rows| == to - from && forall k | 0 <= k < |rows| :: rows[k] == from + k
  {
    seq(to - from, k requires 0 <= k => from + k)
  }

  /** Chunk `i`, of which `done` rows are read, ends where the driver expects it:
      not before the last chunk's size, and its last rowset starts before that size. */
  predicate EndsWhereExpected(sizes: seq<nat>, r: nat, i: nat, done: nat)
    requires 1 <= r && i < |sizes| && done <= sizes[i]
  {
    var expected := sizes[|sizes| - 1];
    i + 1 < |sizes| ==> expected <= sizes[i] && (done < sizes[i] ==> done + LastRowset(sizes[i] - done, r) < expected)
  }

  /** Where the last rowset of `left` rows starts. */
  function LastRowset(left: nat, r: nat): (start: nat)
    requires 1 <= r && 1 <= left
    ensures start < left
  {
    if left <= r then 0 else r + LastRowset(left - r, r)
  }

  ghost predicate Steady(sizes: seq<nat>, r: nat, h: Held)
    requires Sizes(sizes) && InRange(sizes, h) && sizes != [] && 1 <= r
  {
    && EndsWhereExpected(sizes, r, h.idx, h.row + 1)
    && forall i | h.idx < i < |sizes| :: EndsWhereExpected(sizes, r, i, 0)
  }

  /** Equal chunks are steady wherever the cursor stands, whatever the rowset size is. */
  lemma EqualChunksAreSteady(sizes: seq<nat>, r: nat, h: Held)
    requires Sizes(sizes) && InRange(sizes, h) && sizes != [] && 1 <= r
    requires forall i | 0 <= i < |sizes| :: sizes[i] == sizes[0]
    ensures Steady(sizes, r, h)
  {
  }

  /** A rowset in front of the rest is in order exactly when it comes next and the rest continues it. */
  lemma HeadThenRest(from: nat, start: nat, mid: nat, to: nat, rest: seq<nat>)
    requires from <= start < mid <= to
    ensures Rows(start, mid) + rest == Rows(from, to) <==> from == start && rest == Rows(mid, to)
  {
    if Rows(start, mid) + rest == Rows(from, to) {
      assert (Rows(start, mid) + rest)[0] == start;
      assert rest == (Rows(start, mid) + rest)[mid - start..] == Rows(from, to)[mid - start..] == Rows(mid, to);
    } else if from == start {
      assert Rows(start, mid) + Rows(mid, to) == Rows(from, to);
    }
  }

  /** Steadiness of the position after one rowset of the chunk it is in. */
  lemma RowsetKeepsSteady(sizes: seq<nat>, r: nat, i: nat, done: nat)
    requires Sizes(sizes) && 1 <= r && i < |sizes| && done < sizes[i]
    requires i + 1 < |sizes| ==> done < sizes[|sizes| - 1]
    ensures EndsWhereExpected(sizes, r, i, done) <==> EndsWhereExpected(sizes, r, i, Min(done + r, sizes[i]))
  {
  }

  ghost predicate DrainsAll(sizes: seq<nat>, r: nat, h: Held)
    requires Sizes(sizes) && InRange(sizes, h) && sizes != [] && 1 <= r
  {
    && End(sizes, h) <= Total(sizes)
    && Drain(sizes, r, h) == Rows(End(sizes, h), Total(sizes))
  }

  lemma DrainStep(sizes: seq<nat>, r: nat, h: Held)
    requires Sizes(sizes) && InRange(sizes, h) && 1 <= r
    requires Step(sizes, r, h, Next).1.Rowset? && Step(sizes, r, h, Next).1.count != 0
    ensures var (h1, out) := Step(sizes, r, h, Next);
      InRange(sizes, h1) && Drain(sizes, r, h) == Rows(out.start, out.start + out.count) + Drain(sizes, r, h1)
  {
    StepInRange(sizes, r, h, Next);
    hide Step;
  }

  lemma DrainInChunk(sizes: seq<nat>, r: nat, h: Held)
    requires Sizes(sizes) && InRange(sizes, h) && sizes != [] && 1 <= r
    requires h.row + 1 < sizes[h.idx] && h.row + 1 < sizes[|sizes| - 1]
    ensures InRange(sizes, Step(sizes, r, h, Next).0)
    ensures DrainsAll(sizes, r, h) <==> DrainsAll(sizes, r, Step(sizes, r, h, Next).0)
  {
    hide Drain, Offset;
    var (h1, out) := Step(sizes, r, h, Next);
    OffsetNext(sizes, h.idx + 1);
    OffsetMonotone(sizes, h.idx + 1, |sizes|);
    DrainStep(sizes, r, h);
    HeadThenRest(End(sizes, h), out.start, out.start + out.count, Total(sizes), Drain(sizes, r, h1));
  }

  lemma SteadyInChunk(sizes: seq<nat>, r: nat, h: Held)
    requires Sizes(sizes) && InRange(sizes, h) && sizes != [] && 1 <= r
    requires h.row + 1 < sizes[h.idx] && h.row + 1 < sizes[|sizes| - 1]
    ensures InRange(sizes, Step(sizes, r, h, Next).0)
    ensures Steady(sizes, r, h) <==> Steady(sizes, r, Step(sizes, r, h, Next).0)
  {
    RowsetKeepsSteady(sizes, r, h.idx, h.row + 1);
  }

  lemma DrainNextChunk(sizes: seq<nat>, r: nat, h: Held)
    requires Sizes(sizes) && InRange(sizes, h) && sizes != [] && 1 <= r
    requires h.idx + 1 < |sizes| && sizes[|sizes| - 1] <= h.row + 1
    ensures InRange(sizes, Step(sizes, r, h, Next).0)
    ensures var h1 := Step(sizes, r, h, Next).0;
      DrainsAll(sizes, r, h) <==> h.row + 1 == sizes[h.idx] && DrainsAll(sizes, r, h1)
  {
    hide Drain, Offset;
    var (h1, out) := Step(sizes, r, h, Next);
    OffsetNext(sizes, h.idx + 1);
    OffsetNext(sizes, h.idx + 2);
    OffsetMonotone(sizes, h.idx + 2, |sizes|);
    DrainStep(sizes, r, h);
    HeadThenRest(End(sizes, h), out.start, out.start + out.count, Total(sizes), Drain(sizes, r, h1));
  }

  lemma SteadyNextChunk(sizes: seq<nat>, r: nat, h: Held)
    requires Sizes(sizes) && InRange(sizes, h) && sizes != [] && 1 <= r
    requires h.idx + 1 < |sizes| && sizes[|sizes| - 1] <= h.row + 1
    ensures InRange(sizes, Step(sizes, r, h, Next).0)
    ensures var h1 := Step(sizes, r, h, Next).0;
      Steady(sizes, r, h) <==> h.row + 1 == sizes[h.idx] && Steady(sizes, r, h1)
  {
    var h1 := Step(sizes, r, h, Next).0;
    RowsetKeepsSteady(sizes, r, h1.idx, 0);
    assert EndsWhereExpected(sizes, r, h1.idx, h1.row + 1) <==> EndsWhereExpected(sizes, r, h1.idx, 0);
  }

  lemma DrainStops(sizes: seq<nat>, r: nat, h: Held)
    requires Sizes(sizes) && InRange(sizes, h) && sizes != [] && 1 <= r
    requires if h.idx + 1 == |sizes| then h.row + 1 == sizes[h.idx]
             else h.row + 1 == sizes[h.idx] < sizes[|sizes| - 1]
    ensures DrainsAll(sizes, r, h) <==> Steady(sizes, r, h)
  {
    OffsetMonotone(sizes, h.idx, |sizes|);
    if h.idx + 1 < |sizes| {
      OffsetMonotone(sizes, h.idx + 1, |sizes|);
    }
  }

  /** Once the result is held, reading on with SQL_FETCH_NEXT delivers every remaining row once
      and in order exactly when every chunk before the last ends where the driver expects it. */
  lemma {:induction false} DrainsExactlyWhenSteady(sizes: seq<nat>, r: nat, h: Held)
    requires Sizes(sizes) && InRange(sizes, h) && sizes != [] && 1 <= r
    ensures DrainsAll(sizes, r, h) <==> Steady(sizes, r, h)
    decreases |sizes| - h.idx, sizes[h.idx] - h.row
  {
    if h.row + 1 < sizes[|sizes| - 1] && h.row + 1 < sizes[h.idx] {
      DrainInChunk(sizes, r, h);
      SteadyInChunk(sizes, r, h);
      DrainsExactlyWhenSteady(sizes, r, Step(sizes, r, h, Next).0);
    } else if h.idx + 1 < |sizes| && sizes[|sizes| - 1] <= h.row + 1 {
      DrainNextChunk(sizes, r, h);
      SteadyNextChunk(sizes, r, h);
      DrainsExactlyWhenSteady(sizes, r, Step(sizes, r, h, Next).0);
    } else {
      DrainStops(sizes, r, h);
    }
  }
}

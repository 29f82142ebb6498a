/** Executing a lambda over the elements of many lists in batches of bounded size. */
module LambdaExecution {
  import opened LambdaSpec

  // ---------------------------------------------------------------- one step of the rebuilding

  lemma PushTracks(s: Filtering, flags: seq<bool>, entries: seq<ListEntry>, length: nat)
    requires Tracks(s, flags, entries) && |s.lengths| < |entries|
    ensures Tracks(s.(lengths := s.lengths + [length]), flags, entries)
  {
    var lengths := s.lengths + [length];
    forall n | 0 <= n <= |s.lengths| ensures Start(lengths, n) == Start(s.lengths, n) {
      StartPrefix(s.lengths, [length], n);
    }
    forall r | 0 <= r < s.row ensures Finished(lengths, flags, entries, r) {
      assert Finished(s.lengths, flags, entries, r);
    }
  }

  function Skipped(s: Filtering): Filtering {
    s.(row := s.row + 1)
  }

  lemma SkipTracks(s: Filtering, flags: seq<bool>, entries: seq<ListEntry>)
    requires Tracks(s, flags, entries) && s.row < |s.lengths| && s.lengths[s.row] == 0
    ensures Tracks(Skipped(s), flags, entries[s.row := ListEntry(s.offset, 0)])
  {
    var entries1 := entries[s.row := ListEntry(s.offset, 0)];
    forall r | 0 <= r < s.row ensures Finished(s.lengths, flags, entries1, r) {
      assert Finished(s.lengths, flags, entries, r);
    }
  }

  function Taken(s: Filtering, kept: bool): Filtering
    requires s.row < |s.lengths|
  {
    var length := s.length + if kept then 1 else 0;
    if s.lengths[s.row] == s.srcLength + 1
    then s.(row := s.row + 1, srcLength := 0, length := 0, offset := s.offset + length)
    else s.(srcLength := s.srcLength + 1, length := length)
  }

  function TakenEntries(s: Filtering, kept: bool, entries: seq<ListEntry>): seq<ListEntry>
    requires s.row < |s.lengths| && s.row < |entries|
  {
    if s.lengths[s.row] == s.srcLength + 1
    then entries[s.row := ListEntry(s.offset, s.length + if kept then 1 else 0)]
    else entries
  }

  lemma TakeTracks(s: Filtering, flags: seq<bool>, entries: seq<ListEntry>, kept: bool)
    requires Tracks(s, flags, entries) && s.row < |s.lengths| && s.lengths[s.row] != 0
    ensures Tracks(Taken(s, kept), flags + [kept], TakenEntries(s, kept, entries))
  {
    var flags1 := flags + [kept];
    forall n | 0 <= n <= |flags| ensures Count(flags1, n) == Count(flags, n) {
      CountPrefix(flags, [kept], n);
    }
    forall r | 0 <= r < s.row ensures Finished(s.lengths, flags1, TakenEntries(s, kept, entries), r) {
      assert Finished(s.lengths, flags, entries, r);
    }
  }

  /** The verdicts still to come fit into the rows pushed so far, so a row is in progress. */
  lemma RowInRange(s: Filtering, flags: seq<bool>, entries: seq<ListEntry>)
    requires Tracks(s, flags, entries) && |flags| < Start(s.lengths, |s.lengths|)
    ensures s.row < |s.lengths|
  {
  }

  // ---------------------------------------------------------------- the carried state and the result

  class ListFilterInfo {
    var entryLengths: seq<nat>
    var length: nat
    var offset: nat
    var rowIdx: nat
    var srcLength: nat

    ghost function View(): Filtering
      reads this
    {
      Filtering(entryLengths, rowIdx, srcLength, length, offset)
    }

    constructor ()
      ensures View() == Filtering([], 0, 0, 0, 0)
    {
      entryLengths, length, offset, rowIdx, srcLength := [], 0, 0, 0, 0;
    }
  }

  class ResultVector {
    const entries: array<ListEntry>
    var valid: seq<bool>
    var child: seq<Value>

    constructor (rows: nat)
      ensures fresh(entries) && entries.Length == rows
      ensures child == [] && valid == seq(rows, _ => true)
    {
      entries := new ListEntry[rows](_ => ListEntry(0, 0));
      valid, child := seq(rows, _ => true), [];
    }
  }

  predicate IsTrue(verdict: Value) {
    verdict == Boolean(true)
  }

  function Flags(verdicts: seq<Value>): (flags: seq<bool>)
    ensures |flags| == |verdicts| && forall i | 0 <= i < |flags| :: flags[i] == IsTrue(verdicts[i])
  {
    seq(|verdicts|, i requires 0 <= i < |verdicts| => IsTrue(verdicts[i]))
  }

  /** What a batch of elements and verdicts adds to the child vector. */
  function Appended(functor: Functor, elements: seq<Value>, verdicts: seq<Value>): seq<Value>
    requires |elements| == |verdicts|
  {
    if elements == [] then []
    else
      var n := |elements| - 1;
      Appended(functor, elements[..n], verdicts[..n]) + Emitted(functor, elements[n], verdicts[n])
  }

  lemma {:induction false} TransformAppendsVerdicts(elements: seq<Value>, verdicts: seq<Value>)
    requires |elements| == |verdicts|
    ensures Appended(ListTransform, elements, verdicts) == verdicts
  {
    if elements != [] {
      var n := |elements| - 1;
      TransformAppendsVerdicts(elements[..n], verdicts[..n]);
      assert verdicts == verdicts[..n] + [verdicts[n]];
    }
  }

  function Gather(source: seq<Value>, sel: seq<nat>): (values: seq<Value>)
    requires forall i | 0 <= i < |sel| :: sel[i] < |source|
    ensures |values| == |sel| && forall i | 0 <= i < |sel| :: values[i] == source[sel[i]]
  {
    seq(|sel|, i requires 0 <= i < |sel| => source[sel[i]])
  }

  lemma GatherOne(source: seq<Value>, sel: seq<nat>, i: nat)
    requires (forall j | 0 <= j < |sel| :: sel[j] < |source|) && i < |source|
    ensures Gather(source, sel + [i]) == Gather(source, sel) + [source[i]]
  {
  }

  /** Gives their entry to the empty lists next in line. */
  method SetEmptyLists(result: ResultVector, info: ListFilterInfo, ghost flags: seq<bool>)
    requires Tracks(info.View(), flags, result.entries[..])
    modifies info, result.entries
    ensures Tracks(info.View(), flags, result.entries[..]) && Settled(info.View())
    ensures info.entryLengths == old(info.entryLengths)
  {
    while info.rowIdx < |info.entryLengths| && info.entryLengths[info.rowIdx] == 0
      invariant info.entryLengths == old(info.entryLengths)
      invariant Tracks(info.View(), flags, result.entries[..])
      decreases |info.entryLengths| - info.rowIdx
    {
      SkipTracks(info.View(), flags, result.entries[..]);
      result.entries[info.rowIdx] := ListEntry(info.offset, 0);
      info.rowIdx := info.rowIdx + 1;
    }
  }

  /** Counts one verdict, and gives the list its entry when it was the last one. */
  method CountVerdict(result: ResultVector, info: ListFilterInfo, kept: bool, ghost flags: seq<bool>)
    requires Tracks(info.View(), flags, result.entries[..])
    requires info.rowIdx < |info.entryLengths| && info.entryLengths[info.rowIdx] != 0
    modifies info, result.entries
    ensures Tracks(info.View(), flags + [kept], result.entries[..])
    ensures info.entryLengths == old(info.entryLengths)
  {
    TakeTracks(info.View(), flags, result.entries[..], kept);
    ghost var entries := TakenEntries(info.View(), kept, result.entries[..]);
    if kept {
      info.length := info.length + 1;
    }
    info.srcLength := info.srcLength + 1;
    if info.entryLengths[info.rowIdx] == info.srcLength {
      result.entries[info.rowIdx] := ListEntry(info.offset, info.length);
      info.offset := info.offset + info.length;
      info.rowIdx := info.rowIdx + 1;
      info.length := 0;
      info.srcLength := 0;
    }
    assert result.entries[..] == entries;
  }

  method FilterOne(result: ResultVector, info: ListFilterInfo, kept: bool, ghost flags: seq<bool>)
    requires Tracks(info.View(), flags, result.entries[..])
    requires |flags| < Start(info.entryLengths, |info.entryLengths|)
    modifies info, result.entries
    ensures Tracks(info.View(), flags + [kept], result.entries[..])
    ensures info.entryLengths == old(info.entryLengths)
  {
    hide Tracks;
    SetEmptyLists(result, info, flags);
    RowInRange(info.View(), flags, result.entries[..]);
    CountVerdict(result, info, kept, flags);
  }

  method AppendFiltered(result: ResultVector, verdicts: seq<Value>, info: ListFilterInfo, elements: seq<Value>,
                        ghost flags: seq<bool>)
    requires |elements| == |verdicts|
    requires Tracks(info.View(), flags, result.entries[..])
    requires |flags| + |verdicts| <= Start(info.entryLengths, |info.entryLengths|)
    modifies info, result`child, result.entries
    ensures Tracks(info.View(), flags + Flags(verdicts), result.entries[..]) && Settled(info.View())
    ensures info.entryLengths == old(info.entryLengths)
    ensures result.child == old(result.child) + Appended(ListFilter, elements, verdicts)
  {
    var sel: seq<nat> := [];
    ghost var seen := flags;
    hide Tracks, Selects, Start;
    SelectsNone(elements, verdicts);
    for i := 0 to |verdicts|
      invariant info.entryLengths == old(info.entryLengths) && result.child == old(result.child)
      invariant seen == flags + Flags(verdicts)[..i]
      invariant Tracks(info.View(), seen, result.entries[..])
      invariant Selects(elements, verdicts, i, sel)
    {
      FilterOne(result, info, IsTrue(verdicts[i]), seen);
      SelectNext(elements, verdicts, i, sel);
      if IsTrue(verdicts[i]) {
        sel := sel + [i];
      }
      seen := seen + [IsTrue(verdicts[i])];
    }
    assert seen == flags + Flags(verdicts);
    SetEmptyLists(result, info, seen);
    SelectsAll(elements, verdicts, sel);
    result.child := result.child + Gather(elements, sel);
  }

  /** `sel` selects the elements of the first `i` true verdicts. */
  predicate Selects(elements: seq<Value>, verdicts: seq<Value>, i: nat, sel: seq<nat>)
    requires i <= |elements| == |verdicts|
  {
    && (forall j | 0 <= j < |sel| :: sel[j] < |elements|)
    && Gather(elements, sel) == Appended(ListFilter, elements[..i], verdicts[..i])
  }

  lemma SelectsNone(elements: seq<Value>, verdicts: seq<Value>)
    requires |elements| == |verdicts|
    ensures Selects(elements, verdicts, 0, [])
  {
  }

  lemma SelectNext(elements: seq<Value>, verdicts: seq<Value>, i: nat, sel: seq<nat>)
    requires i < |elements| == |verdicts| && Selects(elements, verdicts, i, sel)
    ensures Selects(elements, verdicts, i + 1, if IsTrue(verdicts[i]) then sel + [i] else sel)
  {
    AppendedOne(ListFilter, elements, verdicts, i);
    GatherOne(elements, sel, i);
  }

  lemma SelectsAll(elements: seq<Value>, verdicts: seq<Value>, sel: seq<nat>)
    requires |elements| == |verdicts| && Selects(elements, verdicts, |verdicts|, sel)
    ensures forall j | 0 <= j < |sel| :: sel[j] < |elements|
    ensures Gather(elements, sel) == Appended(ListFilter, elements, verdicts)
  {
    assert elements[..|verdicts|] == elements && verdicts[..|verdicts|] == verdicts;
  }

  lemma AppendedOne(functor: Functor, elements: seq<Value>, verdicts: seq<Value>, i: nat)
    requires i < |elements| == |verdicts|
    ensures Appended(functor, elements[..i + 1], verdicts[..i + 1])
      == Appended(functor, elements[..i], verdicts[..i]) + Emitted(functor, elements[i], verdicts[i])
  {
    assert elements[..i + 1][..i] == elements[..i] && verdicts[..i + 1][..i] == verdicts[..i];
  }

  // ---------------------------------------------------------------- batches

  ghost predicate AllBelong(input: Input, items: seq<Item>)
    requires WellFormed(input)
  {
    forall i | 0 <= i < |items| :: Belongs(input, items[i])
  }

  ghost function ElementsOf(input: Input, items: seq<Item>): (elements: seq<Value>)
    requires WellFormed(input) && AllBelong(input, items)
    ensures |elements| == |items|
  {
    seq(|items|, i requires 0 <= i < |items| => Element(input, items[i].row, items[i].k))
  }

  ghost function VerdictsOf(input: Input, items: seq<Item>): (verdicts: seq<Value>)
    requires WellFormed(input) && AllBelong(input, items)
    ensures |verdicts| == |items|
  {
    seq(|items|, i requires 0 <= i < |items| => Verdict(input, items[i].row, items[i].k))
  }

  lemma BatchPrefix(input: Input, batch: seq<Item>, n: nat)
    requires WellFormed(input) && AllBelong(input, batch) && n <= |batch|
    ensures ElementsOf(input, batch[..n]) == ElementsOf(input, batch)[..n]
    ensures VerdictsOf(input, batch[..n]) == VerdictsOf(input, batch)[..n]
  {
    hide Element, Verdict, WellFormed, Belongs;
  }

  lemma {:induction false} EmitBatch(functor: Functor, input: Input, done: seq<Item>, batch: seq<Item>)
    requires WellFormed(input) && AllBelong(input, done) && AllBelong(input, batch) && AllBelong(input, done + batch)
    ensures Emit(functor, input, done + batch)
      == Emit(functor, input, done) + Appended(functor, ElementsOf(input, batch), VerdictsOf(input, batch))
  {
    hide Element, Verdict, WellFormed, Belongs;
    if batch == [] {
      assert done + batch == done;
    } else {
      var n := |batch| - 1;
      EmitBatch(functor, input, done, batch[..n]);
      assert (done + batch)[..|done + batch| - 1] == done + batch[..n];
      BatchPrefix(input, batch, n);
    }
  }

  /** The buffers that slice a batch out of the child vector, the captured columns and the index vector. */
  class Slices {
    const sel: array<nat>
    const rowSel: array<nat>
    const index: array<Value>

    constructor (vectorSize: nat)
      ensures fresh(sel) && fresh(rowSel) && fresh(index) && sel != rowSel
      ensures sel.Length == rowSel.Length == index.Length == vectorSize
    {
      sel := new nat[vectorSize](_ => 0);
      rowSel := new nat[vectorSize](_ => 0);
      index := new Value[vectorSize](_ => Null);
    }

    /** The first `n` slots select the items of a batch. */
    ghost predicate Select(input: Input, batch: seq<Item>)
      requires WellFormed(input)
      reads sel, rowSel, index
    {
      && |batch| <= sel.Length == rowSel.Length == index.Length && AllBelong(input, batch)
      && forall j | 0 <= j < |batch| ::
           && sel[j] == input.entries[input.sel[batch[j].row]].offset + batch[j].k
           && rowSel[j] == batch[j].row
           && (input.hasIndex ==> index[j] == Scalar(batch[j].k + 1))
    }
  }

  function Slice(values: seq<Value>, sel: seq<nat>): (slice: seq<Value>)
    requires forall j | 0 <= j < |sel| :: sel[j] < |values|
    ensures |slice| == |sel| && forall j | 0 <= j < |sel| :: slice[j] == values[sel[j]]
  {
    seq(|sel|, j requires 0 <= j < |sel| => values[sel[j]])
  }

  /** One captured column of the input chunk: a constant is referenced as it is, the others are sliced. */
  function CapturedColumn(column: Column, rows: seq<nat>): (slice: seq<Value>)
    requires column.Varying? ==> forall j | 0 <= j < |rows| :: rows[j] < |column.values|
    ensures |slice| == |rows| && forall j | 0 <= j < |rows| :: slice[j] == CapturedAt(column, rows[j])
  {
    match column
    case Constant(value) => seq(|rows|, _ => value)
    case Varying(values) => Slice(values, rows)
  }

  /** Row `j` of a chunk of columns. */
  function ChunkRow(chunk: seq<seq<Value>>, j: nat): (row: seq<Value>)
    requires forall c | 0 <= c < |chunk| :: j < |chunk[c]|
    ensures |row| == |chunk| && forall c | 0 <= c < |row| :: row[c] == chunk[c][j]
  {
    seq(|chunk|, c requires 0 <= c < |chunk| => chunk[c][j])
  }

  /** Executes the lambda on the rows of one input chunk. */
  method Execute(lambda: seq<Value> -> Value, chunk: seq<seq<Value>>, n: nat) returns (verdicts: seq<Value>)
    requires forall c | 0 <= c < |chunk| :: |chunk[c]| == n
    ensures |verdicts| == n && forall j | 0 <= j < n :: verdicts[j] == lambda(ChunkRow(chunk, j))
  {
    verdicts := [];
    for j := 0 to n
      invariant |verdicts| == j && forall i | 0 <= i < j :: verdicts[i] == lambda(ChunkRow(chunk, i))
    {
      verdicts := verdicts + [lambda(ChunkRow(chunk, j))];
    }
  }

  /** The input chunk of a batch: the index column if the lambda takes one, the elements, the captured columns. */
  method ExecuteExpression(input: Input, slices: Slices, elemCnt: nat, ghost batch: seq<Item>)
    returns (chunk: seq<seq<Value>>, verdicts: seq<Value>)
    requires WellFormed(input) && |batch| == elemCnt && slices.Select(input, batch)
    ensures var source := if input.hasIndex then 1 else 0; source < |chunk| && chunk[source] == ElementsOf(input, batch)
    ensures verdicts == VerdictsOf(input, batch)
  {
    var slice := Slice(input.child, slices.sel[..elemCnt]);
    assert slice == ElementsOf(input, batch);
    chunk := if input.hasIndex then [slices.index[..elemCnt], slice] else [slice];
    var fixed := |chunk|;
    for c := 0 to |input.captured|
      invariant |chunk| == fixed + c && forall i | 0 <= i < |chunk| :: |chunk[i]| == elemCnt
      invariant chunk[if input.hasIndex then 1 else 0] == slice
      invariant input.hasIndex ==> chunk[0] == slices.index[..elemCnt]
      invariant forall i, j | 0 <= i < c && 0 <= j < elemCnt ::
        chunk[fixed + i][j] == CapturedAt(input.captured[i], batch[j].row)
    {
      chunk := chunk + [CapturedColumn(input.captured[c], slices.rowSel[..elemCnt])];
    }
    verdicts := Execute(input.lambda, chunk, elemCnt);
    hide Slice, CapturedColumn, ElementsOf;
    forall j | 0 <= j < elemCnt ensures verdicts[j] == Verdict(input, batch[j].row, batch[j].k) {
      var captured := seq(|input.captured|,
                          c requires 0 <= c < |input.captured| => CapturedAt(input.captured[c], batch[j].row));
      var index := if input.hasIndex then [Scalar(batch[j].k + 1)] else [];
      assert ChunkRow(chunk, j) == index + [Element(input, batch[j].row, batch[j].k)] + captured;
    }
  }
}

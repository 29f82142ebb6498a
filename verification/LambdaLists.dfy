/** list_transform and list_filter over a whole column of lists. */
module LambdaLists {
  import opened LambdaSpec
  import opened LambdaExecution

  ghost function Lengths(input: Input, rows: nat): (lengths: seq<nat>)
    requires WellFormed(input) && rows <= |input.sel|
    ensures |lengths| == rows && forall r | 0 <= r < rows :: lengths[r] == Length(input, r)
  {
    seq(rows, r requires 0 <= r < rows => Length(input, r))
  }

  ghost predicate InList(input: Input, row: nat, k: nat)
    requires WellFormed(input)
  {
    row <= |input.sel| && if row < |input.sel| then k <= Length(input, row) else k == 0
  }

  lemma {:induction false} ItemCount(input: Input, row: nat, k: nat, rows: nat)
    requires WellFormed(input) && InList(input, row, k) && row <= rows <= |input.sel| && (k != 0 ==> row < rows)
    ensures |Items(input, row, k)| == Start(Lengths(input, rows), row) + k <= Start(Lengths(input, rows), rows)
    decreases row, k
  {
    if k != 0 {
      ItemCount(input, row, k - 1, rows);
      StartMonotone(Lengths(input, rows), row + 1, rows);
    } else if row != 0 {
      ItemCount(input, row - 1, Length(input, row - 1), rows);
    }
    StartMonotone(Lengths(input, rows), row, rows);
  }

  /** The items of the first rows are the first items of all. */
  lemma {:induction false} ItemsPrefix(input: Input, r: nat, row: nat, k: nat)
    requires WellFormed(input) && InList(input, row, k) && r <= row
    ensures Items(input, r, 0) <= Items(input, row, k)
    decreases row, k
  {
    if k != 0 {
      ItemsPrefix(input, r, row, k - 1);
    } else if r < row {
      ItemsPrefix(input, r, row - 1, Length(input, row - 1));
    }
  }

  ghost function FlagsOf(input: Input, items: seq<Item>): (flags: seq<bool>)
    requires WellFormed(input) && AllBelong(input, items)
    ensures |flags| == |items|
  {
    Flags(VerdictsOf(input, items))
  }

  /** As many elements are emitted as verdicts are true. */
  lemma {:induction false} CountIsEmitted(input: Input, items: seq<Item>, n: nat)
    requires WellFormed(input) && AllBelong(input, items) && n <= |items|
    ensures AllBelong(input, items[..n])
    ensures Count(FlagsOf(input, items), n) == |Emit(ListFilter, input, items[..n])|
  {
    if n != 0 {
      CountIsEmitted(input, items, n - 1);
      assert items[..n][..n - 1] == items[..n - 1];
      assert Belongs(input, items[n - 1]);
    }
  }

  lemma CountIsResults(input: Input, r: nat, rows: nat)
    requires WellFormed(input) && r <= rows <= |input.sel|
    ensures AllBelong(input, Items(input, rows, 0))
    ensures Start(Lengths(input, rows), r) <= |Items(input, rows, 0)|
    ensures Count(FlagsOf(input, Items(input, rows, 0)), Start(Lengths(input, rows), r))
      == |Results(ListFilter, input, r)|
  {
    var items, n := Items(input, rows, 0), Start(Lengths(input, rows), r);
    ItemCount(input, r, 0, rows);
    ItemsPrefix(input, r, rows, 0);
    CountIsEmitted(input, items, n);
    assert items[..n] == Items(input, r, 0);
    EmitIsResults(ListFilter, input, r, 0);
  }

  lemma {:induction false} TransformKeepsLengths(input: Input, row: nat, n: nat)
    requires WellFormed(input) && row < |input.sel| && n <= Length(input, row)
    ensures |ListResult(ListTransform, input, row, n)| == n
  {
    if n != 0 {
      TransformKeepsLengths(input, row, n - 1);
    }
  }

  /** The state between two steps: `pushed` rows are entered, and the verdicts on `done` are worked in. */
  ghost predicate Executing(functor: Functor, input: Input, pushed: nat, done: seq<Item>,
                            s: Filtering, entries: seq<ListEntry>, valid: seq<bool>, child: seq<Value>)
    requires WellFormed(input)
  {
    && pushed <= |input.sel| == |entries| == |valid|
    && AllBelong(input, done)
    && child == Emit(functor, input, done)
    && (forall r | 0 <= r < |valid| :: valid[r] == (r < pushed ==> IsValid(input, r)))
    && match functor
       case ListFilter => s.lengths == Lengths(input, pushed) && Tracks(s, FlagsOf(input, done), entries)
       case ListTransform =>
         forall r | 0 <= r < pushed && IsValid(input, r) :: entries[r] == ResultEntry(ListTransform, input, r)
  }

  /** Where the result of a row lies in the child vector. */
  ghost function ResultEntry(functor: Functor, input: Input, row: nat): ListEntry
    requires WellFormed(input) && row < |input.sel|
  {
    ListEntry(|Results(functor, input, row)|, |RowResult(functor, input, row)|)
  }

  lemma FilterFinished(input: Input, s: Filtering, entries: seq<ListEntry>, r: nat)
    requires WellFormed(input) && |entries| == |input.sel| && r < |input.sel|
    requires AllBelong(input, Items(input, |input.sel|, 0))
    requires s.lengths == Lengths(input, |input.sel|) && Settled(s)
    requires Tracks(s, FlagsOf(input, Items(input, |input.sel|, 0)), entries)
    ensures s.row == |input.sel| && entries[r] == ResultEntry(ListFilter, input, r)
  {
    var n := |input.sel|;
    hide Start, Count, FlagsOf, Items, Results, RowResult, Lengths, AllBelong;
    ItemCount(input, n, 0, n);
    AllFinished(s, FlagsOf(input, Items(input, n, 0)), entries);
    assert Finished(s.lengths, FlagsOf(input, Items(input, n, 0)), entries, r);
    CountIsResults(input, r, n);
    CountIsResults(input, r + 1, n);
    ResultsStep(ListFilter, input, r);
  }

  /** When the verdicts are as many as the elements, no row is left. */
  lemma AllFinished(s: Filtering, flags: seq<bool>, entries: seq<ListEntry>)
    requires Tracks(s, flags, entries) && Settled(s) && |flags| == Start(s.lengths, |s.lengths|)
    ensures s.row == |s.lengths|
  {
    if s.row < |s.lengths| {
      StartMonotone(s.lengths, s.row + 1, |s.lengths|);
    }
  }

  lemma ResultsStep(functor: Functor, input: Input, r: nat)
    requires WellFormed(input) && r < |input.sel|
    ensures Results(functor, input, r + 1) == Results(functor, input, r) + RowResult(functor, input, r)
  {
  }

  /** A lambda that returns its index numbers the elements from one. */
  lemma IndexCountsFromOne(input: Input, row: nat)
    requires WellFormed(input) && row < |input.sel| && input.hasIndex
    requires forall arguments: seq<Value> :: arguments != [] ==> input.lambda(arguments) == arguments[0]
    ensures RowResult(ListTransform, input, row)
      == seq(Length(input, row), k requires 0 <= k < Length(input, row) => Scalar(k + 1))
  {
    TransformGivesVerdicts(input, row, Length(input, row));
    forall k | 0 <= k < Length(input, row) ensures Verdict(input, row, k) == Scalar(k + 1) {
    }
  }

  /** A lambda that returns its element leaves the list as it is: the slice of the child vector that the row selects. */
  lemma ElementIsIdentity(input: Input, row: nat)
    requires WellFormed(input) && row < |input.sel| && !input.hasIndex && input.valid[input.sel[row]]
    requires forall arguments: seq<Value> :: arguments != [] ==> input.lambda(arguments) == arguments[0]
    ensures var entry := input.entries[input.sel[row]];
      RowResult(ListTransform, input, row) == input.child[entry.offset..entry.offset + entry.length]
  {
    TransformGivesVerdicts(input, row, Length(input, row));
    forall k | 0 <= k < Length(input, row) ensures Verdict(input, row, k) == Element(input, row, k) {
    }
  }

  /** A lambda that returns a captured column sees the value of the list's own row for every element. */
  lemma CapturedIsOfOwnRow(input: Input, row: nat, c: nat)
    requires WellFormed(input) && row < |input.sel| && c < |input.captured|
    requires var at := c + if input.hasIndex then 2 else 1;
      forall arguments: seq<Value> :: at < |arguments| ==> input.lambda(arguments) == arguments[at]
    ensures var value := if input.captured[c].Constant? then input.captured[c].value else input.captured[c].values[row];
      RowResult(ListTransform, input, row) == seq(Length(input, row), _ => value)
  {
    TransformGivesVerdicts(input, row, Length(input, row));
    forall k | 0 <= k < Length(input, row)
      ensures Verdict(input, row, k) == CapturedAt(input.captured[c], row)
    {
    }
  }

  lemma NothingExecuted(functor: Functor, input: Input, entries: seq<ListEntry>, valid: seq<bool>)
    requires WellFormed(input) && |entries| == |valid| == |input.sel| && forall r | 0 <= r < |valid| :: valid[r]
    ensures Executing(functor, input, 0, [], Filtering([], 0, 0, 0, 0), entries, valid, [])
  {
    assert Lengths(input, 0) == [];
  }

  lemma EverythingExecuted(functor: Functor, input: Input, s: Filtering, entries: seq<ListEntry>, valid: seq<bool>,
                           child: seq<Value>)
    requires WellFormed(input)
    requires Executing(functor, input, |input.sel|, Items(input, |input.sel|, 0), s, entries, valid, child)
    requires functor == ListFilter ==> Settled(s)
    ensures child == Results(functor, input, |input.sel|)
    ensures |entries| == |valid| == |input.sel| && forall r | 0 <= r < |input.sel| :: valid[r] == IsValid(input, r)
    ensures forall r | 0 <= r < |input.sel| && (functor == ListFilter || IsValid(input, r)) ::
      entries[r] == ResultEntry(functor, input, r)
    ensures functor == ListFilter ==> s.row == |input.sel|
  {
    hide Tracks;
    EmitIsResults(functor, input, |input.sel|, 0);
    if functor == ListFilter {
      forall r | 0 <= r < |input.sel| ensures s.row == |input.sel| && entries[r] == ResultEntry(functor, input, r) {
        FilterFinished(input, s, entries, r);
      }
      if |input.sel| == 0 {
        FilterEmpty(s, FlagsOf(input, Items(input, 0, 0)), entries);
      }
    }
  }

  lemma FilterEmpty(s: Filtering, flags: seq<bool>, entries: seq<ListEntry>)
    requires s.lengths == [] && Tracks(s, flags, entries)
    ensures s.row == 0
  {
  }

  lemma FlagsJoin(input: Input, done: seq<Item>, batch: seq<Item>)
    requires WellFormed(input) && AllBelong(input, done) && AllBelong(input, batch)
    ensures AllBelong(input, done + batch)
    ensures FlagsOf(input, done + batch) == FlagsOf(input, done) + FlagsOf(input, batch)
  {
  }

  lemma BatchExecuted(functor: Functor, input: Input, pushed: nat, done: seq<Item>, batch: seq<Item>,
                      s: Filtering, s1: Filtering, entries: seq<ListEntry>, entries1: seq<ListEntry>,
                      valid: seq<bool>, child: seq<Value>)
    requires WellFormed(input) && Executing(functor, input, pushed, done, s, entries, valid, child)
    requires AllBelong(input, batch)
    requires functor == ListTransform ==> s1 == s && entries1 == entries
    requires functor == ListFilter ==>
      && s1.lengths == s.lengths && |entries1| == |entries|
      && Tracks(s1, FlagsOf(input, done) + FlagsOf(input, batch), entries1)
    ensures AllBelong(input, done + batch)
    ensures Executing(functor, input, pushed, done + batch, s1, entries1, valid,
                      child + Appended(functor, ElementsOf(input, batch), VerdictsOf(input, batch)))
  {
    hide Tracks, Emit, Appended, FlagsOf, VerdictsOf, ElementsOf;
    EmitBatch(functor, input, done, batch);
    FlagsJoin(input, done, batch);
  }

  lemma NullEntered(functor: Functor, input: Input, row: nat, done: seq<Item>, s: Filtering,
                    entries: seq<ListEntry>, valid: seq<bool>, child: seq<Value>)
    requires WellFormed(input) && row < |input.sel| && !IsValid(input, row)
    requires Executing(functor, input, row, done, s, entries, valid, child)
    ensures Executing(functor, input, row + 1, done,
                      if functor == ListFilter then s.(lengths := s.lengths + [0]) else s,
                      entries, valid[row := false], child)
    ensures |entries| == |valid| == |input.sel|
  {
    hide Emit, Results, RowResult, ResultEntry;
    assert Lengths(input, row + 1) == Lengths(input, row) + [0];
    if functor == ListFilter {
      PushTracks(s, FlagsOf(input, done), entries, 0);
    }
    hide Tracks;
  }

  lemma FilterEntered(input: Input, row: nat, done: seq<Item>, s: Filtering,
                      entries: seq<ListEntry>, valid: seq<bool>, child: seq<Value>)
    requires WellFormed(input) && row < |input.sel| && IsValid(input, row)
    requires Executing(ListFilter, input, row, done, s, entries, valid, child)
    ensures Executing(ListFilter, input, row + 1, done, s.(lengths := s.lengths + [Length(input, row)]), entries, valid,
      child)
  {
    assert Lengths(input, row + 1) == Lengths(input, row) + [Length(input, row)];
    PushTracks(s, FlagsOf(input, done), entries, Length(input, row));
    hide Tracks, Emit;
  }

  lemma TransformEntered(input: Input, row: nat, done: seq<Item>, s: Filtering,
                         entries: seq<ListEntry>, valid: seq<bool>, child: seq<Value>)
    requires WellFormed(input) && row < |input.sel| && IsValid(input, row)
    requires Executing(ListTransform, input, row, done, s, entries, valid, child)
    ensures |entries| == |input.sel|
    ensures |Results(ListTransform, input, row + 1)| == |Results(ListTransform, input, row)| + Length(input, row)
    ensures Executing(ListTransform, input, row + 1, done, s,
                      entries[row := ListEntry(|Results(ListTransform, input, row)|, Length(input, row))], valid, child)
  {
    hide Emit;
    TransformKeepsLengths(input, row, Length(input, row));
  }

  ghost predicate Holds(functor: Functor, input: Input, pushed: nat, done: seq<Item>, result: ResultVector,
                        info: ListFilterInfo)
    requires WellFormed(input)
    reads result, result.entries, info
  {
    Executing(functor, input, pushed, done, info.View(), result.entries[..], result.valid, result.child)
  }

  lemma HoldsAtStart(functor: Functor, input: Input, result: ResultVector, info: ListFilterInfo)
    requires WellFormed(input) && result.entries.Length == |result.valid| == |input.sel| && result.child == []
    requires (forall r | 0 <= r < |result.valid| :: result.valid[r]) && info.View() == Filtering([], 0, 0, 0, 0)
    ensures Holds(functor, input, 0, [], result, info)
  {
    NothingExecuted(functor, input, result.entries[..], result.valid);
  }

  lemma HoldsAtEnd(functor: Functor, input: Input, result: ResultVector, info: ListFilterInfo)
    requires WellFormed(input) && Holds(functor, input, |input.sel|, Items(input, |input.sel|, 0), result, info)
    requires functor == ListFilter ==> Settled(info.View())
    ensures result.child == Results(functor, input, |input.sel|)
    ensures result.entries.Length == |result.valid| == |input.sel|
    ensures forall r | 0 <= r < |input.sel| :: result.valid[r] == IsValid(input, r)
    ensures forall r | 0 <= r < |input.sel| && (functor == ListFilter || IsValid(input, r)) ::
      result.entries[r] == ResultEntry(functor, input, r)
    ensures functor == ListFilter ==> info.rowIdx == |input.sel|
  {
    EverythingExecuted(functor, input, info.View(), result.entries[..], result.valid, result.child);
    forall r | 0 <= r < |input.sel| && (functor == ListFilter || IsValid(input, r))
      ensures result.entries[r] == ResultEntry(functor, input, r)
    {
      assert result.entries[..][r] == result.entries[r];
    }
  }

  /** Enters one row: its length for the filter, its entry for the transform, nothing but NULL for a NULL row. */
  method EnterRow(functor: Functor, input: Input, row: nat, offset: nat, result: ResultVector, info: ListFilterInfo,
                  ghost done: seq<Item>)
    returns (newOffset: nat)
    requires WellFormed(input) && row < |input.sel|
    requires Holds(functor, input, row, done, result, info)
    requires functor == ListTransform ==> offset == |Results(ListTransform, input, row)|
    modifies result`valid, result.entries, info`entryLengths
    ensures Holds(functor, input, row + 1, done, result, info)
    ensures functor == ListTransform ==> newOffset == |Results(ListTransform, input, row + 1)|
  {
    hide Executing, Tracks;
    var listIdx := input.sel[row];
    var entry := input.entries[listIdx];
    newOffset := offset;
    if !input.valid[listIdx] {
      NullEntered(functor, input, row, done, info.View(), result.entries[..], result.valid, result.child);
      result.valid := result.valid[row := false];
      if functor == ListFilter {
        info.entryLengths := info.entryLengths + [0];
      }
      return;
    }
    if functor == ListFilter {
      FilterEntered(input, row, done, info.View(), result.entries[..], result.valid, result.child);
      info.entryLengths := info.entryLengths + [entry.length];
    } else {
      TransformEntered(input, row, done, info.View(), result.entries[..], result.valid, result.child);
      result.entries[row] := ListEntry(offset, entry.length);
      newOffset := offset + entry.length;
    }
  }

  /** Executes the lambda on the buffered batch and appends what it yields. */
  method FlushBatch(functor: Functor, input: Input, slices: Slices, elemCnt: nat, result: ResultVector,
                    info: ListFilterInfo,
                    ghost pushed: nat, ghost done: seq<Item>, ghost batch: seq<Item>)
    requires WellFormed(input) && Holds(functor, input, pushed, done, result, info)
    requires |batch| == elemCnt && slices.Select(input, batch)
    requires pushed <= |input.sel| && |done| + |batch| <= Start(Lengths(input, pushed), pushed)
    modifies result`child, result.entries, info
    ensures Holds(functor, input, pushed, done + batch, result, info)
    ensures functor == ListFilter ==> Settled(info.View())
  {
    hide Tracks, Emit, Appended;
    ghost var s, entries, child := info.View(), result.entries[..], result.child;
    var chunk, verdicts := ExecuteExpression(input, slices, elemCnt, batch);
    match functor {
      case ListTransform =>
        TransformAppendsVerdicts(ElementsOf(input, batch), VerdictsOf(input, batch));
        result.child := result.child + verdicts;
      case ListFilter =>
        AppendFiltered(result, verdicts, info, chunk[if input.hasIndex then 1 else 0], FlagsOf(input, done));
    }
    BatchExecuted(functor, input, pushed, done, batch, s, info.View(), entries, result.entries[..], result.valid,
      child);
  }

  /** Adjusts the selection and index vectors for one more element of the batch. */
  method SelectElement(input: Input, slices: Slices, elemCnt: nat, row: nat, childIdx: nat, ghost batch: seq<Item>)
    requires WellFormed(input) && Belongs(input, Item(row, childIdx))
    requires |batch| == elemCnt < slices.sel.Length && slices.Select(input, batch) && slices.sel != slices.rowSel
    modifies slices.sel, slices.rowSel, slices.index
    ensures slices.Select(input, batch + [Item(row, childIdx)])
  {
    slices.sel[elemCnt] := input.entries[input.sel[row]].offset + childIdx;
    slices.rowSel[elemCnt] := row;
    if input.hasIndex {
      slices.index[elemCnt] := Scalar(childIdx + 1);
    }
  }

  /** Buffers the elements of one list, executing the batch whenever the buffers are full. */
  method ExecuteList(functor: Functor, input: Input, row: nat, slices: Slices, elemCnt: nat, result: ResultVector,
                     info: ListFilterInfo,
                     ghost done: seq<Item>, ghost batch: seq<Item>)
    returns (newCnt: nat, ghost newDone: seq<Item>, ghost newBatch: seq<Item>)
    requires WellFormed(input) && row < |input.sel| && IsValid(input, row)
    requires slices.sel != slices.rowSel && 1 <= slices.sel.Length
    requires |batch| == elemCnt <= slices.sel.Length && slices.Select(input, batch)
    requires done + batch == Items(input, row, 0)
    requires Holds(functor, input, row + 1, done, result, info)
    modifies slices.sel, slices.rowSel, slices.index, result`child, result.entries, info
    ensures |newBatch| == newCnt <= slices.sel.Length && slices.Select(input, newBatch)
    ensures newDone + newBatch == Items(input, row + 1, 0)
    ensures Holds(functor, input, row + 1, newDone, result, info)
  {
    hide Holds, Settled;
    var entry := input.entries[input.sel[row]];
    newCnt, newDone, newBatch := elemCnt, done, batch;
    for childIdx := 0 to entry.length
      invariant |newBatch| == newCnt <= slices.sel.Length && slices.Select(input, newBatch)
      invariant newDone + newBatch == Items(input, row, childIdx)
      invariant Holds(functor, input, row + 1, newDone, result, info)
    {
      if newCnt == slices.sel.Length {
        ItemCount(input, row, childIdx, row + 1);
        FlushBatch(functor, input, slices, newCnt, result, info, row + 1, newDone, newBatch);
        newCnt := 0;
        newDone, newBatch := newDone + newBatch, [];
      }
      SelectElement(input, slices, newCnt, row, childIdx, newBatch);
      newCnt := newCnt + 1;
      newBatch := newBatch + [Item(row, childIdx)];
    }
  }

  /** Main result: for every batch size, every list gets exactly its own result, the entries are
      contiguous, and the child vector holds the results and nothing else. */
  method ExecuteLambda(functor: Functor, input: Input, vectorSize: nat)
    returns (result: ResultVector, info: ListFilterInfo)
    requires WellFormed(input) && 1 <= vectorSize
    ensures result.child == Results(functor, input, |input.sel|)
    ensures result.entries.Length == |result.valid| == |input.sel|
    ensures forall r | 0 <= r < |input.sel| :: result.valid[r] == IsValid(input, r)
    ensures forall r | 0 <= r < |input.sel| && (functor == ListFilter || IsValid(input, r)) ::
      result.entries[r] == ResultEntry(functor, input, r)
    ensures functor == ListFilter ==> info.rowIdx == |input.sel|
  {
    hide Holds, Settled, ResultEntry;
    result := new ResultVector(|input.sel|);
    info := new ListFilterInfo();
    var slices := new Slices(vectorSize);
    var elemCnt, offset := 0, 0;
    ghost var done: seq<Item>, batch: seq<Item> := [], [];
    HoldsAtStart(functor, input, result, info);
    for row := 0 to |input.sel|
      invariant fresh(result) && fresh(result.entries) && fresh(info) && fresh(slices.sel) && fresh(slices.rowSel)
      invariant fresh(slices.index)
      invariant slices.sel != slices.rowSel && slices.sel.Length == vectorSize
      invariant |batch| == elemCnt <= vectorSize && slices.Select(input, batch)
      invariant done + batch == Items(input, row, 0)
      invariant Holds(functor, input, row, done, result, info)
      invariant functor == ListTransform ==> offset == |Results(ListTransform, input, row)|
    {
      offset := EnterRow(functor, input, row, offset, result, info, done);
      if !input.valid[input.sel[row]] {
        continue;
      }
      elemCnt, done, batch := ExecuteList(functor, input, row, slices, elemCnt, result, info, done, batch);
    }
    ItemCount(input, |input.sel|, 0, |input.sel|);
    FlushBatch(functor, input, slices, elemCnt, result, info, |input.sel|, done, batch);
    HoldsAtEnd(functor, input, result, info);
  }
}

/** What list_transform and list_filter mean, list by list, and the bookkeeping that
    rebuilds the lists from a flat stream of lambda results. */
module LambdaSpec {
  import opened Common

  /** A value of the engine; a lambda that decides returns true, false or NULL. */
  datatype Value = Null | Boolean(b: bool) | Scalar(n: int)

  datatype ListEntry = ListEntry(offset: nat, length: nat)

  datatype Column = Constant(value: Value) | Varying(values: seq<Value>)

  datatype Functor = ListTransform | ListFilter

  /** The list column in unified form (a selection into entries, with validity, over one child vector), the
      captured columns, and the lambda, which is executed on one row of its input chunk at a time. */
  datatype Input = Input(
    sel: seq<nat>, entries: seq<ListEntry>, valid: seq<bool>, child: seq<Value>,
    captured: seq<Column>, hasIndex: bool, lambda: seq<Value> -> Value)

  ghost predicate WellFormed(input: Input) {
    && |input.entries| == |input.valid|
    && (forall row | 0 <= row < |input.sel| :: input.sel[row] < |input.entries|)
    && (forall i | 0 <= i < |input.entries| && input.valid[i] ::
          input.entries[i].offset + input.entries[i].length <= |input.child|)
    && (forall c | 0 <= c < |input.captured| && input.captured[c].Varying? :: |input.captured[c].values| == |input.sel|)
  }

  ghost predicate IsValid(input: Input, row: nat)
    requires WellFormed(input) && row < |input.sel|
  {
    input.valid[input.sel[row]]
  }

  /** The number of elements of the list in a row, none if it is NULL. */
  ghost function Length(input: Input, row: nat): nat
    requires WellFormed(input) && row < |input.sel|
  {
    if IsValid(input, row) then input.entries[input.sel[row]].length else 0
  }

  ghost function Element(input: Input, row: nat, k: nat): Value
    requires WellFormed(input) && row < |input.sel| && k < Length(input, row)
  {
    input.child[input.entries[input.sel[row]].offset + k]
  }

  function CapturedAt(column: Column, row: nat): Value
    requires column.Varying? ==> row < |column.values|
  {
    match column
    case Constant(value) => value
    case Varying(values) => values[row]
  }

  /** What the lambda sees for element `k` of a row: its 1-based index if it asks for it, the element,
      and the row's captured columns. */
  ghost function Verdict(input: Input, row: nat, k: nat): Value
    requires WellFormed(input) && row < |input.sel| && k < Length(input, row)
  {
    input.lambda(
      (if input.hasIndex then [Scalar(k + 1)] else [])
      + [Element(input, row, k)]
      + seq(|input.captured|, c requires 0 <= c < |input.captured| => CapturedAt(input.captured[c], row)))
  }

  function Emitted(functor: Functor, element: Value, verdict: Value): seq<Value> {
    match functor
    case ListTransform => [verdict]
    case ListFilter => if verdict == Boolean(true) then [element] else []
  }

  ghost function EmitOne(functor: Functor, input: Input, row: nat, k: nat): seq<Value>
    requires WellFormed(input) && row < |input.sel| && k < Length(input, row)
  {
    Emitted(functor, Element(input, row, k), Verdict(input, row, k))
  }

  /** The first `n` elements of one list mapped, or filtered. */
  ghost function ListResult(functor: Functor, input: Input, row: nat, n: nat): seq<Value>
    requires WellFormed(input) && row < |input.sel| && n <= Length(input, row)
  {
    if n == 0 then []
    else ListResult(functor, input, row, n - 1) + EmitOne(functor, input, row, n - 1)
  }

  ghost function RowResult(functor: Functor, input: Input, row: nat): seq<Value>
    requires WellFormed(input) && row < |input.sel|
  {
    ListResult(functor, input, row, Length(input, row))
  }

  /** A filter keeps exactly the elements whose verdict is true, neither those that are false nor NULL, in order. */
  lemma {:induction false} FilterKeepsExactlyTrue(input: Input, row: nat, n: nat) returns (kept: seq<nat>)
    requires WellFormed(input) && row < |input.sel| && n <= Length(input, row)
    ensures forall k | 0 <= k < n :: k in kept <==> Verdict(input, row, k) == Boolean(true)
    ensures (forall i | 0 <= i < |kept| :: kept[i] < n) && forall i, j | 0 <= i < j < |kept| :: kept[i] < kept[j]
    ensures ListResult(ListFilter, input, row, n)
      == seq(|kept|, i requires 0 <= i < |kept| && kept[i] < n => Element(input, row, kept[i]))
  {
    hide WellFormed, Length, Verdict, Element;
    if n == 0 {
      kept := [];
    } else {
      kept := FilterKeepsExactlyTrue(input, row, n - 1);
      if Verdict(input, row, n - 1) == Boolean(true) {
        kept := kept + [n - 1];
      }
    }
  }

  /** A transform puts the verdict of every element in its place. */
  lemma {:induction false} TransformGivesVerdicts(input: Input, row: nat, n: nat)
    requires WellFormed(input) && row < |input.sel| && n <= Length(input, row)
    ensures ListResult(ListTransform, input, row, n)
      == seq(n, k requires 0 <= k < n => Verdict(input, row, k))
  {
    hide WellFormed, Length, Verdict, Element;
    if n != 0 {
      TransformGivesVerdicts(input, row, n - 1);
    }
  }

  /** The results of the first `rows` lists, one after the other. */
  ghost function Results(functor: Functor, input: Input, rows: nat): seq<Value>
    requires WellFormed(input) && rows <= |input.sel|
  {
    if rows == 0 then [] else Results(functor, input, rows - 1) + RowResult(functor, input, rows - 1)
  }

  lemma SliceOfFront(front: seq<Value>, more: seq<Value>, from: nat, n: nat)
    requires from + n <= |front|
    ensures (front + more)[from..from + n] == front[from..from + n]
  {
  }

  /** The entries cut every row's own result out of the child vector. */
  lemma {:induction false} EntryCutsOutRow(functor: Functor, input: Input, row: nat, rows: nat)
    requires WellFormed(input) && row < rows <= |input.sel|
    ensures
      var from, result := |Results(functor, input, row)|, RowResult(functor, input, row);
      from + |result| <= |Results(functor, input, rows)|
        && Results(functor, input, rows)[from..from + |result|] == result
  {
    hide WellFormed, RowResult;
    if row + 1 < rows {
      EntryCutsOutRow(functor, input, row, rows - 1);
      SliceOfFront(Results(functor, input, rows - 1), RowResult(functor, input, rows - 1),
                   |Results(functor, input, row)|, |RowResult(functor, input, row)|);
    } else {
      assert Results(functor, input, rows) == Results(functor, input, row) + RowResult(functor, input, row);
    }
  }

  // ---------------------------------------------------------------- the flat stream

  datatype Item = Item(row: nat, k: nat)

  ghost predicate Belongs(input: Input, item: Item)
    requires WellFormed(input)
  {
    item.row < |input.sel| && item.k < Length(input, item.row)
  }

  /** The elements of the first `row` lists and of the first `k` elements of list `row`, in order. */
  ghost function Items(input: Input, row: nat, k: nat): (items: seq<Item>)
    requires WellFormed(input) && row <= |input.sel| && (if row < |input.sel| then k <= Length(input, row) else k == 0)
    ensures forall i | 0 <= i < |items| :: Belongs(input, items[i])
    decreases row, k
  {
    if k != 0 then Items(input, row, k - 1) + [Item(row, k - 1)]
    else if row != 0 then Items(input, row - 1, Length(input, row - 1))
    else []
  }

  ghost function Emit(functor: Functor, input: Input, items: seq<Item>): seq<Value>
    requires WellFormed(input) && forall i | 0 <= i < |items| :: Belongs(input, items[i])
  {
    if items == [] then []
    else
      var last := items[|items| - 1];
      assert Belongs(input, last);
      Emit(functor, input, items[..|items| - 1]) + EmitOne(functor, input, last.row, last.k)
  }

  /** The flat stream emits what the lists emit. */
  lemma {:induction false} EmitIsResults(functor: Functor, input: Input, row: nat, k: nat)
    requires WellFormed(input) && row <= |input.sel| && (if row < |input.sel| then k <= Length(input, row) else k == 0)
    ensures Emit(functor, input, Items(input, row, k))
      == Results(functor, input, row) + if k == 0 then [] else ListResult(functor, input, row, k)
    decreases row, k
  {
    hide EmitOne;
    hide Length;
    hide WellFormed;
    if k != 0 {
      EmitIsResults(functor, input, row, k - 1);
      assert Items(input, row, k)[..|Items(input, row, k)| - 1] == Items(input, row, k - 1);
      Regroup(Results(functor, input, row), ListResult(functor, input, row, k - 1),
        EmitOne(functor, input, row, k - 1));
      hide Results;
    } else if row != 0 {
      EmitIsResults(functor, input, row - 1, Length(input, row - 1));
    }
  }

  // ---------------------------------------------------------------- rebuilding filtered lists

  /** How many of the first `n` flags are set. */
  function Count(flags: seq<bool>, n: nat): nat
    requires n <= |flags|
  {
    if n == 0 then 0 else Count(flags, n - 1) + if flags[n - 1] then 1 else 0
  }

  lemma {:induction false} CountPrefix(flags: seq<bool>, more: seq<bool>, n: nat)
    requires n <= |flags|
    ensures Count(flags + more, n) == Count(flags, n)
  {
    if n != 0 {
      CountPrefix(flags, more, n - 1);
    }
  }

  /** Where list `n` starts among all elements, by the original lengths. */
  function Start(lengths: seq<nat>, n: nat): nat
    requires n <= |lengths|
  {
    if n == 0 then 0 else Start(lengths, n - 1) + lengths[n - 1]
  }

  lemma {:induction false} StartMonotone(lengths: seq<nat>, i: nat, j: nat)
    requires i <= j <= |lengths|
    ensures Start(lengths, i) <= Start(lengths, j)
  {
    if i < j {
      StartMonotone(lengths, i, j - 1);
    }
  }

  lemma {:induction false} StartPrefix(lengths: seq<nat>, more: seq<nat>, n: nat)
    requires n <= |lengths|
    ensures Start(lengths + more, n) == Start(lengths, n)
  {
    if n != 0 {
      StartPrefix(lengths, more, n - 1);
    }
  }

  /** The carried state between batches: the original lengths pushed so far, and the row, source
      length, result length and offset reached. */
  datatype Filtering = Filtering(lengths: seq<nat>, row: nat, srcLength: nat, length: nat, offset: nat)

  /** The offset and length of row `r`, given the verdicts on all its elements. */
  function RebuiltEntry(lengths: seq<nat>, flags: seq<bool>, r: nat): ListEntry
    requires r < |lengths| && Start(lengths, r + 1) <= |flags|
  {
    var kept := Count(flags, Start(lengths, r + 1)) - Count(flags, Start(lengths, r));
    ListEntry(Count(flags, Start(lengths, r)), if kept < 0 then 0 else kept)
  }

  predicate Finished(lengths: seq<nat>, flags: seq<bool>, entries: seq<ListEntry>, r: nat)
    requires r < |lengths| && r < |entries|
  {
    Start(lengths, r + 1) <= |flags| && entries[r] == RebuiltEntry(lengths, flags, r)
  }

  /** The state after the verdicts `flags`: every finished row has its entry, and the row in
      progress has been read `srcLength` elements far. */
  predicate Tracks(s: Filtering, flags: seq<bool>, entries: seq<ListEntry>) {
    && s.row <= |s.lengths| <= |entries|
    && (s.srcLength == 0 || (s.row < |s.lengths| && s.srcLength < s.lengths[s.row]))
    && |flags| == Start(s.lengths, s.row) + s.srcLength
    && s.offset == Count(flags, Start(s.lengths, s.row))
    && s.offset + s.length == Count(flags, |flags|)
    && forall r | 0 <= r < s.row :: Finished(s.lengths, flags, entries, r)
  }

  /** No empty row is waiting for its entry. */
  predicate Settled(s: Filtering) {
    s.row < |s.lengths| ==> s.lengths[s.row] != 0
  }

  /** The state depends on the lengths and verdicts alone, so it does not matter how the verdicts were cut
      into batches. */
  lemma BatchingIsInvisible(s: Filtering, t: Filtering, flags: seq<bool>, e: seq<ListEntry>, f: seq<ListEntry>)
    requires Tracks(s, flags, e) && Tracks(t, flags, f) && Settled(s) && Settled(t) && s.lengths == t.lengths
    ensures s == t && e[..s.row] == f[..s.row]
  {
    if s.row < t.row {
      StartMonotone(s.lengths, s.row + 1, t.row);
    } else if t.row < s.row {
      StartMonotone(s.lengths, t.row + 1, s.row);
    }
    forall r | 0 <= r < s.row ensures e[r] == f[r] {
      assert Finished(s.lengths, flags, e, r) && Finished(t.lengths, flags, f, r);
    }
  }
}

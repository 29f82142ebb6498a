/** Executing a statement once for every parameter set. */
module ParameterBatch {
  import opened Common
  import opened DescribeCol
  import opened ParameterSpec
  import opened ParameterRuns

  datatype Code = SUCCESS | STILL_EXECUTING | NEED_DATA | ERROR

  /** The application's memory can be read for every set that is still to come. */
  ghost predicate Ready(p: Params) {
    p.records != [] ==>
      && p.paramsetIdx < p.arraySize
      && forall j | p.paramsetIdx <= j < p.arraySize :: AllReadable(p.records, j)
  }

  /** The records after the values of set `j` were read, up to the first that has none. */
  function ReadRecords(records: seq<Record>, i: nat, j: nat): (after: seq<Record>)
    requires i <= |records| && forall k | i <= k < |records| :: records[k].Readable(j)
    ensures |after| == |records|
    decreases |records| - i
  {
    if i == |records| || !ValueAt(records[i], j).Got? then records
    else ReadRecords(records[i := records[i].Measured(j)], i + 1, j)
  }

  datatype Set = Set(code: Code, values: seq<Value>, after: Params)

  /** The values of the current set; consumes the set when it has all of them. */
  function GetValues(p: Params): Set
    requires Ready(p)
  {
    if p.records == [] then Set(SUCCESS, [], p)
    else
      var values := ValuesFrom(p.records, 0, p.paramsetIdx);
      var read := p.(records := ReadRecords(p.records, 0, p.paramsetIdx));
      if values.NoValues? then Set(ERROR, [], read)
      else if values.ValuesNeedData? then Set(NEED_DATA, [], read)
      else
        var next := p.paramsetIdx + 1;
        var after := read.(paramsetIdx := next, rowsProcessed := if p.rowsProcessed.Some? then Some(next) else None);
        Set(if next == p.arraySize then SUCCESS else STILL_EXECUTING, values.values, after)
  }

  datatype Run = Run(code: Code, executions: seq<seq<Value>>, after: Params)

  /** Executes set after set; the engine may fail, whatever it was given so far. */
  function Batch(p: Params, fails: seq<seq<Value>> -> bool, executions: seq<seq<Value>>): Run
    requires Ready(p)
    decreases p.arraySize - p.paramsetIdx
  {
    var current := GetValues(p);
    if current.code == NEED_DATA || current.code == ERROR then Run(current.code, executions, current.after)
    else
      var now := executions + [current.values];
      if fails(now) then Run(ERROR, now, current.after)
      else if current.code == STILL_EXECUTING then
        StaysReady(p);
        Batch(current.after, fails, now)
      else Run(SUCCESS, now, current.after)
  }

  // ---------------------------------------------------------------- reading one set leaves the others

  lemma {:induction false} ReadRecordsKeepsValues(records: seq<Record>, i: nat, j: nat, k: nat)
    requires i <= |records| && (forall x | i <= x < |records| :: records[x].Readable(j))
    requires forall x | 0 <= x < |records| :: records[x].Readable(k)
    ensures var after := ReadRecords(records, i, j);
      && (forall x | 0 <= x < |records| :: after[x].Readable(k) && ValueAt(after[x], k) == ValueAt(records[x], k))
      && forall x | 0 <= x < i :: after[x] == records[x]
    decreases |records| - i
  {
    hide ValueAt, Record.Readable, Record.Measured;
    if i < |records| && ValueAt(records[i], j).Got? {
      MeasuringKeepsValues(records[i], j, k);
      ReadRecordsKeepsValues(records[i := records[i].Measured(j)], i + 1, j, k);
    }
  }

  lemma {:induction false} SameValues(a: seq<Record>, b: seq<Record>, i: nat, k: nat)
    requires |a| == |b| && i <= |a| && AllReadable(a, k) && AllReadable(b, k)
    requires forall x | 0 <= x < |a| :: ValueAt(a[x], k) == ValueAt(b[x], k)
    ensures ValuesFrom(a, i, k) == ValuesFrom(b, i, k)
    decreases |a| - i
  {
    if i < |a| {
      SameValues(a, b, i + 1, k);
    }
  }

  lemma StaysReady(p: Params)
    requires Ready(p) && GetValues(p).code == STILL_EXECUTING
    ensures var after := GetValues(p).after;
      && Ready(after) && after.records != [] && after.paramsetIdx == p.paramsetIdx + 1 && after.arraySize == p.arraySize
      && forall k | after.paramsetIdx <= k < p.arraySize ::
         ValuesFrom(after.records, 0, k) == ValuesFrom(p.records, 0, k)
  {
    hide Record.Readable, ValueAt, ReadRecords;
    var after := GetValues(p).after;
    forall k | p.paramsetIdx + 1 <= k < p.arraySize
      ensures AllReadable(after.records, k) && ValuesFrom(after.records, 0, k) == ValuesFrom(p.records, 0, k)
    {
      assert AllReadable(p.records, k) && AllReadable(p.records, p.paramsetIdx);
      ReadRecordsKeepsValues(p.records, 0, p.paramsetIdx, k);
      SameValues(after.records, p.records, 0, k);
    }
  }

  // ---------------------------------------------------------------- the whole run

  /** Set `j` has a value for every parameter, and these are they. */
  ghost predicate Gives(p: Params, j: nat, values: seq<Value>)
    requires Ready(p) && p.records != []
  {
    p.paramsetIdx <= j < p.arraySize && ValuesFrom(p.records, 0, j) == AllValues(values)
  }

  /** A run that executed the first `m` sets after those before it, and consumed as many. */
  ghost predicate InOrder(p: Params, fails: seq<seq<Value>> -> bool, executions: seq<seq<Value>>, run: Run, m: int)
    requires Ready(p) && p.records != []
  {
    && 0 <= m <= p.arraySize - p.paramsetIdx && |run.executions| == |executions| + m && executions <= run.executions
    && (forall k | |executions| <= k < |executions| + m ::
       Gives(p, p.paramsetIdx + k - |executions|, run.executions[k]))
    && run.after.paramsetIdx == p.paramsetIdx + m
    && run.after.rowsProcessed == (if m == 0 || p.rowsProcessed.None? then p.rowsProcessed else Some(p.paramsetIdx + m))
    && (run.code == SUCCESS <==>
      m == p.arraySize - p.paramsetIdx
        && forall k | |executions| < k <= |executions| + m :: !fails(run.executions[..k]))
    && run.code != STILL_EXECUTING
  }

  /** Main result: the engine is given set after set, each with its own values; the counters say how many sets
      were consumed; and the run ends well exactly when every set has its values and the engine takes them all. */
  lemma {:induction false} BatchExecutesSetsInOrder(p: Params, fails: seq<seq<Value>> -> bool,
                                                    executions: seq<seq<Value>>)
    requires Ready(p) && p.records != []
    ensures var run := Batch(p, fails, executions); InOrder(p, fails, executions, run, |run.executions| - |executions|)
    decreases p.arraySize - p.paramsetIdx
  {
    hide ValuesFrom, ReadRecords, Record.Readable;
    var current, run := GetValues(p), Batch(p, fails, executions);
    var now := executions + [current.values];
    assert now[..|now|] == now;
    if current.code == STILL_EXECUTING && !fails(now) {
      StaysReady(p);
      BatchExecutesSetsInOrder(current.after, fails, now);
      OneMoreSet(p, fails, executions, current, run);
    }
  }

  lemma OneMoreSet(p: Params, fails: seq<seq<Value>> -> bool, executions: seq<seq<Value>>, current: Set, run: Run)
    requires Ready(p) && p.records != [] && current == GetValues(p) && current.code == STILL_EXECUTING
    requires Ready(current.after) && current.after.records != []
    requires forall k | p.paramsetIdx < k < p.arraySize ::
      ValuesFrom(current.after.records, 0, k) == ValuesFrom(p.records, 0, k)
    requires var now := executions + [current.values];
      !fails(now) && InOrder(current.after, fails, now, run, |run.executions| - |now|)
    ensures InOrder(p, fails, executions, run, |run.executions| - |executions|)
  {
    var now := executions + [current.values];
    var m := |run.executions| - |executions|;
    hide ValuesFrom, ReadRecords;
    forall k | |executions| <= k < |executions| + m
      ensures Gives(p, p.paramsetIdx + k - |executions|, run.executions[k]) {
      if |now| <= k {
        assert Gives(current.after, current.after.paramsetIdx + k - |now|, run.executions[k]);
      }
    }
    assert run.executions[..|now|] == now;
  }

  /** When no set lacks a value and the engine never fails, it is called once for every set. */
  lemma BatchExecutesEverySet(p: Params, fails: seq<seq<Value>> -> bool)
    requires Ready(p) && p.records != []
    requires (forall j | p.paramsetIdx <= j < p.arraySize :: ValuesFrom(p.records, 0, j).AllValues?)
    requires forall e :: !fails(e)
    ensures Batch(p, fails, []).code == SUCCESS
    ensures InOrder(p, fails, [], Batch(p, fails, []), p.arraySize - p.paramsetIdx)
  {
    hide Batch, ValuesFrom, Ready, Gives;
    BatchExecutesSetsInOrder(p, fails, []);
    BatchGoesOn(p, fails, []);
  }

  lemma {:induction false} BatchGoesOn(p: Params, fails: seq<seq<Value>> -> bool, executions: seq<seq<Value>>)
    requires Ready(p) && p.records != []
    requires (forall j | p.paramsetIdx <= j < p.arraySize :: ValuesFrom(p.records, 0, j).AllValues?)
    requires forall e :: !fails(e)
    ensures Batch(p, fails, executions).code == SUCCESS
    decreases p.arraySize - p.paramsetIdx
  {
    var current := GetValues(p);
    if current.code == STILL_EXECUTING {
      StaysReady(p);
      BatchGoesOn(current.after, fails, executions + [current.values]);
    }
  }

  lemma {:induction false} ValuesAreGiven(records: seq<Record>, i: nat, j: nat, values: seq<Value>)
    requires i <= |records| == |values| && AllReadable(records, j)
    requires forall x | 0 <= x < |records| :: ValueAt(records[x], j) == Got(values[x])
    ensures ValuesFrom(records, i, j) == AllValues(values[i..])
    decreases |records| - i
  {
    hide ValueAt, Record.Readable;
    if i < |records| {
      ValuesAreGiven(records, i + 1, j, values);
      assert values[i..] == [values[i]] + values[i + 1..];
    }
  }

  /** When every parameter has its value in every set, the engine is given these sets. */
  lemma GivenSetsReachEngine(p: Params, sets: seq<seq<Value>>, fails: seq<seq<Value>> -> bool)
    requires p.records != [] && p.paramsetIdx == 0 && 1 <= p.arraySize == |sets| && forall e :: !fails(e)
    requires forall j | 0 <= j < |sets| :: SetGiven(p.records, j, sets[j])
    ensures Ready(p) && Batch(p, fails, []).code == SUCCESS && Batch(p, fails, []).executions == sets
  {
    hide ReadRecords, Batch, Record.Readable, ValueAt, ValuesFrom;
    forall j | 0 <= j < |sets| ensures AllReadable(p.records, j) && ValuesFrom(p.records, 0, j) == AllValues(sets[j]) {
      assert SetGiven(p.records, j, sets[j]);
      ValuesAreGiven(p.records, 0, j, sets[j]);
      assert sets[j][0..] == sets[j];
    }
    BatchExecutesEverySet(p, fails);
    var run := Batch(p, fails, []);
    forall j | 0 <= j < |sets| ensures run.executions[j] == sets[j] {
      assert Gives(p, p.paramsetIdx + j - 0, run.executions[j]);
    }
  }

  ghost predicate SetGiven(records: seq<Record>, j: nat, values: seq<Value>) {
    && |values| == |records|
    && forall x | 0 <= x < |records| :: records[x].Readable(j) && ValueAt(records[x], j) == Got(values[x])
  }

  /** Every parameter but `i` has its value in set `j`. */
  ghost predicate OthersGiven(records: seq<Record>, i: nat, j: nat, values: seq<Value>) {
    && |values| == |records|
    && forall x | 0 <= x < |records| && x != i :: records[x].Readable(j) && ValueAt(records[x], j) == Got(values[x])
  }

  /** The values of a set together with that of parameter `i`. */
  function WithValue(values: seq<Value>, i: nat, value: Value): (r: seq<Value>)
    ensures |r| == |values|
  {
    if i < |values| then values[i := value] else values
  }

  /** Main result: the pieces sent for one parameter of a statement reach the engine, each in the execution of its
      own set and at the place of its parameter, beside the values that the other parameters have in that set. */
  lemma DataReachesEngine(p: Params, memory: nat -> Byte, pieces: seq<seq<Byte>>, others: seq<seq<Value>>,
                          fails: seq<seq<Value>> -> bool)
    requires AwaitsData(p) && p.paramsetIdx == 0 && p.curParamsetIdx == 0 && p.pooled == 0
    requires 2 <= p.arraySize == |pieces| == |others| && p.arraySize <= |p.records[p.curParamIdx].indicators.value|
    requires p.records[p.curParamIdx].kind.Character? || p.records[p.curParamIdx].kind.Binary?
    requires p.records[p.curParamIdx].octetLength <= p.records[p.curParamIdx].length < 0x8000_0000
    requires forall e :: !fails(e)
    requires forall j | 0 <= j < |others| :: OthersGiven(p.records, p.curParamIdx, j, others[j])
    ensures var after, r := PutAll(p, memory, pieces), p.records[p.curParamIdx];
      && Ready(after) && Batch(after, fails, []).code == SUCCESS
      && Batch(after, fails, []).executions
        == seq(|pieces|, j requires 0 <= j < |pieces| =>
                 WithValue(others[j], p.curParamIdx, Sent(r, Cut(pieces[j], r.length))))
  {
    hide PutAll, Batch, Record.Readable, ValueAt, CellsHold;
    var after, i, r := PutAll(p, memory, pieces), p.curParamIdx, p.records[p.curParamIdx];
    PiecesFillCells(p, memory, pieces);
    CellsReadBack(p, memory, pieces);
    var sets := seq(|pieces|,
      j requires 0 <= j < |pieces| => WithValue(others[j], i, Sent(r, Cut(pieces[j], r.length))));
    forall j | 0 <= j < |pieces| ensures SetGiven(after.records, j, sets[j]) {
      assert ReadsBack(after.records[i], j, Cut(pieces[j], r.length));
      assert OthersGiven(p.records, i, j, others[j]);
    }
    GivenSetsReachEngine(after, sets, fails);
  }

  /** The application's array of values of fixed width has a value for set `j`. */
  ghost predicate HasElement(r: Record, j: nat) {
    && r.Bound() && r.kind.Fixed? && j < |r.indicators.value|
    && r.indicators.value[j] != SQL_NULL_DATA && !r.NeedsData(j)
    && 0 <= j * r.kind.width && j * r.kind.width + r.kind.width <= |r.data.value|
  }

  function Element(r: Record, j: nat): Value
    requires HasElement(r, j)
  {
    Plain(r.data.value[j * r.kind.width..j * r.kind.width + r.kind.width])
  }

  /** Main result on arrays of numbers and dates: every set is executed with its own element exactly when all the
      elements are equal, for the value is always read from the start of the array. */
  lemma FixedArrayReachesEngineExactlyWhen(p: Params, i: nat, others: seq<seq<Value>>, fails: seq<seq<Value>> -> bool)
    requires i < |p.records| && p.paramsetIdx == 0 && 1 <= p.arraySize == |others| && forall e :: !fails(e)
    requires forall j | 0 <= j < |others| :: HasElement(p.records[i], j) && OthersGiven(p.records, i, j, others[j])
    ensures Ready(p) && Batch(p, fails, []).code == SUCCESS
    ensures Batch(p, fails, []).executions
      == seq(|others|, j requires 0 <= j < |others| => WithValue(others[j], i, Element(p.records[i], j)))
      <==> forall j | 0 <= j < |others| :: Element(p.records[i], j) == Element(p.records[i], 0)
  {
    hide Batch;
    var r := p.records[i];
    var own := seq(|others|, j requires 0 <= j < |others| => WithValue(others[j], i, Element(r, j)));
    var sets := seq(|others|, j requires 0 <= j < |others| => WithValue(others[j], i, Element(r, 0)));
    forall j | 0 <= j < |others| ensures SetGiven(p.records, j, sets[j]) {
      assert HasElement(r, j) && HasElement(r, 0) && OthersGiven(p.records, i, j, others[j]);
      assert r.data.value[0 * r.kind.width..0 * r.kind.width + r.kind.width] == r.data.value[..r.kind.width];
    }
    GivenSetsReachEngine(p, sets, fails);
    if own == sets {
      forall j | 0 <= j < |others| ensures Element(r, j) == Element(r, 0) {
        assert OthersGiven(p.records, i, j, others[j]);
        assert own[j][i] == sets[j][i];
      }
    }
  }

  // ---------------------------------------------------------------- what applications supply

  /** The application supplies a value for set `j`: NULL by a missing pointer or the indicator, text and binary data at
      the place of the set with their length, text also terminated, and a number or date at the start of the memory. */
  ghost predicate Supplies(r: Record, j: nat, value: Value) {
    if r.data.None? || r.indicators.None? then value == Null && (r.data.Some? || r.indicators.Some?)
    else
      j < |r.indicators.value| &&
      var place, indicator := j * (if r.octetLength < r.length then r.length else r.octetLength), r.indicators.value[j];
      match value
      case Null => indicator == -1
      case Chars(c) =>
        && r.kind.Character? && place + |c| <= |r.data.value| && |c| < 0x8000_0000
        && r.data.value[place..place + |c|] == c
        && (indicator == |c|
          || (indicator == -3 && 0 !in c && place + |c| < |r.data.value| && r.data.value[place + |c|] == 0))
      case Blob(c) =>
        r.kind.Binary? && place + |c| <= |r.data.value| && r.data.value[place..place + |c|] == c && indicator == |c|
      case Plain(c) =>
        && r.kind == Fixed(|c|) && c <= r.data.value
        && indicator != -1 && indicator != -2 && indicator != -100 - r.length
  }

  /** A terminated text is read up to its terminator. */
  lemma TerminatedText(memory: seq<Byte>, c: seq<Byte>)
    requires |c| < |memory| && memory[..|c|] == c && memory[|c|] == 0 && 0 !in c
    ensures CString(memory) == c && 0 in memory
  {
    CStringStops(c, memory[|c| + 1..]);
    assert c + [0] + memory[|c| + 1..] == memory;
  }

  lemma TextIsSupplied(r: Record, j: nat, c: seq<Byte>)
    requires r.kind.Character? && Supplies(r, j, Chars(c))
    ensures r.Readable(j) && ValueAt(r, j) == Got(Chars(c))
  {
    hide CString, Text, TextReadable, ToInt32;
    var place := j * r.Stride();
    var memory := r.data.value[place..];
    assert memory[..|c|] == r.data.value[place..place + |c|];
    SmallLength(|c|);
    TextIsWholeExactlyWhen(memory, |c|);
    if r.indicators.value[j] != |c| {
      TerminatedText(memory, c);
    }
  }

  lemma SmallLength(n: int)
    requires 0 <= n < 0x8000_0000
    ensures ToInt32(n) == n
  {
  }

  lemma ValueIsSupplied(r: Record, j: nat, value: Value)
    requires Supplies(r, j, value)
    ensures r.Readable(j) && ValueAt(r, j) == Got(value)
  {
    if value.Chars? {
      TextIsSupplied(r, j, value.bytes);
    }
    hide CString, Text;
  }

  /** Main result on what applications supply themselves: every set is executed with exactly the values supplied
      for it. */
  lemma SuppliedValuesReachEngine(p: Params, sets: seq<seq<Value>>, fails: seq<seq<Value>> -> bool)
    requires p.records != [] && p.paramsetIdx == 0 && 1 <= p.arraySize == |sets| && forall e :: !fails(e)
    requires forall j | 0 <= j < |sets| :: |sets[j]| == |p.records|
    requires forall j, x | 0 <= j < |sets| && 0 <= x < |p.records| :: Supplies(p.records[x], j, sets[j][x])
    ensures Ready(p) && Batch(p, fails, []).code == SUCCESS && Batch(p, fails, []).executions == sets
  {
    hide Supplies, Record.Readable, ValueAt, Batch;
    forall j | 0 <= j < |sets| ensures SetGiven(p.records, j, sets[j]) {
      forall x | 0 <= x < |p.records|
        ensures p.records[x].Readable(j) && ValueAt(p.records[x], j) == Got(sets[j][x])
      {
        ValueIsSupplied(p.records[x], j, sets[j][x]);
      }
    }
    GivenSetsReachEngine(p, sets, fails);
  }

  /** Why a parameter has no value in a set: it is not bound at all, the driver cannot read its kind, or its indicator
      asks for data, with or without a length. */
  ghost predicate Lacks(r: Record, j: nat, code: Code) {
    if r.data.None? && r.indicators.None? then code == ERROR
    else
      && r.data.Some? && r.indicators.Some? && j < |r.indicators.value|
      && var indicator := r.indicators.value[j];
         if indicator == -2 || indicator == -100 - r.length then code == NEED_DATA
         else code == ERROR && r.kind.Unsupported? && indicator != -1
  }

  lemma {:induction false} LackingStops(records: seq<Record>, i: nat, x: nat, j: nat, code: Code)
    requires i <= x < |records| && AllReadable(records, j) && Lacks(records[x], j, code)
    requires forall k | i <= k < x :: ValueAt(records[k], j).Got?
    ensures ValuesFrom(records, i, j) == if code == NEED_DATA then ValuesNeedData else NoValues
    decreases x - i
  {
    if i < x {
      hide ValueAt, Record.Readable;
      LackingStops(records, i + 1, x, j, code);
    }
  }

  /** The first parameter without a value decides how the execution ends, before the engine is called. */
  lemma LackingValueEndsBatch(p: Params, x: nat, code: Code, fails: seq<seq<Value>> -> bool)
    requires Ready(p) && x < |p.records| && AllReadable(p.records, p.paramsetIdx)
    requires Lacks(p.records[x], p.paramsetIdx, code)
    requires forall k | 0 <= k < x :: ValueAt(p.records[k], p.paramsetIdx).Got?
    ensures var run := Batch(p, fails, []);
      run.code == code && run.executions == [] && run.after.paramsetIdx == p.paramsetIdx
  {
    LackingStops(p.records, 0, x, p.paramsetIdx, code);
    hide ValuesFrom, ValueAt, Record.Readable, ReadRecords;
  }
}

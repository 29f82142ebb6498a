/** The parameter descriptor of a statement, which changes in place, and executing the statement with it. */
module Parameters {
  import opened Common
  import opened DescribeCol
  import opened ParameterSpec
  import opened ParameterBatch

  /** All the values, once those of the first parameters are known. */
  ghost function Behind(current: seq<Value>, later: Values): Values {
    if later.AllValues? then AllValues(current + later.values) else later
  }

  lemma BehindStep(records: seq<Record>, i: nat, j: nat, current: seq<Value>)
    requires i < |records| && AllReadable(records, j)
    ensures Behind(current, ValuesFrom(records, i, j)) ==
      match ValueAt(records[i], j)
      case Got(v) => Behind(current + [v], ValuesFrom(records, i + 1, j))
      case NeedData => ValuesNeedData
      case Failed => NoValues
  {
  }

  class ParameterDescriptor {
    var records: seq<Record>
    var count: nat
    var arraySize: nat
    var pooled: nat
    var paramsetIdx: nat
    var curParamsetIdx: nat
    var curParamIdx: nat
    var values: seq<Value>
    var rowsProcessed: Option<nat>

    ghost function View(): Params
      reads this
    {
      Params(records, count, arraySize, pooled, paramsetIdx, curParamsetIdx, curParamIdx, rowsProcessed)
    }

    constructor (arraySize: nat, rowsProcessed: Option<nat>)
      ensures View() == Params([], 0, arraySize, 0, 0, 0, 0, rowsProcessed) && values == []
    {
      records, count, values := [], 0, [];
      this.arraySize, this.rowsProcessed := arraySize, rowsProcessed;
      pooled, paramsetIdx, curParamsetIdx, curParamIdx := 0, 0, 0, 0;
    }

    /** Closing the statement. */
    method Reset()
      modifies this
      ensures View() == Restarted(old(View())) && values == old(values)
    {
      pooled := 0;
      count := 0;
      paramsetIdx, curParamsetIdx, curParamIdx := 0, 0, 0;
    }

    /** SQLPutData. */
    method PutData(memory: nat -> Byte, bytes: seq<Byte>, strLen: int) returns (code: Code)
      requires MayPut(View(), bytes, strLen)
      modifies this
      ensures View() == Put(old(View()), memory, bytes, strLen) && values == old(values)
      ensures code == if old(curParamIdx < count) then SUCCESS else ERROR
    {
      if curParamIdx >= count {
        return ERROR;
      }
      var i := curParamIdx;
      if records[i].inPieces {
        if arraySize == 1 {
          FillParamCharDataBuffer(memory, bytes, strLen);
        } else {
          FillCurParamCharSet(memory, bytes, strLen);
        }
        return SUCCESS;
      }
      curParamIdx := curParamIdx + 1;
      if strLen == SQL_NULL_DATA {
        records := records[i := records[i].(indicators := Some(records[i].indicators.value[0 := SQL_NULL_DATA]))];
      } else {
        records := records[i := records[i].(data := Some(bytes))];
      }
      return SUCCESS;
    }

    /** One set: the first piece allocates the buffer, and every piece follows the one before it. */
    method FillParamCharDataBuffer(memory: nat -> Byte, bytes: seq<Byte>, strLen: int)
      requires MayPut(View(), bytes, strLen) && curParamIdx < count && records[curParamIdx].inPieces && arraySize == 1
      modifies this
      ensures View() == Put(old(View()), memory, bytes, strLen) && values == old(values)
    {
      var i := curParamIdx;
      var offset, length := 0, records[i].length;
      ghost var r := records[i];
      if records[i].indicators.value[0] == SQL_DATA_AT_EXEC {
        var buffer := Contents(length, memory);
        var indicators := records[i].indicators.value[0 := 0];
        records := records[i := records[i].(data := Some(buffer), indicators := Some(indicators))];
        pooled := pooled + 1;
      } else {
        offset := records[i].indicators.value[0];
      }
      var size := length - offset;
      if strLen < 0 || strLen >= size {
        curParamIdx := curParamIdx + 1;
      } else {
        size := strLen;
      }
      var filled := Landed(records[i].data.value, offset, bytes[..size]);
      records := records[i := records[i].(
        data := Some(filled), indicators := Some(records[i].indicators.value[0 := offset + size]))];
      assert records[i].indicators.value == r.indicators.value[0 := offset + size];
    }

    /** Several sets: the piece is the value of the current set, in a cell as long as the parameter. */
    method FillCurParamCharSet(memory: nat -> Byte, bytes: seq<Byte>, strLen: int)
      requires MayPut(View(), bytes, strLen) && curParamIdx < count && records[curParamIdx].inPieces && arraySize != 1
      modifies this
      ensures View() == Put(old(View()), memory, bytes, strLen) && values == old(values)
    {
      var i, j := curParamIdx, curParamsetIdx;
      var colSize := records[i].length;
      CellFits(j, arraySize, colSize);
      if records[i].indicators.value[j] == SQL_DATA_AT_EXEC && pooled == 0 {
        var buffer := Contents(arraySize * colSize, memory);
        records := records[i := records[i].(data := Some(buffer))];
        pooled := pooled + 1;
      }
      var size := if strLen < 0 || strLen >= colSize then colSize else strLen;
      var filled := Splice(records[i].data.value, j * colSize, bytes[..size]);
      var indicators := records[i].indicators.value[j := size];
      records := records[i := records[i].(data := Some(filled), indicators := Some(indicators))];
      curParamsetIdx := curParamsetIdx + 1;
      if curParamsetIdx >= arraySize {
        curParamsetIdx, curParamIdx := 0, curParamIdx + 1;
      }
    }

    /** Reads the value of parameter `recIdx` in the current set, and keeps it for the next executions. */
    method SetValue(recIdx: nat) returns (result: Result)
      requires recIdx < |records| && recIdx <= |values| && records[recIdx].Readable(paramsetIdx)
      modifies `records, `values
      ensures result == ValueAt(old(records[recIdx]), paramsetIdx)
      ensures !result.Got? ==> records == old(records) && values == old(values)
      ensures result.Got? ==>
        && records == old(records)[recIdx := old(records[recIdx]).Measured(paramsetIdx)]
        && values == if recIdx < |old(values)| then old(values)[recIdx := result.value]
                     else old(values) + [result.value]
    {
      var r, j := records[recIdx], paramsetIdx;
      if r.data.None? && r.indicators.None? {
        return Failed;
      }
      if r.data.None? || r.indicators.None? || r.indicators.value[j] == SQL_NULL_DATA {
        result := Got(Null);
      } else {
        if r.NeedsData(j) {
          return NeedData;
        }
        var buffSize := if r.octetLength > r.length then r.octetLength else r.length;
        var start, strLen := j * buffSize, r.indicators.value[j];
        match r.kind
        case Character =>
          var strData := r.data.value[start..];
          if strLen == SQL_NTS {
            strLen := |CString(strData)|;
          }
          var indicators := r.indicators.value[j := strLen];
          records := records[recIdx := r.(indicators := Some(indicators))];
          result := Got(Chars(Text(strData, strLen)));
        case Binary =>
          result := Got(Blob(r.data.value[start..start + strLen]));
        case Fixed(width) =>
          result := Got(Plain(r.data.value[..width]));
        case Unsupported =>
          return Failed;
      }
      values := if recIdx < |values| then values[recIdx := result.value] else values + [result.value];
    }

    /** The values of the current set; the set is consumed when it has all of them. */
    method GetParamValues() returns (code: Code, current: seq<Value>)
      requires Ready(View())
      modifies this
      ensures var s := GetValues(old(View()));
        code == s.code && View() == s.after && (code == SUCCESS || code == STILL_EXECUTING ==> current == s.values)
    {
      hide ValueAt, Record.Readable, Record.Measured, Record.Bound, Record.Stride, Record.NeedsData;
      current := [];
      if records == [] {
        return SUCCESS, [];
      }
      ghost var p := View();
      assert AllReadable(p.records, paramsetIdx);
      for recIdx := 0 to |records|
        invariant |records| == |p.records| && recIdx <= |values| && |current| == recIdx
        invariant View() == p.(records := records) && forall k | recIdx <= k < |records| :: records[k] == p.records[k]
        invariant ReadRecords(records, recIdx, paramsetIdx) == ReadRecords(p.records, 0, paramsetIdx)
        invariant ValuesFrom(p.records, 0, paramsetIdx) == Behind(current, ValuesFrom(p.records, recIdx, paramsetIdx))
      {
        BehindStep(p.records, recIdx, paramsetIdx, current);
        hide Behind, ValuesFrom;
        var result := SetValue(recIdx);
        if result.NeedData? {
          return NEED_DATA, [];
        }
        if result.Failed? {
          return ERROR, [];
        }
        current := current + [values[recIdx]];
      }
      code := SetParamIndex();
    }

    method SetParamIndex() returns (code: Code)
      modifies `paramsetIdx, `rowsProcessed
      ensures paramsetIdx == old(paramsetIdx) + 1
      ensures rowsProcessed == if old(rowsProcessed).Some? then Some(paramsetIdx) else None
      ensures code == if paramsetIdx == arraySize then SUCCESS else STILL_EXECUTING
    {
      paramsetIdx := paramsetIdx + 1;
      if rowsProcessed.Some? {
        rowsProcessed := Some(paramsetIdx);
      }
      return if paramsetIdx == arraySize then SUCCESS else STILL_EXECUTING;
    }
  }

  /** A prepared statement, and what its engine was asked to execute. */
  class OdbcStmt {
    const paramDesc: ParameterDescriptor
    var executions: seq<seq<Value>>
    var open: bool

    constructor (paramDesc: ParameterDescriptor)
      ensures this.paramDesc == paramDesc && executions == []
    {
      this.paramDesc := paramDesc;
      executions, open := [], false;
    }

    /** Executes the statement for the current set. */
    method SingleExecuteStmt(fails: seq<seq<Value>> -> bool) returns (code: Code)
      requires Ready(paramDesc.View())
      modifies this, paramDesc
      ensures var s := GetValues(old(paramDesc.View()));
        && paramDesc.View() == s.after
        && if s.code == NEED_DATA || s.code == ERROR then code == s.code && executions == old(executions) && !open
          else
            && executions == old(executions) + [s.values]
            && open == !fails(executions) && code == if fails(executions) then ERROR else s.code
    {
      open := false;
      var current;
      code, current := paramDesc.GetParamValues();
      if code == NEED_DATA || code == ERROR {
        return;
      }
      executions := executions + [current];
      if fails(executions) {
        return ERROR;
      }
      open := true;
    }

    /** Executes the statement set after set. */
    method BatchExecuteStmt(fails: seq<seq<Value>> -> bool) returns (code: Code)
      requires Ready(paramDesc.View())
      modifies this, paramDesc
      ensures Run(code, executions, paramDesc.View()) == Batch(old(paramDesc.View()), fails, old(executions))
    {
      ghost var p, before := paramDesc.View(), executions;
      code := STILL_EXECUTING;
      while code == STILL_EXECUTING
        invariant code == STILL_EXECUTING ==> Ready(paramDesc.View())
        invariant if code == STILL_EXECUTING then Batch(paramDesc.View(), fails, executions) == Batch(p, fails, before)
          else Run(code, executions, paramDesc.View()) == Batch(p, fails, before)
        decreases code == STILL_EXECUTING, paramDesc.arraySize - paramDesc.paramsetIdx
      {
        ghost var now := paramDesc.View();
        if GetValues(now).code == STILL_EXECUTING {
          StaysReady(now);
        }
        code := SingleExecuteStmt(fails);
      }
    }
  }
}

/** The parameters of a statement: what the application's or the driver's buffers hold, how SQLPutData fills
    them, and which values one parameter set gives. */
module ParameterSpec {
  import opened Common
  import opened DescribeCol

  const SQL_DATA_AT_EXEC := -2
  const SQL_NTS := -3
  const SQL_LEN_DATA_AT_EXEC_OFFSET := -100

  /** How the value of a parameter is read, by the statement's type: text, binary data, a number or a date of so
      many bytes, or not at all, like a numeric with an impossible precision. */
  datatype Kind = Character | Binary | Fixed(width: nat) | Unsupported

  /** A parameter: its kind, whether the application's own type is character or binary, its length as described by
      the statement, the octet length the application gave, and the two bound pointers with the memory behind them. */
  datatype Record = Record(kind: Kind, inPieces: bool, length: nat, octetLength: int, data: Option<seq<Byte>>,
                           indicators: Option<seq<int>>)
  {
    predicate Bound() {
      data.Some? && indicators.Some?
    }

    /** How far the values of two sets are apart when they are read. */
    function Stride(): (n: nat)
      ensures n >= length && (octetLength <= length <==> n == length)
    {
      if octetLength > length then octetLength else length
    }

    predicate NeedsData(j: nat)
      requires indicators.Some? && j < |indicators.value|
    {
      indicators.value[j] == SQL_DATA_AT_EXEC || indicators.value[j] == SQL_LEN_DATA_AT_EXEC_OFFSET - length
    }

    /** What the application answers for: the memory of set `j` holds what its indicator says. */
    predicate Readable(j: nat) {
      Bound() ==>
        && j < |indicators.value|
        && (indicators.value[j] != SQL_NULL_DATA && !NeedsData(j) ==>
          match kind
          case Character =>
            && j * Stride() <= |data.value|
            && (indicators.value[j] == SQL_NTS ==> 0 in data.value[j * Stride()..])
            && TextReadable(data.value[j * Stride()..], Length(j))
          case Binary => 0 <= indicators.value[j] && j * Stride() + indicators.value[j] <= |data.value|
          case Fixed(width) => width <= |data.value|
          case Unsupported => true)
    }

    /** The length of the text of set `j`; a terminated text is measured. */
    function Length(j: nat): int
      requires Bound() && j < |indicators.value| && j * Stride() <= |data.value|
    {
      if indicators.value[j] == SQL_NTS then |CString(data.value[j * Stride()..])| else indicators.value[j]
    }

    /** The measured length takes the place of the mark. */
    function Measured(j: nat): Record
      requires Readable(j)
    {
      if !Bound() || !kind.Character? || indicators.value[j] == SQL_NULL_DATA || NeedsData(j) then this
      else this.(indicators := Some(indicators.value[j := Length(j)]))
    }
  }

  /** Lengths pass through a 32-bit integer. */
  function ToInt32(x: int): int {
    (x + 0x8000_0000) % 0x1_0000_0000 - 0x8000_0000
  }

  predicate TextReadable(memory: seq<Byte>, length: int) {
    if ToInt32(length) == SQL_NTS then 0 in memory else ToInt32(length) <= |memory|
  }

  function Text(memory: seq<Byte>, length: int): seq<Byte>
    requires TextReadable(memory, length)
  {
    var n := ToInt32(length);
    if n == SQL_NTS then CString(memory) else if n > 0 then memory[..n] else []
  }

  datatype Value = Null | Chars(bytes: seq<Byte>) | Blob(bytes: seq<Byte>) | Plain(bytes: seq<Byte>)
  datatype Result = Failed | NeedData | Got(value: Value)

  /** The value of a parameter in set `j`; a value of fixed width is always the one at the start of the memory. */
  function ValueAt(r: Record, j: nat): Result
    requires r.Readable(j)
  {
    if r.data.None? && r.indicators.None? then Failed
    else if !r.Bound() || r.indicators.value[j] == SQL_NULL_DATA then Got(Null)
    else if r.NeedsData(j) then NeedData
    else
      match r.kind
      case Character => Got(Chars(Text(r.data.value[j * r.Stride()..], r.Length(j))))
      case Binary => Got(Blob(r.data.value[j * r.Stride()..j * r.Stride() + r.indicators.value[j]]))
      case Fixed(width) => Got(Plain(r.data.value[..width]))
      case Unsupported => Failed
  }

  /** The value that text sent for a parameter is meant to become. */
  function Sent(r: Record, text: seq<Byte>): Value {
    if r.kind.Binary? then Blob(text) else Chars(text)
  }

  lemma MeasuringKeepsValues(r: Record, j: nat, k: nat)
    requires r.Readable(j) && r.Readable(k)
    ensures r.Measured(j).Readable(k) && ValueAt(r.Measured(j), k) == ValueAt(r, k)
  {
  }

  // ---------------------------------------------------------------- filling the buffers

  /** A length as the unsigned size of the copy; a negative one is larger than any buffer. */
  function Size(strLen: int, room: nat): (n: nat)
    ensures n <= room && (0 <= strLen ==> n == Min(strLen, room))
  {
    if strLen < 0 || strLen >= room then room else strLen
  }

  /** What new memory holds, which nothing depends on. */
  function Contents(n: nat, memory: nat -> Byte): (s: seq<Byte>)
    ensures |s| == n && forall i | 0 <= i < n :: s[i] == memory(i)
  {
    seq<Byte>(n, i requires 0 <= i < n => memory(i))
  }

  /** The memory after a copy into it. */
  function Splice(buffer: seq<Byte>, at: nat, bytes: seq<Byte>): (s: seq<Byte>)
    requires at + |bytes| <= |buffer|
    ensures |s| == |buffer|
  {
    buffer[..at] + bytes + buffer[at + |bytes|..]
  }

  /** A parameter of another application type takes one piece: NULL, or the memory to read it from. */
  function Point(r: Record, bytes: seq<Byte>, strLen: int): Record
    requires strLen == SQL_NULL_DATA ==> r.indicators.Some? && r.indicators.value != []
  {
    if strLen == SQL_NULL_DATA then r.(indicators := Some(r.indicators.value[0 := SQL_NULL_DATA]))
    else r.(data := Some(bytes))
  }

  /** The memory after a copy that may start in front of it: only what reaches into it is kept. */
  function Landed(buffer: seq<Byte>, at: int, bytes: seq<Byte>): (s: seq<Byte>)
    requires at + |bytes| <= |buffer|
    ensures |s| == |buffer|
  {
    if 0 <= at then Splice(buffer, at, bytes)
    else if at + |bytes| <= 0 then buffer
    else Splice(buffer, 0, bytes[0 - at..])
  }

  /** One parameter, one set: the buffer is allocated for the first piece and the pieces follow each other.  Only
      SQL_DATA_AT_EXEC starts a buffer; the mark with a length is an offset in front of it. */
  predicate MayAppend(r: Record, bytes: seq<Byte>, strLen: int) {
    && r.indicators.Some? && r.indicators.value != []
    && (r.indicators.value[0] == SQL_DATA_AT_EXEC
      || (r.data.Some? && r.length <= |r.data.value| && r.indicators.value[0] <= r.length))
    && Size(strLen, r.length - Filled(r)) <= |bytes|
  }

  function Filled(r: Record): int
    requires r.indicators.Some? && r.indicators.value != []
  {
    if r.indicators.value[0] == SQL_DATA_AT_EXEC then 0 else r.indicators.value[0]
  }

  function Append(r: Record, memory: nat -> Byte, bytes: seq<Byte>, strLen: int): Record
    requires MayAppend(r, bytes, strLen)
  {
    var offset := Filled(r);
    var starts := r.indicators.value[0] == SQL_DATA_AT_EXEC;
    var buffer: seq<Byte> := if starts then Contents(r.length, memory) else r.data.value;
    var size := Size(strLen, r.length - offset);
    r.(data := Some(Landed(buffer, offset, bytes[..size])), indicators := Some(r.indicators.value[0 := offset + size]))
  }

  predicate FillsUp(r: Record, strLen: int)
    requires r.indicators.Some? && r.indicators.value != []
  {
    strLen < 0 || strLen >= r.length - Filled(r)
  }

  /** Several sets: every piece is the value of one set, and goes to the cell of that set. */
  predicate MayPutCell(r: Record, j: nat, n: nat, allocate: bool, bytes: seq<Byte>, strLen: int) {
    && r.indicators.Some? && j < n <= |r.indicators.value|
    && (allocate || (r.data.Some? && j * r.length + r.length <= |r.data.value|))
    && Size(strLen, r.length) <= |bytes|
  }

  function PutCell(r: Record, j: nat, n: nat, allocate: bool, memory: nat -> Byte, bytes: seq<Byte>, strLen: int)
    : Record
    requires MayPutCell(r, j, n, allocate, bytes, strLen)
  {
    CellFits(j, n, r.length);
    var buffer: seq<Byte> := if allocate then Contents(n * r.length, memory) else r.data.value;
    var start, size := j * r.length, Size(strLen, r.length);
    r.(data := Some(Splice(buffer, start, bytes[..size])), indicators := Some(r.indicators.value[j := size]))
  }

  lemma {:induction false} CellFits(j: nat, n: nat, length: nat)
    requires j < n
    ensures j * length + length <= n * length
    decreases n
  {
    assert n * length == (n - 1) * length + length;
    if j + 1 < n {
      CellFits(j, n - 1, length);
    }
  }

  // ---------------------------------------------------------------- the descriptor

  datatype Params = Params(records: seq<Record>, count: nat, arraySize: nat, pooled: nat,
                           paramsetIdx: nat, curParamsetIdx: nat, curParamIdx: nat, rowsProcessed: Option<nat>)

  /** Whether the piece of the current set makes the driver allocate the cells of the parameter. */
  predicate Allocates(p: Params)
    requires p.curParamIdx < |p.records| && p.records[p.curParamIdx].indicators.Some?
    requires p.curParamsetIdx < |p.records[p.curParamIdx].indicators.value|
  {
    p.records[p.curParamIdx].indicators.value[p.curParamsetIdx] == SQL_DATA_AT_EXEC && p.pooled == 0
  }

  predicate MayPut(p: Params, bytes: seq<Byte>, strLen: int) {
    p.curParamIdx < p.count ==>
      p.curParamIdx < |p.records| &&
      var r := p.records[p.curParamIdx];
      if !r.inPieces then strLen == SQL_NULL_DATA ==> r.indicators.Some? && r.indicators.value != []
      else if p.arraySize == 1 then MayAppend(r, bytes, strLen)
      else
        && r.indicators.Some? && p.curParamsetIdx < |r.indicators.value|
        && MayPutCell(r, p.curParamsetIdx, p.arraySize, Allocates(p), bytes, strLen)
  }

  /** SQLPutData. */
  function Put(p: Params, memory: nat -> Byte, bytes: seq<Byte>, strLen: int): Params
    requires MayPut(p, bytes, strLen)
  {
    if p.curParamIdx >= p.count then p
    else
      var r := p.records[p.curParamIdx];
      if !r.inPieces then
        p.(records := p.records[p.curParamIdx := Point(r, bytes, strLen)], curParamIdx := p.curParamIdx + 1)
      else if p.arraySize == 1 then
        p.(records := p.records[p.curParamIdx := Append(r, memory, bytes, strLen)],
           pooled := p.pooled + if r.indicators.value[0] == SQL_DATA_AT_EXEC then 1 else 0,
           curParamIdx := p.curParamIdx + if FillsUp(r, strLen) then 1 else 0)
      else
        var j := p.curParamsetIdx;
        var last := j + 1 >= p.arraySize;
        p.(records := p.records[p.curParamIdx := PutCell(r, j, p.arraySize, Allocates(p), memory, bytes, strLen)],
           pooled := p.pooled + if Allocates(p) then 1 else 0,
           curParamsetIdx := if last then 0 else j + 1,
           curParamIdx := p.curParamIdx + if last then 1 else 0)
  }

  /** Closing a statement: the sets start over, and no parameter takes pieces any more. */
  function Restarted(p: Params): Params {
    p.(count := 0, pooled := 0, paramsetIdx := 0, curParamsetIdx := 0, curParamIdx := 0)
  }

  ghost predicate AllReadable(records: seq<Record>, j: nat) {
    forall i | 0 <= i < |records| :: records[i].Readable(j)
  }

  /** The values of the records from `i` on in set `j`, or why there are none. */
  datatype Values = NoValues | ValuesNeedData | AllValues(values: seq<Value>)

  function ValuesFrom(records: seq<Record>, i: nat, j: nat): Values
    requires i <= |records| && AllReadable(records, j)
    decreases |records| - i
  {
    if i == |records| then AllValues([])
    else
      match ValueAt(records[i], j)
      case Failed => NoValues
      case NeedData => ValuesNeedData
      case Got(v) =>
        var later := ValuesFrom(records, i + 1, j);
        if later.AllValues? then AllValues([v] + later.values) else later
  }
}

/** What one call of SQLGetData, or one bound column, returns of a variable-length value. */
module ValueParts {
  import opened Common
  import opened FetchSpec

  /** A signed buffer length as the unsigned size it is compared and subtracted as. */
  function AsSize(bufferLength: int): (size: nat)
    requires -SIZE_T_RANGE < bufferLength < SIZE_T_RANGE
  {
    if bufferLength < 0 then bufferLength + SIZE_T_RANGE else bufferLength
  }

  /** A size as the signed length that is reported for it. */
  function AsLength(size: nat): int {
    if size < SIZE_T_RANGE / 2 then size else size - SIZE_T_RANGE
  }

  /** A value no larger than memory can be. */
  predicate Fits(value: seq<Byte>) {
    |value| < SIZE_T_RANGE / 2
  }

  type Value = v: seq<Byte> | Fits(v)

  /** The outcome of one call: return code, indicator and piece, and the progress after it. */
  datatype Part = Part(ret: SqlReturn, indicator: Option<int>, piece: seq<Byte>, done: nat)

  /** What is left of a value, as the difference of two sizes; of an empty value with progress that is a huge size. */
  function Remaining(value: seq<Byte>, done: nat): (n: nat)
    ensures done <= |value| && Fits(value) ==> n == |value| - done
  {
    (|value| - done) % SIZE_T_RANGE
  }

  /** The bytes from an offset on, and if they do not all belong to the value, what memory holds there. */
  function Copied(value: seq<Byte>, memory: nat -> Byte, from: nat, n: nat): (bytes: seq<Byte>)
    ensures |bytes| == n
  {
    if from + n <= |value| then value[from..from + n] else seq<Byte>(n, i requires 0 <= i < n => memory(from + i))
  }

  /** A call with room for `space` bytes, or none for the terminator, when `done` bytes were returned before. */
  function NextPart(value: seq<Byte>, memory: nat -> Byte, done: nat, space: Option<nat>): Part {
    if value != [] && done >= |value| then Part(SqlNoData, None, [], done)
    else if space == None then Part(SqlError, None, [], done)
    else
      var left := Remaining(value, done);
      var out := Min(left, space.value);
      Part(if out < left then SqlSuccessWithInfo else SqlSuccess, Some(AsLength(left)),
           Copied(value, memory, done, out), (done + out) % SIZE_T_RANGE)
  }

  /** What is copied belongs to the value, except when an empty value is met with progress and there is room. */
  lemma StaysInsideExactlyWhen(value: seq<Byte>, memory: nat -> Byte, done: nat, space: nat)
    requires Fits(value) && done < SIZE_T_RANGE && NextPart(value, memory, done, Some(space)).ret != SqlNoData
    ensures var part := NextPart(value, memory, done, Some(space));
      (part.piece == [] || done + |part.piece| <= |value|) <==> value != [] || done == 0 || space == 0
  {
  }

  /** An empty value met with progress: the indicator is the negated progress, more data is announced, and memory
      behind the value is copied as far as the buffer reaches. */
  lemma EmptyValueWithProgress(memory: nat -> Byte, done: nat, space: nat)
    requires 1 <= done < SIZE_T_RANGE / 2 && space < SIZE_T_RANGE - done
    ensures NextPart([], memory, done, Some(space)) ==
      Part(SqlSuccessWithInfo, Some(0 - (done as int)), Copied([], memory, done, space), done + space)
    ensures forall i | 0 <= i < space :: Copied([], memory, done, space)[i] == memory(done + i)
  {
    assert 0 - (done as int) + SIZE_T_RANGE == Remaining([], done);
  }

  /** A call with the progress of its own value: sizes do not wrap, and nothing but the value is copied. */
  lemma OwnProgress(value: seq<Byte>, memory: nat -> Byte, done: nat, space: nat)
    requires Fits(value) && done <= |value|
    ensures NextPart(value, memory, done, Some(space)) ==
      if value != [] && done == |value| then Part(SqlNoData, None, [], done)
      else
        var out := Min(|value| - done, space);
        Part(if done + out < |value| then SqlSuccessWithInfo else SqlSuccess,
             Some(|value| - done), value[done..done + out], done + out)
  {
  }

  function Terminator(charSize: nat, nullTerminate: bool): nat {
    if nullTerminate then charSize else 0
  }

  /** The room a buffer length leaves for data, if it has room for the terminator. */
  function Space(bufferLength: int, term: nat): Option<nat>
    requires -SIZE_T_RANGE < bufferLength < SIZE_T_RANGE
  {
    if AsSize(bufferLength) < term then None else Some(AsSize(bufferLength) - term)
  }

  function RoomOr0(space: Option<nat>): nat {
    if space.Some? then space.value else 0
  }

  /** The room for data, in the application's terms: what the buffer has beyond a terminator of one or two bytes, all of
      it for binary data, and for a negative length more than any value needs. */
  lemma RoomForData(bufferLength: int)
    requires -SIZE_T_RANGE < 2 * bufferLength < SIZE_T_RANGE
    ensures 1 <= bufferLength ==> Space(bufferLength, Terminator(1, true)) == Some(bufferLength - 1)
    ensures 2 <= bufferLength ==> Space(bufferLength, Terminator(2, true)) == Some(bufferLength - 2)
    ensures bufferLength == 0
      ==> Space(bufferLength, Terminator(1, true)) == Space(bufferLength, Terminator(2, true)) == None
    ensures bufferLength == 1 ==> Space(bufferLength, Terminator(2, true)) == None
    ensures 0 <= bufferLength ==> Space(bufferLength, Terminator(1, false)) == Some(bufferLength)
    ensures bufferLength < 0 ==> forall charSize, terminate | 1 <= charSize <= 2 ::
      SIZE_T_RANGE / 2 - 2 < RoomOr0(Space(bufferLength, Terminator(charSize, terminate)))
  {
  }

  /** What an application sees of one column of a row, if it is bound at all. */
  datatype Cell = Skipped | Cell(ret: SqlReturn, indicator: Option<int>, piece: seq<Byte>)

  /** One call for a value that is not NULL: the progress kept for the next one, and what is seen. */
  function ReadValue(last: LastRead, col: int, row: int, value: seq<Byte>, memory: nat -> Byte, space: Option<nat>,
                     hasTarget: bool, hasIndicator: bool): (LastRead, Cell)
  {
    var own := Resumed(last, col, row);
    var part := NextPart(value, memory, own.length, space);
    var indicator := if hasIndicator then part.indicator else None;
    if part.indicator == None then (own, Cell(part.ret, None, []))
    else if hasTarget then (own.(length := part.done), Cell(part.ret, indicator, part.piece))
    else (own, Cell(if hasIndicator then SqlSuccess else SqlError, indicator, []))
  }

  lemma ReadValueWhole(last: LastRead, col: int, row: int, value: seq<Byte>, memory: nat -> Byte, space: Option<nat>,
                       hasTarget: bool, hasIndicator: bool)
    ensures
      var own := Resumed(last, col, row);
      var left := Remaining(value, own.length);
      var indicator := if hasIndicator then Some(AsLength(left)) else None;
      ReadValue(last, col, row, value, memory, space, hasTarget, hasIndicator) ==
        if value != [] && own.length >= |value| then (own, Cell(SqlNoData, None, []))
        else if space == None then (own, Cell(SqlError, None, []))
        else if !hasTarget then (own, Cell(if hasIndicator then SqlSuccess else SqlError, indicator, []))
        else
          var out := Min(left, space.value);
          (own.(length := (own.length + out) % SIZE_T_RANGE),
           Cell(if out < left then SqlSuccessWithInfo else SqlSuccess, indicator,
                Copied(value, memory, own.length, out)))
  {
    hide Remaining, Copied, AsLength;
  }

  /** Asking for the length alone returns what is left of the value and takes nothing of it. */
  lemma LengthOnlyTakesNothing(last: LastRead, col: int, row: int, value: seq<Byte>, memory: nat -> Byte, space: nat,
                               hasIndicator: bool)
    requires Fits(value) && Resumed(last, col, row).length <= |value|
    ensures
      var done := Resumed(last, col, row).length;
      var (after, cell) := ReadValue(last, col, row, value, memory, Some(space), false, hasIndicator);
      && after == LastRead(col, row, done)
      && cell == if value != [] && done == |value| then Cell(SqlNoData, None, [])
                 else if hasIndicator then Cell(SqlSuccess, Some(|value| - done), [])
                 else Cell(SqlError, None, [])
  {
    ReadValueWhole(last, col, row, value, memory, Some(space), false, hasIndicator);
    hide ReadValue;
  }
}

/** Data sent piece by piece, and read back as the values of the parameter sets. */
module ParameterRuns {
  import opened Common
  import opened ParameterSpec

  ghost function PutAll(p: Params, memory: nat -> Byte, pieces: seq<seq<Byte>>): Params {
    if pieces == [] then p
    else
      var before, piece := PutAll(p, memory, pieces[..|pieces| - 1]), pieces[|pieces| - 1];
      if MayPut(before, piece, |piece|) then Put(before, memory, piece, |piece|) else before
  }

  function Cut(bytes: seq<Byte>, length: nat): seq<Byte> {
    bytes[..Min(|bytes|, length)]
  }

  /** Text whose length a 32-bit integer does not keep is not read whole. */
  lemma TextIsWholeExactlyWhen(memory: seq<Byte>, n: nat)
    requires n <= |memory| && ToInt32(n) != SQL_NTS
    ensures TextReadable(memory, n) && (Text(memory, n) == memory[..n] <==> n < 0x8000_0000)
  {
  }

  // ---------------------------------------------------------------- one set: pieces follow each other

  ghost function Joined(pieces: seq<seq<Byte>>): seq<Byte> {
    if pieces == [] then [] else Joined(pieces[..|pieces| - 1]) + pieces[|pieces| - 1]
  }

  ghost predicate AwaitsData(p: Params) {
    && p.curParamIdx < p.count <= |p.records|
    && var r := p.records[p.curParamIdx];
      r.inPieces && r.indicators.Some? && r.indicators.value != [] && r.indicators.value[0] == SQL_DATA_AT_EXEC
  }

  /** Pieces change what a parameter holds and nothing else. */
  ghost predicate SameShape(after: Record, r: Record) {
    after.(data := r.data, indicators := r.indicators) == r
  }

  ghost predicate Holds(r: Record, text: seq<Byte>) {
    && r.Bound() && r.indicators.value != [] && |r.data.value| == r.length
    && r.indicators.value[0] == |text| && |text| <= r.length && r.data.value[..|text|] == text
  }

  /** One more piece behind what the buffer holds, or the first one. */
  lemma AppendHolds(r: Record, memory: nat -> Byte, text: seq<Byte>, piece: seq<Byte>)
    requires r.indicators.Some? && r.indicators.value != []
    requires if r.indicators.value[0] == SQL_DATA_AT_EXEC then text == [] else Holds(r, text) && |text| < r.length
    ensures MayAppend(r, piece, |piece|) && (FillsUp(r, |piece|) <==> |text + piece| >= r.length)
    ensures var after := Append(r, memory, piece, |piece|);
      Holds(after, Cut(text + piece, r.length)) && SameShape(after, r)
  {
    var after := Append(r, memory, piece, |piece|);
    var n := Size(|piece|, r.length - |text|);
    assert after.data.value[..|text| + n] == text + piece[..n];
  }

  lemma AppendNext(r: Record, memory: nat -> Byte, text: seq<Byte>, piece: seq<Byte>)
    requires Holds(r, Cut(text, r.length)) && |text| < r.length
    ensures r.indicators.Some? && r.indicators.value != [] && r.indicators.value[0] != SQL_DATA_AT_EXEC
    ensures MayAppend(r, piece, |piece|) && (FillsUp(r, |piece|) <==> |text + piece| >= r.length)
    ensures var after := Append(r, memory, piece, |piece|);
      Holds(after, Cut(text + piece, r.length)) && SameShape(after, r)
  {
    hide Append, MayAppend, FillsUp;
    AppendHolds(r, memory, text, piece);
  }

  /** The pieces of a value are joined and cut to the length of the parameter, and the next parameter
      is the current one exactly when the buffer is full. */
  lemma {:induction false} PiecesAreJoined(p: Params, memory: nat -> Byte, pieces: seq<seq<Byte>>)
    requires p.arraySize == 1 && AwaitsData(p) && pieces != []
    requires |Joined(pieces[..|pieces| - 1])| < p.records[p.curParamIdx].length || |pieces| == 1
    ensures
      var r, after, text := p.records[p.curParamIdx], PutAll(p, memory, pieces), Joined(pieces);
      && |after.records| == |p.records| && Holds(after.records[p.curParamIdx], Cut(text, r.length))
      && SameShape(after.records[p.curParamIdx], r)
      && after.records == p.records[p.curParamIdx := after.records[p.curParamIdx]]
      && after == p.(records := after.records, pooled := p.pooled + 1,
                     curParamIdx := p.curParamIdx + if |text| >= r.length then 1 else 0)
    decreases |pieces|
  {
    hide Append, MayAppend, FillsUp, Holds, Joined, PutCell, MayPutCell;
    var earlier, piece := pieces[..|pieces| - 1], pieces[|pieces| - 1];
    var r := p.records[p.curParamIdx];
    JoinedStep(pieces);
    if earlier == [] {
      AppendHolds(r, memory, [], piece);
    } else {
      JoinedStep(earlier);
      PiecesAreJoined(p, memory, earlier);
      var before := PutAll(p, memory, earlier);
      AppendNext(before.records[p.curParamIdx], memory, Joined(earlier), piece);
    }
  }

  /** A parameter marked with SQL_LEN_DATA_AT_EXEC gets no buffer from the driver: the first piece goes in front of the
      application's, loses as many bytes as the mark is below zero, and only the rest arrives. */
  lemma LengthMarkLosesFirstBytes(p: Params, memory: nat -> Byte, n: nat, piece: seq<Byte>)
    requires p.arraySize == 1 && p.curParamIdx < p.count <= |p.records|
    requires var r := p.records[p.curParamIdx];
      && r.inPieces && r.Bound() && r.indicators.value != [] && |r.data.value| == r.length
      && r.indicators.value[0] == SQL_LEN_DATA_AT_EXEC_OFFSET - n
    ensures MayPut(p, piece, |piece|)
    ensures var r, lost := p.records[p.curParamIdx], n - SQL_LEN_DATA_AT_EXEC_OFFSET;
      var after := Put(p, memory, piece, |piece|);
      && after.pooled == p.pooled
      && if |piece| < lost then after.records[p.curParamIdx].data == r.data
         else Holds(after.records[p.curParamIdx], Cut(piece[lost..], r.length))
  {
    var r, lost := p.records[p.curParamIdx], n - SQL_LEN_DATA_AT_EXEC_OFFSET;
    if lost <= |piece| {
      var size := Size(|piece|, r.length + lost);
      assert piece[..size][lost..] == Cut(piece[lost..], r.length);
    }
  }

  lemma JoinedStep(pieces: seq<seq<Byte>>)
    requires pieces != []
    ensures Joined(pieces) == Joined(pieces[..|pieces| - 1]) + pieces[|pieces| - 1] && Joined([]) == []
  {
  }

  lemma HeldReadsBack(r: Record, text: seq<Byte>)
    requires Holds(r, text) && (r.kind.Character? || r.kind.Binary?) && ToInt32(|text|) != SQL_NTS
    ensures r.Readable(0) && (ValueAt(r, 0) == Got(Sent(r, text)) <==> r.kind.Binary? || |text| < 0x8000_0000)
  {
    var memory := r.data.value;
    TextIsWholeExactlyWhen(memory, |text|);
    assert memory[0 * r.Stride()..] == memory && memory[0 * r.Stride()..0 * r.Stride() + |text|] == memory[..|text|];
    hide Text, TextReadable, ToInt32;
  }

  /** Main result for a single set: the value that is read is the joined pieces cut to the length, exactly when
      the text is binary or its length fits in 32 bits. */
  lemma DataReadsBack(p: Params, memory: nat -> Byte, pieces: seq<seq<Byte>>)
    requires p.arraySize == 1 && AwaitsData(p) && pieces != []
    requires p.records[p.curParamIdx].kind.Character? || p.records[p.curParamIdx].kind.Binary?
    requires |Joined(pieces[..|pieces| - 1])| < p.records[p.curParamIdx].length || |pieces| == 1
    requires ToInt32(|Cut(Joined(pieces), p.records[p.curParamIdx].length)|) != SQL_NTS
    ensures
      var r, after := p.records[p.curParamIdx], PutAll(p, memory, pieces);
      var text := Cut(Joined(pieces), r.length);
      && p.curParamIdx < |after.records| && after.records[p.curParamIdx].Readable(0)
      && (ValueAt(after.records[p.curParamIdx], 0) == Got(Sent(r, text)) <==> r.kind.Binary? || |text| < 0x8000_0000)
  {
    hide Record.Readable, ValueAt, PutAll, Holds, ToInt32;
    PiecesAreJoined(p, memory, pieces);
    HeldReadsBack(PutAll(p, memory, pieces).records[p.curParamIdx],
      Cut(Joined(pieces), p.records[p.curParamIdx].length));
  }

  /** A parameter of another application type has its value after the piece exactly when that is NULL: otherwise
      the mark that asks for data stays, and the statement asks again however often it is executed. */
  lemma PlainPieceArrivesExactlyWhenNull(p: Params, memory: nat -> Byte, bytes: seq<Byte>, strLen: int)
    requires p.curParamIdx < p.count <= |p.records| && !p.records[p.curParamIdx].inPieces
    requires var r := p.records[p.curParamIdx];
      r.indicators.Some? && r.indicators.value != [] && r.indicators.value[0] == SQL_DATA_AT_EXEC
    ensures MayPut(p, bytes, strLen)
    ensures var after := Put(p, memory, bytes, strLen);
      && |after.records| == |p.records|
      && after == p.(records := p.records[p.curParamIdx := after.records[p.curParamIdx]],
         curParamIdx := p.curParamIdx + 1)
    ensures var r := Put(p, memory, bytes, strLen).records[p.curParamIdx];
      && r.Readable(0)
      && (strLen != SQL_NULL_DATA ==> ValueAt(r, 0) == NeedData && r.data == Some(bytes))
      && (strLen == SQL_NULL_DATA <==> ValueAt(r, 0) == Got(Null))
  {
  }

  /** After the statement is closed the sets start over, and no parameter takes a piece until it is bound again. */
  lemma RestartedTakesNothing(p: Params, memory: nat -> Byte, pieces: seq<seq<Byte>>)
    ensures PutAll(Restarted(p), memory, pieces) == Restarted(p)
    ensures Restarted(p).records == p.records && Restarted(p).paramsetIdx == 0
  {
  }

  // ---------------------------------------------------------------- several sets: every piece has its cell

  /** The first `k` cells hold the first `k` pieces. */
  ghost predicate CellsHold(r: Record, n: nat, pieces: seq<seq<Byte>>, k: nat)
    requires k <= |pieces| && k <= n
  {
    && r.Bound() && n <= |r.indicators.value| && |r.data.value| == n * r.length
    && forall j | 0 <= j < k :: CellHolds(r, n, j, Cut(pieces[j], r.length))
  }

  ghost predicate CellHolds(r: Record, n: nat, j: nat, text: seq<Byte>)
    requires r.Bound() && j < n <= |r.indicators.value| && |r.data.value| == n * r.length
  {
    CellFits(j, n, r.length);
    r.indicators.value[j] == |text| && |text| <= r.length && r.data.value[j * r.length..j * r.length + |text|] == text
  }

  lemma {:induction false} CellsApart(i: nat, j: nat, length: nat)
    requires i < j
    ensures i * length + length <= j * length
    decreases j
  {
    assert (j - 1) * length == j * length - length;
    if i + 1 < j {
      CellsApart(i, j - 1, length);
    }
  }

  lemma SpliceKeeps(buffer: seq<Byte>, at: nat, bytes: seq<Byte>, start: nat, end: nat)
    requires start <= end <= at && at + |bytes| <= |buffer|
    ensures Splice(buffer, at, bytes)[at..at + |bytes|] == bytes
    ensures Splice(buffer, at, bytes)[start..end] == buffer[start..end]
  {
  }

  lemma CellStays(r: Record, n: nat, k: nat, j: nat, text: seq<Byte>, other: seq<Byte>)
    requires j < k < n && r.Bound() && n <= |r.indicators.value| && |r.data.value| == n * r.length && |text| <= r.length
    requires CellHolds(r, n, j, other) && k * r.length + |text| <= n * r.length
    ensures
      var data, indicators := Splice(r.data.value, k * r.length, text), r.indicators.value[k := |text|];
      CellHolds(r.(data := Some(data), indicators := Some(indicators)), n, j, other)
  {
    CellsApart(j, k, r.length);
    CellFits(j, n, r.length);
    SpliceKeeps(r.data.value, k * r.length, text, j * r.length, j * r.length + |other|);
    hide Splice;
  }

  /** The next piece goes to the next cell, and leaves the others as they are. */
  lemma PutCellHolds(r: Record, n: nat, k: nat, memory: nat -> Byte, pieces: seq<seq<Byte>>)
    requires k < |pieces| && k < n && r.indicators.Some? && n <= |r.indicators.value|
    requires k != 0 ==> CellsHold(r, n, pieces, k)
    ensures MayPutCell(r, k, n, k == 0, pieces[k], |pieces[k]|)
    ensures var after := PutCell(r, k, n, k == 0, memory, pieces[k], |pieces[k]|);
      && CellsHold(after, n, pieces, k + 1) && SameShape(after, r)
      && |after.indicators.value| == |r.indicators.value|
  {
    CellFits(k, n, r.length);
    var after := PutCell(r, k, n, k == 0, memory, pieces[k], |pieces[k]|);
    var buffer: seq<Byte> := if k == 0 then Contents(n * r.length, memory) else r.data.value;
    var at, text := k * r.length, Cut(pieces[k], r.length);
    assert after == r.(data := Some(Splice(buffer, at, text)), indicators := Some(r.indicators.value[k := |text|]));
    hide Splice, PutCell, Cut;
    SpliceKeeps(buffer, at, text, 0, 0);
    forall j | 0 <= j < k ensures CellHolds(after, n, j, Cut(pieces[j], r.length)) {
      CellStays(r, n, k, j, text, Cut(pieces[j], r.length));
    }
  }

  lemma {:induction false} PiecesFillCells(p: Params, memory: nat -> Byte, pieces: seq<seq<Byte>>)
    requires 2 <= p.arraySize && AwaitsData(p) && p.pooled == 0 && p.curParamsetIdx == 0
    requires p.arraySize <= |p.records[p.curParamIdx].indicators.value| && 1 <= |pieces| <= p.arraySize
    ensures
      var r, after, k := p.records[p.curParamIdx], PutAll(p, memory, pieces), |pieces|;
      && |after.records| == |p.records| && CellsHold(after.records[p.curParamIdx], p.arraySize, pieces, k)
      && SameShape(after.records[p.curParamIdx], r)
      && after.records == p.records[p.curParamIdx := after.records[p.curParamIdx]]
      && after == p.(records := after.records, pooled := 1, curParamsetIdx := if k < p.arraySize then k else 0,
                     curParamIdx := p.curParamIdx + if k < p.arraySize then 0 else 1)
    decreases |pieces|
  {
    hide PutCell, MayPutCell, CellsHold, Append, MayAppend, FillsUp, Size;
    var k := |pieces| - 1;
    var earlier := pieces[..k];
    if k == 0 {
      PutCellHolds(p.records[p.curParamIdx], p.arraySize, 0, memory, pieces);
    } else {
      PiecesFillCells(p, memory, earlier);
      var before := PutAll(p, memory, earlier).records[p.curParamIdx];
      CellsGrow(before, p.arraySize, earlier, pieces, k);
      PutCellHolds(before, p.arraySize, k, memory, pieces);
    }
  }

  lemma CellsGrow(r: Record, n: nat, earlier: seq<seq<Byte>>, pieces: seq<seq<Byte>>, k: nat)
    requires k <= |pieces| && k <= n && earlier == pieces[..k] && CellsHold(r, n, earlier, k)
    ensures CellsHold(r, n, pieces, k) && r.Bound() && n <= |r.indicators.value|
  {
  }

  /** Set `j` is read back as the piece that was put for it. */
  ghost predicate ReadsBack(r: Record, j: nat, text: seq<Byte>) {
    r.Readable(j) && ValueAt(r, j) == Got(Sent(r, text))
  }

  lemma CellReadsBack(r: Record, n: nat, j: nat, text: seq<Byte>)
    requires r.Bound() && j < n <= |r.indicators.value| && |r.data.value| == n * r.length
    requires CellHolds(r, n, j, text) && (r.kind.Character? || r.kind.Binary?)
    requires r.octetLength <= r.length < 0x8000_0000
    ensures ReadsBack(r, j, text)
  {
    CellFits(j, n, r.length);
    var start := j * r.length;
    var memory := r.data.value[start..];
    assert memory[..|text|] == r.data.value[start..start + |text|];
    TextIsWholeExactlyWhen(memory, |text|);
    hide Text, TextReadable, ToInt32;
  }

  /** With a longer octet length the last set starts too far behind for a piece that fills its cell. */
  lemma LastCellReadsBeyond(r: Record, n: nat, text: seq<Byte>)
    requires 2 <= n && r.Bound() && n <= |r.indicators.value| && |r.data.value| == n * r.length
    requires CellHolds(r, n, n - 1, text) && (r.kind.Character? || r.kind.Binary?) && |text| == r.length
    requires 1 <= r.length < 0x8000_0000 && r.length < r.octetLength
    ensures !r.Readable(n - 1)
  {
    StrideReachesBeyond(n, r.length, r.Stride());
    hide TextReadable;
  }

  lemma StrideReachesBeyond(n: nat, length: nat, stride: nat)
    requires 2 <= n && length < stride
    ensures n * length < (n - 1) * stride + length
  {
    assert (n - 1) * stride == (n - 1) * length + (n - 1) * (stride - length);
    assert (n - 1) * (stride - length) >= 1;
    assert n * length == (n - 1) * length + length;
  }

  ghost predicate AllReadBack(p: Params, memory: nat -> Byte, pieces: seq<seq<Byte>>) {
    var after := PutAll(p, memory, pieces);
    p.curParamIdx < |after.records| && p.curParamIdx < |p.records| &&
    forall j | 0 <= j < |pieces| ::
      ReadsBack(after.records[p.curParamIdx], j, Cut(pieces[j], p.records[p.curParamIdx].length))
  }

  /** Main result for several sets: every piece is read back for its own set, whatever the pieces are, exactly
      when the octet length is not longer than the parameter. */
  lemma CellsReadBackExactlyWhen(p: Params, memory: nat -> Byte)
    requires 2 <= p.arraySize && AwaitsData(p) && p.pooled == 0 && p.curParamsetIdx == 0
    requires p.arraySize <= |p.records[p.curParamIdx].indicators.value|
    requires p.records[p.curParamIdx].kind.Character? || p.records[p.curParamIdx].kind.Binary?
    requires 1 <= p.records[p.curParamIdx].length < 0x8000_0000
    ensures (forall pieces: seq<seq<Byte>> | |pieces| == p.arraySize :: AllReadBack(p, memory, pieces))
      <==> p.records[p.curParamIdx].octetLength <= p.records[p.curParamIdx].length
  {
    hide PutAll, CellHolds, ValueAt, Record.Readable;
    var r, n := p.records[p.curParamIdx], p.arraySize;
    if r.octetLength <= r.length {
      forall pieces: seq<seq<Byte>> | |pieces| == n ensures AllReadBack(p, memory, pieces) {
        CellsReadBack(p, memory, pieces);
      }
    } else {
      var pieces := seq(n, _ => seq<Byte>(r.length, _ => 0));
      PiecesFillCells(p, memory, pieces);
      var after := PutAll(p, memory, pieces).records[p.curParamIdx];
      assert Cut(pieces[n - 1], r.length) == pieces[n - 1];
      assert CellHolds(after, n, n - 1, Cut(pieces[n - 1], r.length));
      LastCellReadsBeyond(after, n, pieces[n - 1]);
      assert !ReadsBack(after, n - 1, Cut(pieces[n - 1], r.length));
      assert !AllReadBack(p, memory, pieces);
    }
  }

  lemma CellsReadBack(p: Params, memory: nat -> Byte, pieces: seq<seq<Byte>>)
    requires 2 <= p.arraySize == |pieces| && AwaitsData(p) && p.pooled == 0 && p.curParamsetIdx == 0
    requires p.arraySize <= |p.records[p.curParamIdx].indicators.value|
    requires p.records[p.curParamIdx].kind.Character? || p.records[p.curParamIdx].kind.Binary?
    requires p.records[p.curParamIdx].octetLength <= p.records[p.curParamIdx].length < 0x8000_0000
    ensures AllReadBack(p, memory, pieces)
  {
    hide PutAll;
    PiecesFillCells(p, memory, pieces);
    var after := PutAll(p, memory, pieces).records[p.curParamIdx];
    forall j | 0 <= j < |pieces| ensures ReadsBack(after, j, Cut(pieces[j], after.length)) {
      CellReadsBack(after, p.arraySize, j, Cut(pieces[j], after.length));
    }
  }
}

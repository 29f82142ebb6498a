/** The diagnostics of a handle as the driver keeps them: records that change in place, and the index vector. */
module Diagnostics {
  import opened Common
  import opened DiagnosticsSpec

  class DiagRecord {
    var messageText: string
    var stackMsgOffset: seq<nat>

    ghost function View(): Record
      reads this
    {
      Record(messageText, stackMsgOffset)
    }

    constructor (msg: string)
      requires msg != ""
      ensures View() == Record(msg, [0]) && View().Readable()
    {
      messageText, stackMsgOffset := msg, [0];
    }

    constructor Copy(other: DiagRecord)
      ensures View() == other.View()
    {
      messageText, stackMsgOffset := other.messageText, other.stackMsgOffset;
    }

    method ClearStackMsgOffset()
      modifies this
      ensures View() == old(View().Clear())
    {
      while stackMsgOffset != [] && stackMsgOffset[|stackMsgOffset| - 1] != 0
        invariant Cleared(stackMsgOffset) == old(Cleared(stackMsgOffset)) && messageText == old(messageText)
        decreases |stackMsgOffset|
      {
        stackMsgOffset := stackMsgOffset[..|stackMsgOffset| - 1];
      }
    }

    /** The text from the last offset on; remembers where the next read starts, or starts over. */
    method GetMessage(buffLength: nat) returns (msg: string)
      requires View().Readable()
      modifies this
      ensures msg == old(View().Rest()) && View() == old(View().Read(buffLength))
    {
      var lastOffset := stackMsgOffset[|stackMsgOffset| - 1];
      var newOffset := lastOffset + buffLength;
      if newOffset >= |messageText| {
        ClearStackMsgOffset();
      } else {
        stackMsgOffset := stackMsgOffset + [newOffset];
      }
      msg := messageText[lastOffset..];
    }

    /** Replaces the text, and reads it from the start. */
    method SetMessage(newMsg: string)
      requires newMsg != "" && View().Readable()
      modifies this
      ensures View() == old(View().Clear()).(text := newMsg) && View().Readable() && View().Top() == 0
    {
      ClearedStack(stackMsgOffset);
      messageText := newMsg;
      ClearStackMsgOffset();
    }
  }

  class OdbcDiagnostic {
    var diagRecords: seq<DiagRecord>
    var vecRecordIdx: seq<nat>

    ghost function View(): Diag
      reads this, diagRecords
    {
      Diag(seq(|diagRecords|, i requires 0 <= i < |diagRecords| reads this, diagRecords => diagRecords[i].View()),
        vecRecordIdx)
    }

    ghost predicate Valid()
      reads this, diagRecords
    {
      && (forall i, j | 0 <= i < j < |diagRecords| :: diagRecords[i] != diagRecords[j])
      && View().Valid()
    }

    constructor ()
      ensures Valid() && View() == Diag([], [])
    {
      diagRecords, vecRecordIdx := [], [];
    }

    method Clean()
      modifies this
      ensures Valid() && View() == Diag([], [])
    {
      diagRecords, vecRecordIdx := [], [];
    }

    /** Adds a copy behind all the records, also when some of them were read in pieces. */
    method AddDiagRecord(diagRecord: DiagRecord)
      requires Valid() && diagRecord.View().Readable() && |diagRecords| <= SMALLINT_MAX
      modifies this
      ensures Valid()
      ensures View() == Diag(old(View().records) + [diagRecord.View()], old(View().index) + [old(|diagRecords|)])
    {
      var recIdx := |diagRecords|;
      var copy := new DiagRecord.Copy(diagRecord);
      ghost var before := View();
      diagRecords := diagRecords + [copy];
      vecRecordIdx := vecRecordIdx + [recIdx];
      assert View().records == before.records + [diagRecord.View()];
      AddedCovers(before.index, recIdx);
    }

    method AddNewRecIdx(recIdx: nat)
      requires Valid() && recIdx < |vecRecordIdx|
      modifies this`vecRecordIdx
      ensures Valid() && View() == old(View()).Repeated(recIdx)
    {
      ghost var before := View();
      RepeatedKeepsCovers(before, recIdx);
      var originIdx := vecRecordIdx[recIdx];
      vecRecordIdx := vecRecordIdx[..recIdx + 1] + [originIdx] + vecRecordIdx[recIdx + 1..];
      assert View().records == before.records;
    }

    /** Looks a record up; looking the first one up rebuilds the index and starts every message over. */
    method GetDiagRecord(recIdx: nat) returns (diagRecord: DiagRecord)
      requires Valid() && recIdx < |vecRecordIdx|
      modifies this`vecRecordIdx, diagRecords
      ensures Valid() && View() == old(View()).Lookup(recIdx) && recIdx < |vecRecordIdx|
      ensures vecRecordIdx[recIdx] < |diagRecords| && diagRecord == diagRecords[vecRecordIdx[recIdx]]
    {
      LookupKeepsValid(View(), recIdx);
      var originIdx := vecRecordIdx[recIdx];
      diagRecord := diagRecords[originIdx];
      if recIdx == 0 {
        vecRecordIdx := [];
        for i := 0 to |diagRecords|
          invariant vecRecordIdx == Range(0, i)
          invariant forall k | 0 <= k < i :: diagRecords[k].View() == old(diagRecords[k].View().Clear())
          invariant forall k | i <= k < |diagRecords| :: diagRecords[k].View() == old(diagRecords[k].View())
        {
          vecRecordIdx := vecRecordIdx + [i];
          diagRecords[i].ClearStackMsgOffset();
        }
        assert View() == old(View()).Reset();
      }
    }
  }

  lemma AddedCovers(index: seq<nat>, n: nat)
    requires Covers(index, n)
    ensures Covers(index + [n], n + 1)
  {
    forall i | 0 <= i < n + 1 ensures i in index + [n] {
      assert i < n ==> i in index;
    }
  }

  /** SQLGetDiagRec, narrow form: the text handed to the application's buffer, and the length reported for it. */
  method GetDiagRecInternal(diag: OdbcDiagnostic, recNumber: int, hasText: bool, bufferLength: int, hasLength: bool)
    returns (answer: Answer)
    requires diag.Valid() && -0x8000 <= bufferLength <= SMALLINT_MAX
    modifies diag`vecRecordIdx, diag.diagRecords
    ensures diag.Valid()
    ensures (diag.View(), answer) == Call(old(diag.View()), recNumber, hasText, bufferLength, hasLength)
  {
    hide Covers, Record.Readable, Diag.Reset, Record.Clear;
    if recNumber <= 0 {
      return Message("Record number is less than 1", hasText);
    }
    if bufferLength < 0 {
      return Message("Buffer length is negative", hasText);
    }
    if recNumber > |diag.vecRecordIdx| {
      return Answer(NO_DATA, "", 0);
    }
    var recIdx := recNumber - 1;
    var diagRecord := diag.GetDiagRecord(recIdx);
    ghost var found := diag.View();
    assert found.records[found.index[recIdx]] == diagRecord.View();
    ghost var place := found.index[recIdx];
    ghost var read := found.(records := found.records[place := found.records[place].Read(bufferLength)]);
    assert ReadAt(found, recIdx, false, bufferLength, false).0 == read;
    var msg := diagRecord.GetMessage(bufferLength);
    assert diag.View().records == read.records;
    hide Cleared, Record.Read, Record.Rest, Diag.Lookup;
    if !hasText {
      return Answer(SUCCESS_WITH_INFO, msg, if |msg| <= SMALLINT_MAX then |msg| else SMALLINT_MAX);
    }
    var length := ToSmallInt(|msg|);
    if hasLength {
      var remainingChars := ToSmallInt(length - bufferLength);
      if remainingChars > 0 {
        diag.AddNewRecIdx(recIdx);
        return Answer(SUCCESS_WITH_INFO, msg, length);
      }
    }
    answer := Answer(SUCCESS, msg, length);
  }
}

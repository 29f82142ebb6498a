/** The diagnostic records of a handle, and reading them call by call with SQLGetDiagRec.

    A message that does not fit is read in pieces. Two structures remember how far the application
    came: every record keeps a stack of offsets, and the index vector of the handle repeats the
    record, so that the next record number leads to it again. */
module DiagnosticsSpec {
  import opened Common

  datatype Record = Record(text: string, offsets: seq<nat>)
  {
    /** Where the next read starts; the last element is the top of the stack. */
    ghost predicate Readable() {
      text != "" && offsets != [] && offsets[0] == 0 && offsets[|offsets| - 1] < |text|
    }

    function Top(): nat
      requires Readable()
    {
      offsets[|offsets| - 1]
    }

    function Rest(): string
      requires Readable()
    {
      text[Top()..]
    }

    function Clear(): Record {
      this.(offsets := Cleared(offsets))
    }

    function Read(bufferLength: nat): (r: Record)
      requires Readable()
      ensures r.Readable()
    {
      ClearedStack(offsets);
      if Top() + bufferLength >= |text| then Clear() else this.(offsets := offsets + [Top() + bufferLength])
    }
  }

  /** Pops until an offset of zero is on top. */
  function Cleared(offsets: seq<nat>): seq<nat> {
    if offsets == [] || offsets[|offsets| - 1] == 0 then offsets else Cleared(offsets[..|offsets| - 1])
  }

  lemma {:induction false} ClearedStack(offsets: seq<nat>)
    requires offsets != [] && offsets[0] == 0
    ensures var c := Cleared(offsets); c != [] && c <= offsets && c[|c| - 1] == 0
    ensures (forall k | 1 <= k < |offsets| :: 0 < offsets[k]) ==> Cleared(offsets) == [0]
  {
    if offsets[|offsets| - 1] != 0 {
      ClearedStack(offsets[..|offsets| - 1]);
    }
  }

  datatype Code = SUCCESS | SUCCESS_WITH_INFO | NO_DATA
  datatype Answer = Answer(code: Code, text: string, length: int)

  /** The numbers `i..n`. */
  function Range(i: nat, n: nat): (r: seq<nat>)
    requires i <= n
    ensures |r| == n - i && forall k | 0 <= k < n - i :: r[k] == i + k
  {
    seq(n - i, k requires 0 <= k < n - i => i + k)
  }

  datatype Diag = Diag(records: seq<Record>, index: seq<nat>)
  {
    /** Between calls the index is sorted and leads to every record, and every record has something to read. */
    ghost predicate Valid() {
      && |records| <= SMALLINT_MAX + 1
      && (forall i | 0 <= i < |records| :: records[i].Readable())
      && Covers(index, |records|)
    }

    function Reset(): Diag {
      Diag(seq(|records|, i requires 0 <= i < |records| => records[i].Clear()), Range(0, |records|))
    }

    /** Asking for the first record forgets what was read. */
    function Lookup(recIdx: nat): Diag {
      if recIdx == 0 then Reset() else this
    }

    function Repeated(recIdx: nat): Diag
      requires recIdx < |index|
    {
      this.(index := index[..recIdx + 1] + [index[recIdx]] + index[recIdx + 1..])
    }
  }

  ghost predicate Covers(index: seq<nat>, n: nat) {
    && (forall a, b | 0 <= a <= b < |index| :: index[a] <= index[b])
    && (forall a | 0 <= a < |index| :: index[a] < n)
    && (forall i | 0 <= i < n :: i in index)
  }

  /** What is left after filling the buffer, as a small integer, decides whether the record is repeated. */
  predicate Repeats(remaining: int, bufferLength: int) {
    0 < ToSmallInt(ToSmallInt(remaining) - bufferLength)
  }

  lemma LookupKeepsValid(d: Diag, recIdx: nat)
    requires d.Valid() && recIdx < |d.index|
    ensures d.Lookup(recIdx).Valid() && recIdx < |d.Lookup(recIdx).index|
    ensures d.index[recIdx] < |d.records| && d.Lookup(recIdx).index[recIdx] == d.index[recIdx]
  {
    if recIdx == 0 {
      assert 0 in d.index;
      forall i | 0 <= i < |d.records| ensures d.Reset().records[i].Readable() {
        ClearedStack(d.records[i].offsets);
      }
      forall i | 0 <= i < |d.records| ensures i in d.Reset().index {
        assert d.Reset().index[i] == i;
      }
    }
  }

  lemma RepeatedKeepsCovers(d: Diag, recIdx: nat)
    requires recIdx < |d.index| && Covers(d.index, |d.records|)
    ensures Covers(d.Repeated(recIdx).index, |d.records|)
  {
    var index, after := d.index, d.Repeated(recIdx).index;
    assert forall a | 0 <= a < |after| :: after[a] == index[if a <= recIdx then a else a - 1];
    forall a, b | 0 <= a <= b < |after| ensures after[a] <= after[b] {
      assert index[if a <= recIdx then a else a - 1] <= index[if b <= recIdx then b else b - 1];
    }
    forall i | 0 <= i < |d.records| ensures i in after {
      assert i in index;
      var a :| 0 <= a < |index| && index[a] == i;
      assert after[if a <= recIdx then a else a + 1] == i;
    }
  }

  /** One call of SQLGetDiagRec: the state after it, and what the application is told. */
  function Call(d: Diag, recNumber: int, hasText: bool, bufferLength: int, hasLength: bool): (r: (Diag, Answer))
    requires d.Valid() && -0x8000 <= bufferLength <= SMALLINT_MAX
    ensures r.0.Valid() && |r.0.records| == |d.records|
  {
    if recNumber <= 0 then (d, Message("Record number is less than 1", hasText))
    else if bufferLength < 0 then (d, Message("Buffer length is negative", hasText))
    else if recNumber > |d.index| then (d, Answer(NO_DATA, "", 0))
    else
      LookupKeepsValid(d, recNumber - 1);
      ReadAt(d.Lookup(recNumber - 1), recNumber - 1, hasText, bufferLength, hasLength)
  }

  function Message(text: string, hasText: bool): Answer {
    Answer(SUCCESS, text, if hasText then |text| else 0)
  }

  function ReadAt(d: Diag, recIdx: nat, hasText: bool, bufferLength: nat, hasLength: bool): (r: (Diag, Answer))
    requires d.Valid() && recIdx < |d.index|
    ensures r.0.Valid() && |r.0.records| == |d.records|
  {
    var record := d.records[d.index[recIdx]];
    var text := record.Rest();
    var read := d.(records := d.records[d.index[recIdx] := record.Read(bufferLength)]);
    if !hasText then (read, Answer(SUCCESS_WITH_INFO, text, if |text| <= SMALLINT_MAX then |text| else SMALLINT_MAX))
    else if hasLength && Repeats(|text|, bufferLength) then
      RepeatedKeepsCovers(read, recIdx);
      (read.Repeated(recIdx), Answer(SUCCESS_WITH_INFO, text, ToSmallInt(|text|)))
    else (read, Answer(SUCCESS, text, ToSmallInt(|text|)))
  }
}

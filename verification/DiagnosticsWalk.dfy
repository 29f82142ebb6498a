/** Reading all the diagnostics: record numbers 1, 2, 3 and so on until there is no more data. */
module DiagnosticsWalk {
  import opened Common
  import Multiples
  import opened DiagnosticsSpec

  // ---------------------------------------------------------------- the pieces of one record

  /** The pieces of a message from an offset on, as long as the index vector keeps leading to it. */
  function PiecesFrom(text: string, from: nat, bufferLength: nat): (pieces: seq<string>)
    requires from < |text| && 1 <= bufferLength <= SMALLINT_MAX
    decreases |text| - from
  {
    [text[from..]] +
    if Repeats(|text| - from, bufferLength) then
      RepeatsOnlyTruncated(|text| - from, bufferLength);
      PiecesFrom(text, from + bufferLength, bufferLength)
    else []
  }

  lemma RepeatsOnlyTruncated(remaining: nat, bufferLength: nat)
    requires bufferLength <= SMALLINT_MAX && Repeats(remaining, bufferLength)
    ensures bufferLength < remaining
  {
  }

  lemma RepeatsWhen(remaining: nat, bufferLength: nat)
    requires bufferLength <= SMALLINT_MAX
    ensures Repeats(remaining, bufferLength) ==> bufferLength < remaining
    ensures remaining <= SMALLINT_MAX + bufferLength
      ==> (Repeats(remaining, bufferLength) <==> bufferLength < remaining)
    ensures SMALLINT_MAX + bufferLength < remaining <= SMALLINT_MAX + 2 * bufferLength
      ==> !Repeats(remaining, bufferLength)
  {
  }

  /** An offset is pushed exactly when the record is repeated, unless what remains is too large for a small integer. */
  lemma PushesExactlyWhenRepeats(r: Record, bufferLength: nat)
    requires r.Readable() && bufferLength <= SMALLINT_MAX
    ensures var remaining := |r.Rest()|;
      (|r.Read(bufferLength).offsets| == |r.offsets| + 1 <==> Repeats(remaining, bufferLength))
      <==> remaining <= bufferLength || 0 < (remaining - bufferLength) % 0x1_0000 < 0x8000
  {
    RepeatsInPlainTerms(|r.Rest()|, bufferLength);
    hide Repeats;
    ClearedStack(r.offsets);
  }

  lemma RepeatsInPlainTerms(remaining: nat, bufferLength: nat)
    requires bufferLength <= SMALLINT_MAX
    ensures Repeats(remaining, bufferLength) <==> 0 < (remaining - bufferLength) % 0x1_0000 < 0x8000
    ensures remaining <= bufferLength ==> !Repeats(remaining, bufferLength)
  {
  }

  lemma {:induction false} PieceStarts(text: string, from: nat, bufferLength: nat, j: nat)
    requires from < |text| && 1 <= bufferLength <= SMALLINT_MAX && j < |PiecesFrom(text, from, bufferLength)|
    ensures from + j * bufferLength < |text|
    ensures PiecesFrom(text, from, bufferLength)[j] == text[from + j * bufferLength..]
    decreases j
  {
    hide Repeats;
    if j != 0 {
      RepeatsOnlyTruncated(|text| - from, bufferLength);
      PieceStarts(text, from + bufferLength, bufferLength, j - 1);
      assert from + bufferLength + (j - 1) * bufferLength == from + j * bufferLength;
    }
  }

  lemma {:induction false} PiecesCoverExactlyWhen(text: string, from: nat, bufferLength: nat)
    requires from < |text| && 1 <= bufferLength <= SMALLINT_MAX
    ensures |PiecesFrom(text, from, bufferLength)| <= Multiples.Pieces(|text| - from, bufferLength)
    ensures |text| - from <= SMALLINT_MAX + bufferLength
      ==> |PiecesFrom(text, from, bufferLength)| == Multiples.Pieces(|text| - from, bufferLength)
    ensures |PiecesFrom(text, from, bufferLength)| == Multiples.Pieces(|text| - from, bufferLength)
      ==> |text| - from <= SMALLINT_MAX + bufferLength
    decreases |text| - from
  {
    var remaining := |text| - from;
    Multiples.OnePieceLess(remaining, bufferLength);
    RepeatsWhen(remaining, bufferLength);
    hide Repeats, Multiples.Pieces;
    if Repeats(remaining, bufferLength) {
      PiecesCoverExactlyWhen(text, from + bufferLength, bufferLength);
    }
  }

  // ---------------------------------------------------------------- the whole walk

  datatype Log = Log(answers: seq<Answer>, final: Diag)

  /** The answers that record numbers `n`, `n + 1` and so on give until there is no more data, as far as record numbers
      go. */
  function Walk(d: Diag, n: nat, bufferLength: nat): Log
    requires d.Valid() && bufferLength <= SMALLINT_MAX
    decreases SMALLINT_MAX - n
  {
    if SMALLINT_MAX < n then Log([], d)
    else
      var (after, answer) := Call(d, n, true, bufferLength, true);
      if answer.code == NO_DATA then Log([], after)
      else
        var log := Walk(after, n + 1, bufferLength);
        Log([answer] + log.answers, log.final)
  }

  datatype Reading = Reading(answers: seq<Answer>, records: seq<Record>, origins: seq<nat>)

  ghost predicate AllReadable(records: seq<Record>) {
    forall k | 0 <= k < |records| :: records[k].Readable()
  }

  /** Reading record `i` until it is not repeated any more, and then the later ones. */
  ghost function ReadOn(records: seq<Record>, i: nat, bufferLength: nat): Reading
    requires AllReadable(records) && i <= |records| && 1 <= bufferLength <= SMALLINT_MAX
    decreases |records| - i, if i < |records| then |records[i].text| - records[i].Top() else 0
  {
    if i == |records| then Reading([], records, [])
    else
      var r := records[i];
      var after := records[i := r.Read(bufferLength)];
      var later :=
        if Repeats(|r.Rest()|, bufferLength) then
          RepeatsOnlyTruncated(|r.Rest()|, bufferLength);
          ReadOn(after, i, bufferLength)
        else ReadOn(after, i + 1, bufferLength);
      Reading([PieceAnswer(r.Rest(), bufferLength)] + later.answers, later.records, [i] + later.origins)
  }

  /** What a call of the walk answers: the unread text, its length in 16 bits, and whether the record is repeated. */
  function PieceAnswer(text: string, bufferLength: nat): Answer {
    Answer(if Repeats(|text|, bufferLength) then SUCCESS_WITH_INFO else SUCCESS, text, ToSmallInt(|text|))
  }

  /** After `m` calls the index vector leads to record `i` next, and to the later ones after it, which are unread. */
  ghost predicate At(d: Diag, m: nat, i: nat) {
    && d.Valid() && i <= |d.records| && m <= |d.index| && d.index[m..] == Range(i, |d.records|)
    && (m == 0 ==> d == d.Reset())
  }

  /** One call of the walk: it shows the next piece, and leads on to the same record or to the one behind it. */
  lemma StepAt(d: Diag, m: nat, i: nat, bufferLength: nat) returns (after: Diag)
    requires At(d, m, i) && bufferLength <= SMALLINT_MAX && i < |d.records|
    ensures var r := d.records[i];
      && Call(d, m + 1, true, bufferLength, true).0 == after
      && Call(d, m + 1, true, bufferLength, true).1 == PieceAnswer(r.Rest(), bufferLength)
      && after.records == d.records[i := r.Read(bufferLength)]
      && after.index[..m + 1] == d.index[..m] + [i]
      && At(after, m + 1, if Repeats(|r.Rest()|, bufferLength) then i else i + 1)
  {
    hide Cleared, Record.Read, Record.Rest, Record.Readable, Repeats, Covers;
    after := Call(d, m + 1, true, bufferLength, true).0;
    assert d.index[m] == d.index[m..][0] == i;
    assert d.index[m + 1..] == d.index[m..][1..] == Range(i + 1, |d.records|);
    LookupKeepsValid(d, m);
    if Repeats(|d.records[i].Rest()|, bufferLength) {
      assert after.index == d.index[..m + 1] + [i] + d.index[m + 1..];
      assert after.index[m + 1..] == [i] + Range(i + 1, |d.records|) == Range(i, |d.records|);
    }
  }

  /** As many of the answers as there are record numbers left after `m` calls. */
  ghost function Reachable(answers: seq<Answer>, m: nat): (s: seq<Answer>)
    requires m <= SMALLINT_MAX
    ensures m + |answers| <= SMALLINT_MAX ==> s == answers
  {
    if m + |answers| <= SMALLINT_MAX then answers else answers[..SMALLINT_MAX - m]
  }

  lemma ReachableStep(answer: Answer, later: seq<Answer>, m: nat)
    requires m < SMALLINT_MAX
    ensures Reachable([answer] + later, m) == [answer] + Reachable(later, m + 1)
  {
  }

  ghost predicate WalkGives(d: Diag, m: nat, bufferLength: nat, reading: Reading)
    requires d.Valid() && m <= |d.index| && 1 <= bufferLength <= SMALLINT_MAX && m <= SMALLINT_MAX
  {
    var log := Walk(d, m + 1, bufferLength);
    && log.answers == Reachable(reading.answers, m)
    && (m + |reading.answers| <= SMALLINT_MAX ==> log.final == Diag(reading.records, d.index[..m] + reading.origins))
  }

  lemma WalkEnds(d: Diag, m: nat, bufferLength: nat)
    requires d.Valid() && m == |d.index| && bufferLength <= SMALLINT_MAX
    ensures Walk(d, m + 1, bufferLength) == Log([], d)
  {
  }

  lemma WalkStops(d: Diag, bufferLength: nat)
    requires d.Valid() && bufferLength <= SMALLINT_MAX
    ensures Walk(d, SMALLINT_MAX + 1, bufferLength) == Log([], d)
  {
  }

  lemma WalkGoesOn(d: Diag, m: nat, bufferLength: nat)
    requires d.Valid() && m < SMALLINT_MAX && bufferLength <= SMALLINT_MAX
    requires Call(d, m + 1, true, bufferLength, true).1.code != NO_DATA
    ensures var (after, answer) := Call(d, m + 1, true, bufferLength, true);
      var later := Walk(after, m + 2, bufferLength);
      Walk(d, m + 1, bufferLength) == Log([answer] + later.answers, later.final)
  {
    hide Call;
  }

  lemma {:induction false} WalkFrom(d: Diag, m: nat, i: nat, bufferLength: nat)
    requires At(d, m, i) && 1 <= bufferLength <= SMALLINT_MAX && m <= SMALLINT_MAX
    ensures WalkGives(d, m, bufferLength, ReadOn(d.records, i, bufferLength))
    decreases SMALLINT_MAX - m
  {
    hide Call, Walk, Repeats, Range, Diag.Reset, Covers, Record.Read, Record.Rest, Record.Readable;
    if i == |d.records| {
      WalkEnds(d, |d.index|, bufferLength);
    } else if m < SMALLINT_MAX {
      var after := StepAt(d, m, i, bufferLength);
      WalkGoesOn(d, m, bufferLength);
      var next := if Repeats(|d.records[i].Rest()|, bufferLength) then i else i + 1;
      WalkFrom(after, m + 1, next, bufferLength);
      var later := ReadOn(after.records, next, bufferLength);
      ReachableStep(PieceAnswer(d.records[i].Rest(), bufferLength), later.answers, m);
      Regroup(d.index[..m], [i], later.origins);
    } else {
      WalkStops(d, bufferLength);
      assert ReadOn(d.records, i, bufferLength).answers != [];
    }
  }

  // ---------------------------------------------------------------- record by record

  /** A record after its last read. */
  ghost function ReadOut(r: Record, bufferLength: nat): (after: Record)
    requires r.Readable() && 1 <= bufferLength <= SMALLINT_MAX
    ensures after.Readable() && after.text == r.text
    decreases |r.text| - r.Top()
  {
    if Repeats(|r.Rest()|, bufferLength) then
      RepeatsOnlyTruncated(|r.Rest()|, bufferLength);
      ReadOut(r.Read(bufferLength), bufferLength)
    else r.Read(bufferLength)
  }

  /** The offset goes back to zero exactly when all of the message was read. */
  lemma {:induction false} ReadOutRewindsExactlyWhen(r: Record, bufferLength: nat)
    requires r.Readable() && 1 <= bufferLength <= SMALLINT_MAX
    ensures ReadOut(r, bufferLength).Top() == 0 <==> |r.Rest()| <= SMALLINT_MAX + bufferLength
    decreases |r.text| - r.Top()
  {
    RepeatsWhen(|r.Rest()|, bufferLength);
    hide Repeats;
    if Repeats(|r.Rest()|, bufferLength) {
      ReadOutRewindsExactlyWhen(r.Read(bufferLength), bufferLength);
    } else {
      ClearedStack(r.offsets);
    }
  }

  function Copies(n: nat, x: nat): (s: seq<nat>)
    ensures |s| == n
  {
    if n == 0 then [] else [x] + Copies(n - 1, x)
  }

  /** What is read, and where the next read of the record starts if it is repeated. */
  lemma PlaceMoves(r: Record, bufferLength: nat)
    requires r.Readable() && bufferLength <= SMALLINT_MAX
    ensures r.Rest() == r.text[r.Top()..] && r.Read(bufferLength).text == r.text
    ensures Repeats(|r.Rest()|, bufferLength) ==> r.Read(bufferLength).Top() == r.Top() + bufferLength < |r.text|
  {
    RepeatsWhen(|r.Rest()|, bufferLength);
    hide Repeats;
    ClearedStack(r.offsets);
  }

  /** The answers for the pieces of one message: more is announced behind every piece but the last. */
  ghost function Answers(pieces: seq<string>): (answers: seq<Answer>)
    ensures |answers| == |pieces|
  {
    seq(|pieces|, j requires 0 <= j < |pieces| =>
      Answer(if j + 1 < |pieces| then SUCCESS_WITH_INFO else SUCCESS, pieces[j], ToSmallInt(|pieces[j]|)))
  }

  lemma AnswersStep(piece: string, later: seq<string>, bufferLength: nat)
    requires Repeats(|piece|, bufferLength) <==> later != []
    ensures Answers([piece] + later) == [PieceAnswer(piece, bufferLength)] + Answers(later)
  {
    hide Repeats;
  }

  lemma {:induction false} ReadRecord(records: seq<Record>, i: nat, bufferLength: nat)
    requires AllReadable(records) && i < |records| && 1 <= bufferLength <= SMALLINT_MAX
    ensures
      var r, now := records[i], ReadOn(records, i, bufferLength);
      var pieces := PiecesFrom(r.text, r.Top(), bufferLength);
      var later := ReadOn(records[i := ReadOut(r, bufferLength)], i + 1, bufferLength);
      now == Reading(Answers(pieces) + later.answers, later.records, Copies(|pieces|, i) + later.origins)
    decreases |records[i].text| - records[i].Top()
  {
    hide Repeats, Cleared, Record.Read, Record.Rest, Answers, PieceAnswer;
    var r := records[i];
    var after := records[i := r.Read(bufferLength)];
    var first := PieceAnswer(r.Rest(), bufferLength);
    PlaceMoves(r, bufferLength);
    if Repeats(|r.Rest()|, bufferLength) {
      RepeatsWhen(|r.Rest()|, bufferLength);
      ReadRecord(after, i, bufferLength);
      var out := ReadOut(r, bufferLength);
      assert after[i := out] == records[i := out];
      var pieces := PiecesFrom(r.text, r.Read(bufferLength).Top(), bufferLength);
      var later := ReadOn(records[i := out], i + 1, bufferLength);
      assert PiecesFrom(r.text, r.Top(), bufferLength) == [r.Rest()] + pieces;
      AnswersStep(r.Rest(), pieces, bufferLength);
      assert ReadOn(after, i, bufferLength)
        == Reading(Answers(pieces) + later.answers, later.records, Copies(|pieces|, i) + later.origins);
      assert ReadOn(records, i, bufferLength)
        == Reading([first] + (Answers(pieces) + later.answers), later.records,
          [i] + (Copies(|pieces|, i) + later.origins));
      assert Copies(|[r.Rest()] + pieces|, i) == [i] + Copies(|pieces|, i);
      hide *;
      Regroup([first], Answers(pieces), later.answers);
      Regroup([i], Copies(|pieces|, i), later.origins);
    } else {
      AnswersStep(r.Rest(), [], bufferLength);
      NoAnswers();
      assert PiecesFrom(r.text, r.Top(), bufferLength) == [r.Rest()] == [r.Rest()] + [];
      assert Copies(1, i) == [i];
      assert ReadOut(r, bufferLength) == r.Read(bufferLength);
    }
  }

  lemma NoAnswers()
    ensures Answers([]) == []
  {
  }

  /** The pieces of all the messages from record `i` on, one message after the other. */
  ghost function AllPieces(records: seq<Record>, i: nat, bufferLength: nat): seq<string>
    requires AllReadable(records) && i <= |records| && 1 <= bufferLength <= SMALLINT_MAX
    decreases |records| - i
  {
    if i == |records| then []
    else PiecesFrom(records[i].text, 0, bufferLength) + AllPieces(records, i + 1, bufferLength)
  }

  /** The answers for all of them. */
  ghost function AllAnswers(records: seq<Record>, i: nat, bufferLength: nat): seq<Answer>
    requires AllReadable(records) && i <= |records| && 1 <= bufferLength <= SMALLINT_MAX
    decreases |records| - i
  {
    if i == |records| then []
    else Answers(PiecesFrom(records[i].text, 0, bufferLength)) + AllAnswers(records, i + 1, bufferLength)
  }

  /** They show the pieces. */
  lemma {:induction false} AnswersShowPieces(records: seq<Record>, i: nat, bufferLength: nat)
    requires AllReadable(records) && i <= |records| && 1 <= bufferLength <= SMALLINT_MAX
    ensures var pieces, answers := AllPieces(records, i, bufferLength), AllAnswers(records, i, bufferLength);
      |answers| == |pieces| && forall j | 0 <= j < |pieces| :: answers[j].text == pieces[j]
    decreases |records| - i
  {
    hide PiecesFrom;
    if i < |records| {
      AnswersShowPieces(records, i + 1, bufferLength);
    }
  }

  /** The index vector that leads to each of them. */
  ghost function AllOrigins(records: seq<Record>, i: nat, bufferLength: nat): seq<nat>
    requires AllReadable(records) && i <= |records| && 1 <= bufferLength <= SMALLINT_MAX
    decreases |records| - i
  {
    if i == |records| then []
    else Copies(|PiecesFrom(records[i].text, 0, bufferLength)|, i) + AllOrigins(records, i + 1, bufferLength)
  }

  lemma {:induction false} OnlyLaterMatter(a: seq<Record>, b: seq<Record>, i: nat, bufferLength: nat)
    requires AllReadable(a) && AllReadable(b) && |a| == |b| && i <= |a| && 1 <= bufferLength <= SMALLINT_MAX
    requires forall k | i <= k < |a| :: a[k].text == b[k].text
    ensures AllAnswers(a, i, bufferLength) == AllAnswers(b, i, bufferLength)
    ensures AllPieces(a, i, bufferLength) == AllPieces(b, i, bufferLength)
    ensures AllOrigins(a, i, bufferLength) == AllOrigins(b, i, bufferLength)
    decreases |a| - i
  {
    if i < |a| {
      OnlyLaterMatter(a, b, i + 1, bufferLength);
    }
  }

  lemma {:induction false} ReadAll(records: seq<Record>, i: nat, bufferLength: nat)
    requires AllReadable(records) && i <= |records| && 1 <= bufferLength <= SMALLINT_MAX
    requires forall k | i <= k < |records| :: records[k].Top() == 0
    ensures
      var reading := ReadOn(records, i, bufferLength);
      && reading.answers == AllAnswers(records, i, bufferLength)
      && reading.origins == AllOrigins(records, i, bufferLength)
      && |reading.records| == |records|
      && forall k | 0 <= k < |records| ::
         reading.records[k] == if k < i then records[k] else ReadOut(records[k], bufferLength)
    decreases |records| - i
  {
    if i < |records| {
      var after := records[i := ReadOut(records[i], bufferLength)];
      hide ReadOn, ReadOut, PiecesFrom, Copies, Answers;
      ReadRecord(records, i, bufferLength);
      ReadAll(after, i + 1, bufferLength);
      OnlyLaterMatter(records, after, i + 1, bufferLength);
      var reading := ReadOn(records, i, bufferLength);
      forall k | 0 <= k < |records|
        ensures reading.records[k] == if k < i then records[k] else ReadOut(records[k], bufferLength)
      {
        hide *;
        assert reading.records[k] == if k < i + 1 then after[k] else ReadOut(after[k], bufferLength);
      }
    }
  }

  lemma WalkStartsOver(d: Diag, bufferLength: nat)
    requires d.Valid() && bufferLength <= SMALLINT_MAX
    ensures At(d.Reset(), 0, 0) && forall k | 0 <= k < |d.records| :: d.Reset().records[k].Top() == 0
    ensures |d.records| != 0 ==> Walk(d, 1, bufferLength) == Walk(d.Reset(), 1, bufferLength)
    ensures |d.records| == 0 ==> d == Diag([], [])
  {
    assert d.index != [] ==> d.index[0] < |d.records|;
    if |d.records| != 0 {
      assert 0 in d.index;
      LookupKeepsValid(d, 0);
      forall k | 0 <= k < |d.records|
        ensures d.Reset().records[k].Top() == 0 && d.Reset().records[k].Clear() == d.Reset().records[k]
      {
        ClearedStack(d.records[k].offsets);
      }
      assert d.Reset().Reset() == d.Reset();
      assert Call(d, 1, true, bufferLength, true) == Call(d.Reset(), 1, true, bufferLength, true);
    }
  }

  /** Main result: whatever was read before, the walk shows the pieces of every message in order, as far as record
      numbers go, with success for the last piece of each and more announced before; at its end the index vector leads
      to each piece, and an offset is back at zero exactly when its message is at most the buffer longer than a small
      integer can say. */
  lemma WalkReadsRecordsInOrder(d: Diag, bufferLength: nat)
    requires d.Valid() && 1 <= bufferLength <= SMALLINT_MAX
    ensures
      var log, answers := Walk(d, 1, bufferLength), AllAnswers(d.records, 0, bufferLength);
      && log.answers == Reachable(answers, 0)
      && (|answers| <= SMALLINT_MAX ==>
        && log.final.Valid() && log.final.index == AllOrigins(d.records, 0, bufferLength)
        && |log.final.records| == |d.records|
        && forall k | 0 <= k < |d.records| ::
          && log.final.records[k].text == d.records[k].text
          && (log.final.records[k].Top() == 0 <==> |d.records[k].text| <= SMALLINT_MAX + bufferLength))
  {
    hide Call, Walk, ReadOn, AllPieces, AllAnswers, AllOrigins, ReadOut, Reachable, Repeats, Cleared, Covers;
    WalkStartsOver(d, bufferLength);
    var start := d.Reset();
    WalkFrom(start, 0, 0, bufferLength);
    ReadAll(start.records, 0, bufferLength);
    OnlyLaterMatter(start.records, d.records, 0, bufferLength);
    WalkKeepsValid(d, 1, bufferLength);
    forall k | 0 <= k < |d.records|
      ensures ReadOut(start.records[k], bufferLength).Top() == 0 <==> |d.records[k].text| <= SMALLINT_MAX + bufferLength
    {
      ReadOutRewindsExactlyWhen(start.records[k], bufferLength);
    }
  }

  lemma {:induction false} WalkKeepsValid(d: Diag, n: nat, bufferLength: nat)
    requires d.Valid() && bufferLength <= SMALLINT_MAX
    ensures Walk(d, n, bufferLength).final.Valid()
    decreases SMALLINT_MAX - n
  {
    if n <= SMALLINT_MAX {
      WalkKeepsValid(Call(d, n, true, bufferLength, true).0, n + 1, bufferLength);
    }
  }

  /** The calls it takes to read everything. */
  ghost function CallsNeeded(records: seq<Record>, i: nat, bufferLength: nat): nat
    requires i <= |records| && 1 <= bufferLength
    decreases |records| - i
  {
    if i == |records| then 0
    else Multiples.Pieces(|records[i].text|, bufferLength) + CallsNeeded(records, i + 1, bufferLength)
  }

  /** Main result: the walk takes as many calls as the messages need exactly when no message is too long. */
  lemma {:induction false} WalkIsCompleteExactlyWhen(records: seq<Record>, i: nat, bufferLength: nat)
    requires AllReadable(records) && i <= |records| && 1 <= bufferLength <= SMALLINT_MAX
    ensures |AllPieces(records, i, bufferLength)| <= CallsNeeded(records, i, bufferLength)
    ensures |AllPieces(records, i, bufferLength)| == CallsNeeded(records, i, bufferLength)
      <==> forall k | i <= k < |records| :: |records[k].text| <= SMALLINT_MAX + bufferLength
    decreases |records| - i
  {
    hide PiecesFrom, Repeats, Multiples.Pieces;
    if i < |records| {
      PiecesCoverExactlyWhen(records[i].text, 0, bufferLength);
      WalkIsCompleteExactlyWhen(records, i + 1, bufferLength);
    }
  }

  function Announced(text: string): Answer {
    Answer(SUCCESS_WITH_INFO, text, ToSmallInt(|text|))
  }

  /** A buffer of no length never gets past the first record. */
  lemma EmptyBufferNeverAdvances(d: Diag)
    requires d.Valid() && 1 <= |d.records| && Repeats(|d.records[0].text|, 0)
    ensures Walk(d, 1, 0).answers == seq(SMALLINT_MAX, _ => Announced(d.records[0].text))
  {
    hide Repeats, Walk;
    WalkStartsOver(d, 0);
    StaysAtFirst(d.Reset(), 0);
  }

  lemma {:induction false} StaysAtFirst(d: Diag, m: nat)
    requires At(d, m, 0) && 1 <= |d.records| && d.records[0].Top() == 0 && Repeats(|d.records[0].text|, 0)
    requires m <= SMALLINT_MAX
    ensures Walk(d, m + 1, 0).answers == seq(SMALLINT_MAX - m, _ => Announced(d.records[0].text))
    decreases SMALLINT_MAX - m
  {
    hide Call, Walk;
    if m < SMALLINT_MAX {
      var after := StepAt(d, m, 0, 0);
      WalkGoesOn(d, m, 0);
      StaysAtFirst(after, m + 1);
    } else {
      WalkStops(d, 0);
    }
  }

  // ---------------------------------------------------------------- the application's buffer

  /** What the buffer holds of the pieces, put together: of a piece that fills it, the terminator takes the
      last place. */
  ghost function Joined(pieces: seq<string>, bufferLength: nat): string
    requires 1 <= bufferLength
  {
    if pieces == [] then ""
    else
      var n := if |pieces[0]| < bufferLength then |pieces[0]| else bufferLength - 1;
      pieces[0][..n] + Joined(pieces[1..], bufferLength)
  }

  lemma JoinedFirst(piece: string, later: seq<string>, bufferLength: nat)
    requires 1 <= bufferLength
    ensures |Joined([piece] + later, bufferLength)|
      == (if |piece| < bufferLength then |piece| else bufferLength - 1) + |Joined(later, bufferLength)|
  {
    assert ([piece] + later)[1..] == later;
  }

  lemma {:induction false} OneLostPerPiece(text: string, from: nat, bufferLength: nat)
    requires from < |text| && 1 <= bufferLength <= SMALLINT_MAX && |text| - from <= SMALLINT_MAX + bufferLength
    ensures |Joined(PiecesFrom(text, from, bufferLength), bufferLength)|
      == |text| - from - (|text| - from) / bufferLength
    decreases |text| - from
  {
    hide Repeats, Joined;
    var remaining := |text| - from;
    RepeatsWhen(remaining, bufferLength);
    Multiples.OneQuotientLess(remaining, bufferLength);
    if bufferLength < remaining {
      OneLostPerPiece(text, from + bufferLength, bufferLength);
      JoinedFirst(text[from..], PiecesFrom(text, from + bufferLength, bufferLength), bufferLength);
    } else {
      JoinedFirst(text[from..], [], bufferLength);
      JoinedNone(bufferLength);
    }
  }

  /** Once a piece fills the buffer, something is lost, also of messages that are too long to be read to their end. */
  lemma {:induction false} JoinedFallsShort(text: string, from: nat, bufferLength: nat)
    requires from < |text| && 1 <= bufferLength <= SMALLINT_MAX
    ensures |Joined(PiecesFrom(text, from, bufferLength), bufferLength)| <= |text| - from
    ensures bufferLength <= |text| - from
      ==> |Joined(PiecesFrom(text, from, bufferLength), bufferLength)| < |text| - from
    decreases |text| - from
  {
    RepeatsWhen(|text| - from, bufferLength);
    hide Repeats, Joined;
    if Repeats(|text| - from, bufferLength) {
      JoinedFallsShort(text, from + bufferLength, bufferLength);
      JoinedFirst(text[from..], PiecesFrom(text, from + bufferLength, bufferLength), bufferLength);
    } else {
      JoinedFirst(text[from..], [], bufferLength);
      JoinedNone(bufferLength);
    }
  }

  lemma JoinedNone(bufferLength: nat)
    requires 1 <= bufferLength
    ensures Joined([], bufferLength) == ""
  {
  }

  /** Putting the pieces together gives the message back exactly when it fits whole. */
  lemma JoinedIsMessageExactlyWhen(text: string, bufferLength: nat)
    requires text != "" && 1 <= bufferLength <= SMALLINT_MAX
    ensures Joined(PiecesFrom(text, 0, bufferLength), bufferLength) == text <==> |text| < bufferLength
  {
    JoinedFallsShort(text, 0, bufferLength);
    RepeatsWhen(|text|, bufferLength);
    hide Repeats;
    if |text| < bufferLength {
      assert Joined(PiecesFrom(text, 0, bufferLength)[1..], bufferLength) == "";
    }
  }

  // ---------------------------------------------------------------- single calls

  /** Of a message that is not too long, more is announced exactly behind the pieces that are longer than the buffer. */
  lemma {:induction false} AnnouncedExactlyWhenCut(text: string, from: nat, bufferLength: nat, j: nat)
    requires from < |text| <= from + SMALLINT_MAX + bufferLength && 1 <= bufferLength <= SMALLINT_MAX
    requires j < |PiecesFrom(text, from, bufferLength)|
    ensures var answer := Answers(PiecesFrom(text, from, bufferLength))[j];
      && |answer.text| <= |text| && answer.text == text[|text| - |answer.text|..]
      && answer.code == if bufferLength < |answer.text| then SUCCESS_WITH_INFO else SUCCESS
    decreases j
  {
    RepeatsWhen(|text| - from, bufferLength);
    PieceStarts(text, from, bufferLength, j);
    hide Repeats, ToSmallInt;
    if j != 0 {
      var later := PiecesFrom(text, from + bufferLength, bufferLength);
      AnnouncedExactlyWhenCut(text, from + bufferLength, bufferLength, j - 1);
      assert PiecesFrom(text, from, bufferLength) == [text[from..]] + later;
      hide PiecesFrom;
    }
  }

  /** Arguments that are no use are answered by a message of their own, a record number behind the last by no data;
      in either case nothing changes. */
  lemma UselessArguments(d: Diag, n: int, hasText: bool, bufferLength: int, hasLength: bool)
    requires d.Valid() && -0x8000 <= bufferLength <= SMALLINT_MAX
    ensures var (after, answer) := Call(d, n, hasText, bufferLength, hasLength);
      && (answer.code == NO_DATA <==> |d.index| < n && 0 < n && 0 <= bufferLength)
      && (n <= 0 || bufferLength < 0 ==> answer.code == SUCCESS && after == d)
      && (n <= 0 ==> answer.text == "Record number is less than 1")
      && (0 < n && bufferLength < 0 ==> answer.text == "Buffer length is negative")
      && (n <= 0 || bufferLength < 0 ==> answer.length == if hasText then |answer.text| else 0)
      && (|d.index| < n ==> after == d)
  {
    hide Repeats, Diag.Reset, Record.Read, Record.Rest, Covers;
  }

  /** Without a pointer for the length no record is repeated, however much of the text is unread. */
  lemma WithoutLengthNothingRepeats(d: Diag, n: nat, bufferLength: nat)
    requires d.Valid() && 1 <= n <= |d.index| && bufferLength <= SMALLINT_MAX
    ensures var (after, answer) := Call(d, n, true, bufferLength, false);
      answer.code == SUCCESS && after.index == d.Lookup(n - 1).index
  {
    LookupKeepsValid(d, n - 1);
    hide Repeats, Diag.Reset, Record.Read, Record.Rest, Covers;
  }

  // ---------------------------------------------------------------- asking for the length alone

  /** Asking for the length alone is answered by that of the unread text, as far as a small integer goes. */
  lemma LengthOnlyTellsUnread(d: Diag, n: nat, bufferLength: nat, hasLength: bool)
    requires d.Valid() && 1 <= n <= |d.index| && bufferLength <= SMALLINT_MAX
    ensures d.Lookup(n - 1).Valid() && n <= |d.Lookup(n - 1).index|
    ensures
      var r := d.Lookup(n - 1).records[d.Lookup(n - 1).index[n - 1]];
      var unread := |r.text| - r.offsets[|r.offsets| - 1];
      Call(d, n, false, bufferLength, hasLength).1
        == Answer(SUCCESS_WITH_INFO, r.text[|r.text| - unread..], if unread < 0x8000 then unread else 0x7FFF)
  {
    LookupKeepsValid(d, n - 1);
    hide Repeats, Diag.Reset, Record.Read, Covers;
  }

  /** Asking for the length of a message without its text repeats no record, and keeps the place in the message
      exactly when the announced buffer is empty, or holds all of a message that nothing was read of. */
  lemma LengthOnlyKeepsPlaceExactlyWhen(d: Diag, n: nat, bufferLength: nat, hasLength: bool)
    requires d.Valid() && 1 <= n <= |d.index| && bufferLength <= SMALLINT_MAX
    ensures d.Lookup(n - 1).Valid() && n <= |d.Lookup(n - 1).index|
    ensures
      var found, after := d.Lookup(n - 1), Call(d, n, false, bufferLength, hasLength).0;
      var i := found.index[n - 1];
      && after.index == found.index && Call(d, n, false, bufferLength, hasLength).1.code == SUCCESS_WITH_INFO
      && (after.records[i].Rest() == found.records[i].Rest()
        <==> if bufferLength < |found.records[i].Rest()| then bufferLength == 0 else found.records[i].Top() == 0)
  {
    LookupKeepsValid(d, n - 1);
    var r := d.Lookup(n - 1).records[d.index[n - 1]];
    ClearedStack(r.offsets);
    PlaceAfterRead(r, bufferLength);
  }

  lemma PlaceAfterRead(r: Record, bufferLength: nat)
    requires r.Readable()
    ensures r.Read(bufferLength).Rest() == r.Rest()
      <==> if bufferLength < |r.Rest()| then bufferLength == 0 else r.Top() == 0
  {
    ClearedStack(r.offsets);
  }
}

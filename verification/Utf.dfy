/** UTF-8 and UTF-16 (RFC 3629 section 3, RFC 2781 sections 2.1 and 2.2), and the unchecked
    and checked conversions of the bundled utf8 library, bit operations written as arithmetic. */
module Utf {
  import opened Common

  type CodeUnit = x: int | 0 <= x < 0x1_0000

  predicate IsLead(u: int) {
    0xD800 <= u <= 0xDBFF
  }

  predicate IsTrail(u: int) {
    0xDC00 <= u <= 0xDFFF
  }

  predicate IsScalar(cp: int) {
    0 <= cp <= 0x10_FFFF && !IsLead(cp) && !IsTrail(cp)
  }

  type Scalar = cp: int | 0 <= cp <= 0x10_FFFF && !(0xD800 <= cp <= 0xDFFF)

  const REPLACEMENT: Scalar := 0xFFFD

  // ---------------------------------------------------------------- the encodings

  /** Appends one code point; the library also calls it on surrogates and on values just above the last code point. */
  function Encode8(cp: int): (bytes: seq<Byte>)
    requires 0 <= cp < 0x20_0000
    ensures 1 <= |bytes| <= 4 && (cp < 0x1_0000 ==> |bytes| <= 3)
  {
    if cp < 0x80 then [cp]
    else if cp < 0x800 then [cp / 0x40 + 0xC0, cp % 0x40 + 0x80]
    else if cp < 0x1_0000 then [cp / 0x1000 + 0xE0, cp / 0x40 % 0x40 + 0x80, cp % 0x40 + 0x80]
    else [cp / 0x4_0000 + 0xF0, cp / 0x1000 % 0x40 + 0x80, cp / 0x40 % 0x40 + 0x80, cp % 0x40 + 0x80]
  }

  function Encode16(cp: Scalar): (units: seq<CodeUnit>)
    ensures 1 <= |units| <= 2
  {
    if cp < 0x1_0000 then [cp] else [cp / 0x400 + 0xD7C0, cp % 0x400 + 0xDC00]
  }

  function Encode8All(cps: seq<Scalar>): seq<Byte> {
    if cps == [] then [] else Encode8(cps[0]) + Encode8All(cps[1..])
  }

  function Encode16All(cps: seq<Scalar>): seq<CodeUnit> {
    if cps == [] then [] else Encode16(cps[0]) + Encode16All(cps[1..])
  }

  // ---------------------------------------------------------------- reading UTF-16

  ghost predicate WellFormed16(s: seq<CodeUnit>) {
    if s == [] then true
    else if IsLead(s[0]) then 2 <= |s| && IsTrail(s[1]) && WellFormed16(s[2..])
    else !IsTrail(s[0]) && WellFormed16(s[1..])
  }

  /** The code point of a pair of units as the library computes it, in 32 bits, whatever the second unit is. */
  function PairCodePoint(lead: CodeUnit, second: CodeUnit): (cp: int)
    requires IsLead(lead)
    ensures 0 <= cp < 0x20_0000
  {
    (lead * 0x400 + second + 0xFCA0_2400) % 0x1_0000_0000
  }

  /** The unchecked conversion: a lead surrogate takes whatever follows it, and is dropped at the end. */
  function Utf16To8(s: seq<CodeUnit>): seq<Byte> {
    if s == [] then []
    else if IsLead(s[0]) then
      if |s| == 1 then [] else Encode8(PairCodePoint(s[0], s[1])) + Utf16To8(s[2..])
    else Encode8(s[0]) + Utf16To8(s[1..])
  }

  ghost function Decode16(s: seq<CodeUnit>): (cps: seq<Scalar>)
    requires WellFormed16(s)
    ensures Encode16All(cps) == s
  {
    if s == [] then []
    else if IsLead(s[0]) then
      PairOfScalar(s[0], s[1]);
      [PairCodePoint(s[0], s[1])] + Decode16(s[2..])
    else [s[0]] + Decode16(s[1..])
  }

  lemma PairOfScalar(lead: CodeUnit, trail: CodeUnit)
    requires IsLead(lead) && IsTrail(trail)
    ensures IsScalar(PairCodePoint(lead, trail)) && Encode16(PairCodePoint(lead, trail)) == [lead, trail]
  {
    assert PairCodePoint(lead, trail) == 0x1_0000 + (lead - 0xD800) * 0x400 + (trail - 0xDC00);
  }

  lemma ScalarOfPair(cp: Scalar)
    requires 0x1_0000 <= cp
    ensures IsLead(Encode16(cp)[0]) && IsTrail(Encode16(cp)[1])
    ensures PairCodePoint(Encode16(cp)[0], Encode16(cp)[1]) == cp
  {
  }

  lemma {:induction false} EncodedIsWellFormed16(cps: seq<Scalar>)
    ensures WellFormed16(Encode16All(cps)) && Utf16To8(Encode16All(cps)) == Encode8All(cps)
  {
    if cps != [] {
      EncodedIsWellFormed16(cps[1..]);
      if 0x1_0000 <= cps[0] {
        ScalarOfPair(cps[0]);
        assert Encode16All(cps)[2..] == Encode16All(cps[1..]);
      } else {
        assert Encode16All(cps)[1..] == Encode16All(cps[1..]);
      }
    }
  }

  lemma ConvertsFront(cp: Scalar, tail: seq<CodeUnit>)
    ensures Utf16To8(Encode16(cp) + tail) == Encode8(cp) + Utf16To8(tail)
  {
    hide Encode8;
    if 0x1_0000 <= cp {
      ScalarOfPair(cp);
      assert (Encode16(cp) + tail)[2..] == tail;
    } else {
      assert (Encode16(cp) + tail)[1..] == tail;
    }
  }

  /** Encoded code points convert back, whatever follows them. */
  lemma {:induction false} ConvertsBehind(cps: seq<Scalar>, rest: seq<CodeUnit>)
    ensures Utf16To8(Encode16All(cps) + rest) == Encode8All(cps) + Utf16To8(rest)
  {
    if cps == [] {
      assert Encode16All(cps) + rest == rest;
    } else {
      hide Encode8, Encode16, Utf16To8;
      ConvertsBehind(cps[1..], rest);
      ConvertsFront(cps[0], Encode16All(cps[1..]) + rest);
      Regroup(Encode16(cps[0]), Encode16All(cps[1..]), rest);
      Regroup(Encode8(cps[0]), Encode8All(cps[1..]), Utf16To8(rest));
    }
  }

  /** No conversion needs more than three bytes per unit, not even of malformed input. */
  lemma {:induction false} ThreeBytesPerUnit(s: seq<CodeUnit>)
    ensures |Utf16To8(s)| <= 3 * |s|
  {
    if s != [] {
      if IsLead(s[0]) {
        if 2 <= |s| {
          ThreeBytesPerUnit(s[2..]);
        }
      } else {
        ThreeBytesPerUnit(s[1..]);
      }
    }
  }

  // ---------------------------------------------------------------- reading UTF-8

  datatype Next =
    | Ok(cp: int, length: nat)
    | NotEnoughRoom | InvalidLead | IncompleteSequence | OverlongSequence | InvalidCodePoint

  predicate IsContinuation(b: Byte) {
    b / 0x40 == 2
  }

  function SequenceLength(lead: Byte): nat {
    if lead < 0x80 then 1
    else if lead / 0x20 == 6 then 2
    else if lead / 0x10 == 0xE then 3
    else if lead / 8 == 0x1E then 4
    else 0
  }

  predicate IsOverlong(cp: int, length: nat) {
    if cp < 0x80 then length != 1
    else if cp < 0x800 then length != 2
    else cp < 0x1_0000 && length != 3
  }

  /** The first problem with the continuation bytes `s[i..n]`, if any. */
  function Continues(s: seq<Byte>, i: nat, n: nat): (err: Next)
    requires i <= n && i <= |s|
    ensures err.Ok? || err.NotEnoughRoom? || err.IncompleteSequence?
    ensures err.Ok? <==> n <= |s| && forall k | i <= k < n :: IsContinuation(s[k])
    decreases n - i
  {
    if i == n then Ok(0, 0)
    else if i == |s| then NotEnoughRoom
    else if !IsContinuation(s[i]) then IncompleteSequence
    else Continues(s, i + 1, n)
  }

  function CodePointOf(s: seq<Byte>, n: nat): int
    requires 1 <= n <= 4 && n <= |s|
  {
    var b0: int := s[0];
    if n == 1 then b0
    else
      var b1: int := s[1];
      if n == 2 then b0 * 0x40 % 0x800 + b1 % 0x40
      else
        var b2: int := s[2];
        if n == 3 then b0 * 0x1000 % 0x1_0000 + b1 * 0x40 % 0x1000 + b2 % 0x40
        else
          var b3: int := s[3];
          b0 * 0x4_0000 % 0x20_0000 + b1 * 0x1000 % 0x4_0000 + b2 * 0x40 % 0x1000 + b3 % 0x40
  }

  /** Validates and decodes the sequence at the front. */
  function ValidateNext(s: seq<Byte>): (next: Next)
    ensures next.Ok? ==> 1 <= next.length <= |s| && IsScalar(next.cp)
  {
    if s == [] then NotEnoughRoom
    else
      var n := SequenceLength(s[0]);
      if n == 0 then InvalidLead
      else
        var err := Continues(s, 1, n);
        if !err.Ok? then err
        else
          var cp := CodePointOf(s, n);
          if !IsScalar(cp) then InvalidCodePoint
          else if IsOverlong(cp, n) then OverlongSequence
          else Ok(cp, n)
  }

  // the four lengths in plain arithmetic: what the lead and continuation bytes contribute

  lemma TwoBytes(b0: int, b1: int)
    requires 0xC0 <= b0 <= 0xDF && 0x80 <= b1 <= 0xBF
    ensures b0 * 0x40 % 0x800 + b1 % 0x40 == (b0 - 0xC0) * 0x40 + (b1 - 0x80)
  {
    assert b0 * 0x40 == 6 * 0x800 + (b0 - 0xC0) * 0x40;
  }

  lemma ThreeBytes(b0: int, b1: int, b2: int)
    requires 0xE0 <= b0 <= 0xEF && 0x80 <= b1 <= 0xBF && 0x80 <= b2 <= 0xBF
    ensures b0 * 0x1000 % 0x1_0000 + b1 * 0x40 % 0x1000 + b2 % 0x40
      == (b0 - 0xE0) * 0x1000 + (b1 - 0x80) * 0x40 + (b2 - 0x80)
  {
    assert b0 * 0x1000 == 0xE * 0x1_0000 + (b0 - 0xE0) * 0x1000;
    assert b1 * 0x40 == 2 * 0x1000 + (b1 - 0x80) * 0x40;
  }

  lemma FourBytes(b0: int, b1: int, b2: int, b3: int)
    requires 0xF0 <= b0 <= 0xF7 && 0x80 <= b1 <= 0xBF && 0x80 <= b2 <= 0xBF && 0x80 <= b3 <= 0xBF
    ensures b0 * 0x4_0000 % 0x20_0000 + b1 * 0x1000 % 0x4_0000 + b2 * 0x40 % 0x1000 + b3 % 0x40
      == (b0 - 0xF0) * 0x4_0000 + (b1 - 0x80) * 0x1000 + (b2 - 0x80) * 0x40 + (b3 - 0x80)
  {
    assert b0 * 0x4_0000 == 0x1E * 0x20_0000 + (b0 - 0xF0) * 0x4_0000;
    assert b1 * 0x1000 == 2 * 0x4_0000 + (b1 - 0x80) * 0x1000;
    assert b2 * 0x40 == 2 * 0x1000 + (b2 - 0x80) * 0x40;
  }

  /** The payloads of `n` bytes put together. */
  function PayloadSum(s: seq<Byte>, n: nat): int
    requires 1 <= n <= 4 && n <= |s|
  {
    var b0: int := s[0];
    if n == 1 then b0
    else
      var b1: int := s[1];
      if n == 2 then (b0 - 0xC0) * 0x40 + (b1 - 0x80)
      else
        var b2: int := s[2];
        if n == 3 then (b0 - 0xE0) * 0x1000 + (b1 - 0x80) * 0x40 + (b2 - 0x80)
        else
          var b3: int := s[3];
          (b0 - 0xF0) * 0x4_0000 + (b1 - 0x80) * 0x1000 + (b2 - 0x80) * 0x40 + (b3 - 0x80)
  }

  /** The code point of `n` bytes, of which those after the lead byte continue it. */
  lemma CodePointValue(s: seq<Byte>, n: nat)
    requires 1 <= n <= 4 && n <= |s| && SequenceLength(s[0]) == n && Continues(s, 1, n).Ok?
    ensures CodePointOf(s, n) == PayloadSum(s, n)
  {
    if n == 2 {
      TwoBytes(s[0], s[1]);
    } else if n == 3 {
      ThreeBytes(s[0], s[1], s[2]);
    } else if n == 4 {
      FourBytes(s[0], s[1], s[2], s[3]);
    }
  }

  lemma EncodedShape(cp: Scalar, rest: seq<Byte>)
    ensures var e := Encode8(cp); SequenceLength(e[0]) == |e| && Continues(e + rest, 1, |e|).Ok?
  {
  }

  lemma Packs(cp: Scalar, rest: seq<Byte>)
    ensures PayloadSum(Encode8(cp) + rest, |Encode8(cp)|) == cp
    ensures !IsOverlong(cp, |Encode8(cp)|)
  {
    if 0x1_0000 <= cp {
      assert cp / 0x1000 == cp / 0x4_0000 * 0x40 + cp / 0x1000 % 0x40;
      assert cp / 0x40 == cp / 0x1000 * 0x40 + cp / 0x40 % 0x40;
    } else if 0x800 <= cp {
      assert cp / 0x40 == cp / 0x1000 * 0x40 + cp / 0x40 % 0x40;
    }
  }

  lemma ValidatesEncoded(cp: Scalar, rest: seq<Byte>)
    ensures ValidateNext(Encode8(cp) + rest) == Ok(cp, |Encode8(cp)|)
  {
    EncodedShape(cp, rest);
    CodePointValue(Encode8(cp) + rest, |Encode8(cp)|);
    Packs(cp, rest);
    assert (Encode8(cp) + rest)[0] == Encode8(cp)[0];
    hide CodePointOf, Continues, SequenceLength, PayloadSum, Encode8, IsOverlong;
  }

  lemma Unpack3(x: int, y: int, z: int)
    requires 0 <= x && 0 <= y < 0x40 && 0 <= z < 0x40
    ensures var cp := x * 0x1000 + y * 0x40 + z; cp / 0x1000 == x && cp / 0x40 % 0x40 == y && cp % 0x40 == z
  {
    var cp := x * 0x1000 + y * 0x40 + z;
    assert cp / 0x40 == x * 0x40 + y;
  }

  lemma Unpack4(w: int, x: int, y: int, z: int)
    requires 0 <= w && 0 <= x < 0x40 && 0 <= y < 0x40 && 0 <= z < 0x40
    ensures var cp := w * 0x4_0000 + x * 0x1000 + y * 0x40 + z;
      cp / 0x4_0000 == w && cp / 0x1000 % 0x40 == x && cp / 0x40 % 0x40 == y && cp % 0x40 == z
  {
    Unpack3(w * 0x40 + x, y, z);
  }

  lemma EncodesPayload(s: seq<Byte>, n: nat)
    requires 1 <= n <= 4 && n <= |s| && SequenceLength(s[0]) == n && Continues(s, 1, n).Ok?
    requires !IsOverlong(PayloadSum(s, n), n) && 0 <= PayloadSum(s, n) < 0x20_0000
    ensures Encode8(PayloadSum(s, n)) == s[..n]
  {
    if n == 3 {
      Unpack3(s[0] - 0xE0, s[1] - 0x80, s[2] - 0x80);
    } else if n == 4 {
      Unpack4(s[0] - 0xF0, s[1] - 0x80, s[2] - 0x80, s[3] - 0x80);
    }
  }

  lemma EncodesValidated(s: seq<Byte>)
    requires ValidateNext(s).Ok?
    ensures Encode8(ValidateNext(s).cp) == s[..ValidateNext(s).length]
  {
    hide CodePointOf, Continues, PayloadSum, Encode8, IsOverlong;
    CodePointValue(s, ValidateNext(s).length);
    EncodesPayload(s, ValidateNext(s).length);
  }

  /** A sequence cut short is only missing bytes. */
  lemma ValidatesCut(cp: Scalar, n: nat)
    requires 1 <= n < |Encode8(cp)|
    ensures ValidateNext(Encode8(cp)[..n]) == NotEnoughRoom
  {
    EncodedShape(cp, []);
    assert Encode8(cp) + [] == Encode8(cp);
  }

  predicate ValidUtf8(s: seq<Byte>) {
    s == [] || (ValidateNext(s).Ok? && ValidUtf8(s[ValidateNext(s).length..]))
  }

  /** Where the first malformed sequence starts, or the length. */
  function FindInvalid8(s: seq<Byte>): (i: nat)
    ensures i <= |s| && (i == |s| <==> ValidUtf8(s))
  {
    if s == [] || !ValidateNext(s).Ok? then 0
    else ValidateNext(s).length + FindInvalid8(s[ValidateNext(s).length..])
  }

  /** The unchecked conversion, which is only called on valid input. */
  function Utf8To16(s: seq<Byte>): seq<CodeUnit>
    requires ValidUtf8(s)
  {
    if s == [] then [] else Encode16(ValidateNext(s).cp) + Utf8To16(s[ValidateNext(s).length..])
  }

  ghost function Decode8(s: seq<Byte>): (cps: seq<Scalar>)
    requires ValidUtf8(s)
    ensures Encode8All(cps) == s
  {
    if s == [] then []
    else
      FrontThenRest(s);
      [ValidateNext(s).cp] + Decode8(s[ValidateNext(s).length..])
  }

  lemma FrontThenRest(s: seq<Byte>)
    requires ValidateNext(s).Ok?
    ensures s == Encode8(ValidateNext(s).cp) + s[ValidateNext(s).length..]
  {
    hide CodePointOf, Continues, SequenceLength, Encode8, IsOverlong;
    EncodesValidated(s);
  }

  lemma DropEncoded(cp: Scalar, rest: seq<Byte>)
    ensures (Encode8(cp) + rest)[|Encode8(cp)|..] == rest
  {
  }

  /** What follows some encoded code points decides whether the whole is valid. */
  lemma {:induction false} ValidBehind(cps: seq<Scalar>, rest: seq<Byte>)
    ensures ValidUtf8(Encode8All(cps) + rest) <==> ValidUtf8(rest)
    ensures ValidUtf8(rest) ==> Utf8To16(Encode8All(cps) + rest) == Encode16All(cps) + Utf8To16(rest)
  {
    if cps == [] {
      assert Encode8All(cps) + rest == rest;
    } else {
      var tail := Encode8All(cps[1..]) + rest;
      ValidBehind(cps[1..], rest);
      assert Encode8All(cps) + rest == Encode8(cps[0]) + tail;
      ValidatesEncoded(cps[0], tail);
      DropEncoded(cps[0], tail);
    }
  }

  lemma EncodedIsValid(cps: seq<Scalar>)
    ensures ValidUtf8(Encode8All(cps)) && Utf8To16(Encode8All(cps)) == Encode16All(cps)
  {
    ValidBehind(cps, []);
    assert Encode8All(cps) + [] == Encode8All(cps);
  }

  // ---------------------------------------------------------------- repairing UTF-8

  function SkipContinuations(s: seq<Byte>): (rest: seq<Byte>)
    ensures |rest| <= |s|
  {
    if s != [] && IsContinuation(s[0]) then SkipContinuations(s[1..]) else s
  }

  /** The library's repair: one replacement mark for each malformed sequence, and one for all that is left when bytes
      are missing. */
  function ReplaceInvalid8(s: seq<Byte>): seq<Byte>
    decreases |s|
  {
    if s == [] then []
    else
      match ValidateNext(s)
      case Ok(cp, n) => s[..n] + ReplaceInvalid8(s[n..])
      case NotEnoughRoom => Encode8(REPLACEMENT)
      case InvalidLead => Encode8(REPLACEMENT) + ReplaceInvalid8(s[1..])
      case _ => Encode8(REPLACEMENT) + ReplaceInvalid8(SkipContinuations(s[1..]))
  }

  lemma {:induction false} RepairIsValid(s: seq<Byte>)
    ensures ValidUtf8(ReplaceInvalid8(s))
    decreases |s|
  {
    hide ValidateNext, Encode8, ValidUtf8;
    EncodedIsValid([]);
    if s != [] {
      match ValidateNext(s) {
        case Ok(cp, n) =>
          RepairIsValid(s[n..]);
          FrontThenRest(s);
          ValidAfter(cp, ReplaceInvalid8(s[n..]));
          assert s[..n] == Encode8(cp);
        case NotEnoughRoom =>
          ValidAfter(REPLACEMENT, []);
          assert Encode8(REPLACEMENT) + [] == Encode8(REPLACEMENT);
        case InvalidLead =>
          RepairIsValid(s[1..]);
          ValidAfter(REPLACEMENT, ReplaceInvalid8(s[1..]));
        case _ =>
          RepairIsValid(SkipContinuations(s[1..]));
          ValidAfter(REPLACEMENT, ReplaceInvalid8(SkipContinuations(s[1..])));
      }
    }
  }

  lemma ValidAfter(cp: Scalar, rest: seq<Byte>)
    requires ValidUtf8(rest)
    ensures ValidUtf8(Encode8(cp) + rest)
  {
    hide ValidateNext, Encode8, ValidUtf8;
    ValidBehind([cp], rest);
    assert Encode8All([cp]) == Encode8(cp) + Encode8All([]) == Encode8(cp);
  }

  /** utf8_to_utf16_lenient: converts valid input, and repaired input otherwise. */
  function LenientUtf8To16(s: seq<Byte>): seq<CodeUnit> {
    RepairIsValid(s);
    if ValidUtf8(s) then Utf8To16(s) else Utf8To16(ReplaceInvalid8(s))
  }
}

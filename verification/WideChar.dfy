/** Validation, repair and lenient conversion of UTF-16 text. */
module WideChar {
  import opened Common
  import opened Utf

  // ---------------------------------------------------------------- validation

  /** Where the validation of the text from unit `i` on stops. */
  ghost function FirstInvalid(s: seq<CodeUnit>, i: nat): (at: nat)
    requires i <= |s|
    ensures i <= at <= |s|
    decreases |s| - i
  {
    if i == |s| then i
    else if IsLead(s[i]) then
      if i + 1 == |s| then i
      else if IsTrail(s[i + 1]) then FirstInvalid(s, i + 2)
      else i + 1
    else if IsTrail(s[i]) then i + 1
    else FirstInvalid(s, i + 1)
  }

  method Utf16FindInvalid(s: seq<CodeUnit>) returns (at: nat)
    ensures at == FirstInvalid(s, 0)
  {
    var start := 0;
    while start != |s|
      invariant start <= |s| && FirstInvalid(s, start) == FirstInvalid(s, 0)
      decreases |s| - start
    {
      var cp := s[start];
      start := start + 1;
      if IsLead(cp) {
        if start != |s| {
          var trailSurrogate := s[start];
          start := start + 1;
          if !IsTrail(trailSurrogate) {
            return start - 1;
          }
        } else {
          return start - 1;
        }
      } else if IsTrail(cp) {
        return start;
      }
    }
    at := |s|;
  }

  /** The validation reports success on well-formed text, and also when one lone trail surrogate ends it. */
  lemma {:induction false} FindsEndExactlyWhen(s: seq<CodeUnit>, i: nat)
    requires i <= |s|
    ensures FirstInvalid(s, i) == |s| <==>
      WellFormed16(s[i..]) || (i < |s| && WellFormed16(s[i..|s| - 1]) && IsTrail(s[|s| - 1]))
    decreases |s| - i
  {
    if i < |s| {
      assert s[i..][0] == s[i] && s[i..][1..] == s[i + 1..];
      if IsLead(s[i]) {
        if i + 1 < |s| && IsTrail(s[i + 1]) {
          FindsEndExactlyWhen(s, i + 2);
          assert s[i..][2..] == s[i + 2..];
          if i + 2 < |s| {
            assert s[i..|s| - 1][2..] == s[i + 2..|s| - 1];
          }
        }
      } else if !IsTrail(s[i]) {
        FindsEndExactlyWhen(s, i + 1);
        if i + 1 < |s| {
          assert s[i..|s| - 1][1..] == s[i + 1..|s| - 1];
        }
      } else if i + 1 == |s| {
        assert s[i..|s| - 1] == [];
      }
    }
  }

  // ---------------------------------------------------------------- repair

  /** The repaired text: a failed pair keeps its second unit, whatever it is. */
  ghost function Repaired(s: seq<CodeUnit>, mark: CodeUnit): (out: seq<CodeUnit>)
    ensures |out| == |s|
  {
    if s == [] then []
    else if IsLead(s[0]) then
      if |s| == 1 then [mark]
      else if IsTrail(s[1]) then s[..2] + Repaired(s[2..], mark)
      else [mark, s[1]] + Repaired(s[2..], mark)
    else if IsTrail(s[0]) then [mark] + Repaired(s[1..], mark)
    else [s[0]] + Repaired(s[1..], mark)
  }

  /** The left-to-right scan takes a lead surrogate as the second unit of a failed pair. */
  ghost predicate TakesLead(s: seq<CodeUnit>) {
    if |s| < 2 then false
    else if IsLead(s[0]) then (!IsTrail(s[1]) && IsLead(s[1])) || TakesLead(s[2..])
    else TakesLead(s[1..])
  }

  /** One step of the scan from unit `i`: how many units it takes, and what it puts in their place. */
  ghost function ScanStep(s: seq<CodeUnit>, i: nat, mark: CodeUnit): (step: seq<CodeUnit>)
    requires i < |s|
    ensures 1 <= |step| <= |s| - i
  {
    if IsLead(s[i]) then
      if i + 1 == |s| then [mark]
      else if IsTrail(s[i + 1]) then [s[i], s[i + 1]]
      else [mark, s[i + 1]]
    else if IsTrail(s[i]) then [mark]
    else [s[i]]
  }

  lemma RepairScans(s: seq<CodeUnit>, i: nat, mark: CodeUnit)
    requires i < |s|
    ensures var step := ScanStep(s, i, mark); Repaired(s[i..], mark) == step + Repaired(s[i + |step|..], mark)
  {
    var rest := s[i..];
    assert rest[1..] == s[i + 1..];
    if IsLead(rest[0]) && i + 1 < |s| {
      assert rest[2..] == s[i + 2..] && rest[..2] == [s[i], s[i + 1]];
    }
  }

  method Utf16ReplaceInvalid(s: seq<CodeUnit>, mark: CodeUnit) returns (out: seq<CodeUnit>)
    ensures out == Repaired(s, mark)
  {
    out := [];
    var start := 0;
    assert s[0..] == s && s[|s|..] == [];
    assert Repaired(s[|s|..], mark) == [];
    hide Repaired;
    while start != |s|
      invariant start <= |s| && out + Repaired(s[start..], mark) == Repaired(s, mark)
      decreases |s| - start
    {
      ghost var step, before := ScanStep(s, start, mark), out;
      RepairScans(s, start, mark);
      var char1 := s[start];
      start := start + 1;
      if IsLead(char1) {
        if start != |s| {
          var char2 := s[start];
          start := start + 1;
          if IsTrail(char2) {
            out := out + [char1];
            out := out + [char2];
          } else {
            out := out + [mark];
            out := out + [char2];
          }
        } else {
          out := out + [mark];
        }
      } else if IsTrail(char1) {
        out := out + [mark];
      } else {
        out := out + [char1];
      }
      assert out == before + step;
      Regroup(before, step, Repaired(s[start..], mark));
    }
  }

  /** Repair changes exactly the malformed texts. */
  lemma {:induction false} RepairIsIdentityExactlyWhen(s: seq<CodeUnit>, mark: CodeUnit)
    requires !IsLead(mark) && !IsTrail(mark)
    ensures Repaired(s, mark) == s <==> WellFormed16(s)
  {
    if s != [] {
      if IsLead(s[0]) {
        if 2 <= |s| {
          RepairIsIdentityExactlyWhen(s[2..], mark);
          if Repaired(s, mark) == s {
            assert Repaired(s, mark)[0] == s[0];
            assert Repaired(s, mark)[2..] == s[2..];
          }
        }
      } else {
        RepairIsIdentityExactlyWhen(s[1..], mark);
        if Repaired(s, mark) == s {
          assert Repaired(s, mark)[0] == s[0];
          assert Repaired(s, mark)[1..] == s[1..];
        }
      }
    }
  }

  /** Repair yields well-formed text unless its scan takes a lead surrogate as the second unit of a failed pair. */
  lemma {:induction false} RepairIsWellFormedExactlyWhen(s: seq<CodeUnit>, mark: CodeUnit)
    requires !IsLead(mark) && !IsTrail(mark)
    ensures WellFormed16(Repaired(s, mark)) <==> !TakesLead(s)
    ensures s != [] ==> !IsTrail(Repaired(s, mark)[0])
  {
    if s != [] {
      var out := Repaired(s, mark);
      if IsLead(s[0]) {
        if 2 <= |s| {
          RepairIsWellFormedExactlyWhen(s[2..], mark);
          assert out[2..] == Repaired(s[2..], mark);
          assert out[1..][1..] == out[2..];
        }
      } else {
        RepairIsWellFormedExactlyWhen(s[1..], mark);
        assert out[1..] == Repaired(s[1..], mark);
      }
    }
  }

  /** Repair puts marks in the place of surrogates and nowhere else: every other unit stays where it is. */
  lemma {:induction false} OrdinaryUnitsStay(s: seq<CodeUnit>, mark: CodeUnit, i: nat)
    requires i < |s|
    ensures Repaired(s, mark)[i] == s[i] || Repaired(s, mark)[i] == mark
    ensures !(0xD800 <= s[i] <= 0xDFFF) ==> Repaired(s, mark)[i] == s[i]
  {
    if IsLead(s[0]) && 2 <= |s| {
      if 2 <= i {
        OrdinaryUnitsStay(s[2..], mark, i - 2);
      }
    } else if 1 <= i {
      OrdinaryUnitsStay(s[1..], mark, i - 1);
    }
  }

  /** A surrogate of a pair stays, too. */
  lemma PairStays(lead: CodeUnit, trail: CodeUnit, rest: seq<CodeUnit>, mark: CodeUnit)
    requires IsLead(lead) && IsTrail(trail)
    ensures Repaired([lead, trail] + rest, mark) == [lead, trail] + Repaired(rest, mark)
  {
    var s := [lead, trail] + rest;
    assert s[2..] == rest && s[..2] == [lead, trail];
  }

  lemma OtherStays(unit: CodeUnit, rest: seq<CodeUnit>, mark: CodeUnit)
    requires !IsLead(unit) && !IsTrail(unit)
    ensures Repaired([unit] + rest, mark) == [unit] + Repaired(rest, mark)
  {
    assert ([unit] + rest)[1..] == rest;
  }

  /** Well-formed text in front of anything stays as it is. */
  lemma {:induction false} RepairedBehind(front: seq<CodeUnit>, rest: seq<CodeUnit>, mark: CodeUnit)
    requires WellFormed16(front)
    ensures Repaired(front + rest, mark) == front + Repaired(rest, mark)
  {
    hide Repaired;
    if front == [] {
      assert front + rest == rest;
    } else if IsLead(front[0]) {
      RepairedBehind(front[2..], rest, mark);
      PairStays(front[0], front[1], front[2..] + rest, mark);
      assert front + rest == [front[0], front[1]] + (front[2..] + rest);
    } else {
      RepairedBehind(front[1..], rest, mark);
      OtherStays(front[0], front[1..] + rest, mark);
      assert front + rest == [front[0]] + (front[1..] + rest);
    }
  }

  /** Behind well-formed text a lone trail surrogate becomes the mark, and a lead surrogate that no trail follows does
      and takes the unit behind it along. */
  lemma LoneSurrogateIsMarked(front: seq<CodeUnit>, rest: seq<CodeUnit>, mark: CodeUnit)
    requires WellFormed16(front) && rest != [] && 0xD800 <= rest[0] <= 0xDFFF
    requires rest[0] <= 0xDBFF && 2 <= |rest| ==> !(0xDC00 <= rest[1] <= 0xDFFF)
    ensures Repaired(front + rest, mark) == front + [mark] +
      if 0xDC00 <= rest[0] then Repaired(rest[1..], mark)
      else if |rest| == 1 then []
      else [rest[1]] + Repaired(rest[2..], mark)
  {
    RepairedBehind(front, rest, mark);
  }

  /** The scan that stops before the end has well-formed text in front of the unit it stops for, and is one unit behind
      that, unless it is a lead surrogate at the end. */
  lemma {:induction false} StopsForLoneSurrogate(s: seq<CodeUnit>, start: nat) returns (i: nat)
    requires start <= |s| && FirstInvalid(s, start) < |s|
    ensures start <= i < |s| && WellFormed16(s[start..i])
    ensures 0xD800 <= s[i] <= 0xDFFF && (s[i] <= 0xDBFF ==> i + 1 == |s| || !(0xDC00 <= s[i + 1] <= 0xDFFF))
    ensures FirstInvalid(s, start) == if i + 1 == |s| then i else i + 1
    decreases |s| - start
  {
    if IsLead(s[start]) && start + 1 < |s| && IsTrail(s[start + 1]) {
      i := StopsForLoneSurrogate(s, start + 2);
      assert s[start..i][2..] == s[start + 2..i];
    } else if IsLead(s[start]) || IsTrail(s[start]) {
      i := start;
    } else {
      i := StopsForLoneSurrogate(s, start + 1);
      assert s[start..i][1..] == s[start + 1..i];
    }
  }

  // ---------------------------------------------------------------- lenient conversion

  ghost function LenientUtf16To8(s: seq<CodeUnit>): seq<Byte> {
    Utf16To8(if FirstInvalid(s, 0) == |s| then s else Repaired(s, REPLACEMENT))
  }

  method Utf16ToUtf8Lenient(s: seq<CodeUnit>) returns (res: seq<Byte>, firstInvalid: Option<nat>)
    ensures res == LenientUtf16To8(s)
    ensures firstInvalid == if FirstInvalid(s, 0) == |s| then None else Some(FirstInvalid(s, 0))
  {
    var found := Utf16FindInvalid(s);
    if found == |s| {
      res := Utf16To8(s);
      firstInvalid := None;
    } else {
      var replaced := Utf16ReplaceInvalid(s, REPLACEMENT);
      res := Utf16To8(replaced);
      firstInvalid := Some(found);
    }
  }

  method Utf8ToUtf16Lenient(s: seq<Byte>) returns (res: seq<CodeUnit>, firstInvalid: Option<nat>)
    ensures res == LenientUtf8To16(s)
    ensures firstInvalid == if ValidUtf8(s) then None else Some(FindInvalid8(s))
  {
    var found := FindInvalid8(s);
    if found == |s| {
      res := Utf8To16(s);
      firstInvalid := None;
    } else {
      RepairIsValid(s);
      res := Utf8To16(ReplaceInvalid8(s));
      firstInvalid := Some(found);
    }
  }

  /** Any UTF-16 input, malformed or not, fits three bytes per unit. */
  lemma LenientFitsThreeBytesPerUnit(s: seq<CodeUnit>)
    ensures |LenientUtf16To8(s)| <= 3 * |s|
  {
    ThreeBytesPerUnit(if FirstInvalid(s, 0) == |s| then s else Repaired(s, REPLACEMENT));
  }

  /** From UTF-16 and back. */
  lemma Utf16RoundTrip(s: seq<CodeUnit>)
    requires WellFormed16(s)
    ensures ValidUtf8(LenientUtf16To8(s)) && LenientUtf8To16(LenientUtf16To8(s)) == s
  {
    FindsEndExactlyWhen(s, 0);
    assert s[0..] == s;
    EncodedIsWellFormed16(Decode16(s));
    EncodedIsValid(Decode16(s));
  }

  /** From UTF-8 and back. */
  lemma Utf8RoundTrip(s: seq<Byte>)
    requires ValidUtf8(s)
    ensures WellFormed16(LenientUtf8To16(s)) && LenientUtf16To8(LenientUtf8To16(s)) == s
    ensures |s| <= 3 * |LenientUtf8To16(s)|
  {
    var cps := Decode8(s);
    EncodedIsValid(cps);
    EncodedIsWellFormed16(cps);
    var units := Encode16All(cps);
    FindsEndExactlyWhen(units, 0);
    assert units[0..] == units;
    ThreeBytesPerUnit(units);
  }

  /** Malformed text whose scan takes no lead surrogate converts to valid UTF-8, every malformed unit marked. */
  lemma RepairedTextConverts(s: seq<CodeUnit>)
    requires FirstInvalid(s, 0) != |s| && !TakesLead(s)
    ensures ValidUtf8(LenientUtf16To8(s)) && LenientUtf8To16(LenientUtf16To8(s)) == Repaired(s, REPLACEMENT)
  {
    RepairIsWellFormedExactlyWhen(s, REPLACEMENT);
    EncodedIsWellFormed16(Decode16(Repaired(s, REPLACEMENT)));
    EncodedIsValid(Decode16(Repaired(s, REPLACEMENT)));
  }

  /** Text that passes the validation converts to valid UTF-8 exactly when it is well-formed. */
  lemma AcceptedTextConvertsExactlyWhen(s: seq<CodeUnit>)
    requires FirstInvalid(s, 0) == |s|
    ensures ValidUtf8(LenientUtf16To8(s)) <==> WellFormed16(s)
  {
    hide Utf16To8, ValidUtf8, FirstInvalid, WellFormed16;
    FindsEndExactlyWhen(s, 0);
    assert s[0..] == s;
    if WellFormed16(s) {
      Utf16RoundTrip(s);
    } else {
      var front, last := s[..|s| - 1], s[|s| - 1];
      assert front == s[0..|s| - 1] && s == front + [last];
      ConvertsBehind(Decode16(front), [last]);
      LoneUnit(last);
      ValidBehind(Decode16(front), Encode8(last));
      SurrogateIsInvalid(last);
    }
  }

  lemma LoneUnit(u: CodeUnit)
    requires !IsLead(u)
    ensures Utf16To8([u]) == Encode8(u)
  {
    assert [u][1..] == [];
  }

  lemma SurrogateIsInvalid(u: CodeUnit)
    requires IsTrail(u)
    ensures !ValidUtf8(Encode8(u))
  {
    ThreeBytes(u / 0x1000 + 0xE0, u / 0x40 % 0x40 + 0x80, u % 0x40 + 0x80);
  }

  /** Two lead surrogates in a row swallow the unit behind them: "A" does not survive. */
  lemma TakenLeadSwallowsText()
    ensures TakesLead([0xD800, 0xD801, 0x41]) && Repaired([0xD800, 0xD801, 0x41], REPLACEMENT) == [0xFFFD, 0xD801, 0x41]
    ensures !WellFormed16(Repaired([0xD800, 0xD801, 0x41], REPLACEMENT))
  {
    var s: seq<CodeUnit> := [0xD800, 0xD801, 0x41];
    assert s[2..] == [0x41] && Repaired([0x41], REPLACEMENT) == [0x41];
    RepairIsWellFormedExactlyWhen(s, REPLACEMENT);
  }
}

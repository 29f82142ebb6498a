/** What the repair of UTF-8 keeps and what it marks: text around malformed bytes arrives whole, and every malformed
    sequence is a single mark. */
module Utf8Repair {
  import opened Common
  import opened Utf

  /** Valid text is not repaired. */
  lemma {:induction false} RepairOfValid(s: seq<Byte>)
    requires ValidUtf8(s)
    ensures ReplaceInvalid8(s) == s
    decreases |s|
  {
    hide ValidateNext;
    if s != [] {
      RepairOfValid(s[ValidateNext(s).length..]);
    }
  }

  lemma LenientIsRepaired(s: seq<Byte>)
    ensures ValidUtf8(ReplaceInvalid8(s)) && LenientUtf8To16(s) == Utf8To16(ReplaceInvalid8(s))
  {
    RepairIsValid(s);
    if ValidUtf8(s) {
      RepairOfValid(s);
    }
  }

  /** Encoded code points in front stay as they are. */
  lemma {:induction false} RepairBehind(cps: seq<Scalar>, rest: seq<Byte>)
    ensures ReplaceInvalid8(Encode8All(cps) + rest) == Encode8All(cps) + ReplaceInvalid8(rest)
  {
    hide ValidateNext, Encode8;
    if cps == [] {
      assert Encode8All(cps) + rest == rest;
    } else {
      var tail := Encode8All(cps[1..]) + rest;
      var all := Encode8All(cps) + rest;
      RepairBehind(cps[1..], rest);
      Regroup(Encode8(cps[0]), Encode8All(cps[1..]), rest);
      ValidatesEncoded(cps[0], tail);
      DropEncoded(cps[0], tail);
      assert all[..|Encode8(cps[0])|] == Encode8(cps[0]);
      Regroup(Encode8(cps[0]), Encode8All(cps[1..]), ReplaceInvalid8(rest));
    }
  }

  lemma MarkIsOneUnit()
    ensures Encode16All([REPLACEMENT]) == [0xFFFD] && Encode8All([REPLACEMENT]) == Encode8(REPLACEMENT)
  {
  }

  /** A malformed sequence that the repair replaces by one mark is one mark between what is around it. */
  lemma MarkedBetween(cps: seq<Scalar>, bad: seq<Byte>, rest: seq<Byte>)
    requires ReplaceInvalid8(bad + rest) == Encode8(REPLACEMENT) + ReplaceInvalid8(rest)
    ensures LenientUtf8To16(Encode8All(cps) + bad + rest) == Encode16All(cps) + [0xFFFD] + LenientUtf8To16(rest)
  {
    hide ReplaceInvalid8, ValidateNext, Encode8, Encode16, Utf8To16, ValidUtf8, LenientUtf8To16;
    var repaired := ReplaceInvalid8(rest);
    Regroup(Encode8All(cps), bad, rest);
    LenientIsRepaired(Encode8All(cps) + bad + rest);
    LenientIsRepaired(rest);
    RepairBehind(cps, bad + rest);
    MarkIsOneUnit();
    ValidBehind([REPLACEMENT], repaired);
    ValidBehind(cps, Encode8(REPLACEMENT) + repaired);
    Regroup(Encode16All(cps), [0xFFFD], Utf8To16(repaired));
  }

  /** A byte that can start no sequence is one mark, and the text behind it survives. */
  lemma StrayByteIsOneMark(cps: seq<Scalar>, b: Byte, rest: seq<Byte>)
    requires 0x80 <= b <= 0xBF || 0xF8 <= b <= 0xFF
    ensures LenientUtf8To16(Encode8All(cps) + [b] + rest) == Encode16All(cps) + [0xFFFD] + LenientUtf8To16(rest)
  {
    assert ([b] + rest)[1..] == rest;
    MarkedBetween(cps, [b], rest);
  }

  /** How many bytes a sequence has that starts with a lead byte. */
  function Announced(lead: Byte): nat {
    if 0xC0 <= lead <= 0xDF then 2 else if 0xE0 <= lead <= 0xEF then 3 else if 0xF0 <= lead <= 0xF7 then 4 else 0
  }

  ghost predicate AllContinue(s: seq<Byte>) {
    forall k | 0 <= k < |s| :: 0x80 <= s[k] <= 0xBF
  }

  lemma {:induction false} SkipsAll(conts: seq<Byte>, rest: seq<Byte>)
    requires AllContinue(conts) && (rest == [] || !(0x80 <= rest[0] <= 0xBF))
    ensures SkipContinuations(conts + rest) == rest
  {
    if conts == [] {
      assert conts + rest == rest;
    } else {
      assert (conts + rest)[1..] == conts[1..] + rest;
      SkipsAll(conts[1..], rest);
    }
  }

  lemma {:induction false} StopsShort(s: seq<Byte>, i: nat, t: nat, n: nat)
    requires i <= t < n && t < |s| && !IsContinuation(s[t]) && forall k | i <= k < t :: IsContinuation(s[k])
    ensures Continues(s, i, n) == IncompleteSequence
    decreases t - i
  {
    if i < t {
      StopsShort(s, i + 1, t, n);
    }
  }

  /** A sequence that breaks off before other text is one mark, its continuation bytes included. */
  lemma BrokenSequenceIsOneMark(cps: seq<Scalar>, lead: Byte, conts: seq<Byte>, rest: seq<Byte>)
    requires AllContinue(conts) && 1 + |conts| < Announced(lead) && rest != [] && !(0x80 <= rest[0] <= 0xBF)
    ensures LenientUtf8To16(Encode8All(cps) + ([lead] + conts) + rest)
      == Encode16All(cps) + [0xFFFD] + LenientUtf8To16(rest)
  {
    var bad := [lead] + conts;
    var s := bad + rest;
    forall k | 1 <= k < 1 + |conts| ensures IsContinuation(s[k]) {
      assert s[k] == conts[k - 1];
    }
    assert s[1 + |conts|] == rest[0];
    StopsShort(s, 1, 1 + |conts|, Announced(lead));
    assert s[1..] == conts + rest;
    SkipsAll(conts, rest);
    assert ValidateNext(s) == IncompleteSequence;
    MarkedBetween(cps, bad, rest);
  }

  /** A sequence of enough bytes that encodes nothing, being overlong or no code point, is one mark together with all
      the continuation bytes behind it. */
  lemma WrongSequenceIsOneMark(cps: seq<Scalar>, lead: Byte, conts: seq<Byte>, rest: seq<Byte>)
    requires AllContinue(conts) && 1 <= Announced(lead) <= 1 + |conts| && (rest == [] || !(0x80 <= rest[0] <= 0xBF))
    requires forall cp: Scalar :: Encode8(cp) != ([lead] + conts)[..Announced(lead)]
    ensures LenientUtf8To16(Encode8All(cps) + ([lead] + conts) + rest)
      == Encode16All(cps) + [0xFFFD] + LenientUtf8To16(rest)
  {
    var bad, n := [lead] + conts, Announced(lead);
    var s := bad + rest;
    forall k | 1 <= k < n ensures IsContinuation(s[k]) {
      assert s[k] == conts[k - 1];
    }
    assert s[1..] == conts + rest && s[..n] == bad[..n];
    SkipsAll(conts, rest);
    hide CodePointOf, IsOverlong, Encode8;
    if ValidateNext(s).Ok? {
      EncodesValidated(s);
    }
    MarkedBetween(cps, bad, rest);
  }

  lemma {:induction false} RunsOut(s: seq<Byte>, i: nat, n: nat)
    requires i <= |s| < n && forall k | i <= k < |s| :: IsContinuation(s[k])
    ensures Continues(s, i, n) == NotEnoughRoom
    decreases |s| - i
  {
    if i < |s| {
      RunsOut(s, i + 1, n);
    }
  }

  /** A sequence that the text ends in is one mark. */
  lemma CutSequenceIsOneMark(cps: seq<Scalar>, lead: Byte, conts: seq<Byte>)
    requires AllContinue(conts) && 1 + |conts| < Announced(lead)
    ensures LenientUtf8To16(Encode8All(cps) + ([lead] + conts)) == Encode16All(cps) + [0xFFFD]
  {
    var bad := [lead] + conts;
    forall k | 1 <= k < |bad| ensures IsContinuation(bad[k]) {
      assert bad[k] == conts[k - 1];
    }
    RunsOut(bad, 1, Announced(lead));
    assert bad + [] == bad && Encode8All(cps) + bad + [] == Encode8All(cps) + bad;
    assert ReplaceInvalid8([]) == [] && Encode8(REPLACEMENT) + [] == Encode8(REPLACEMENT);
    MarkedBetween(cps, bad, []);
    assert LenientUtf8To16([]) == [];
  }

  lemma StartsWithEncoded(cp: Scalar, s: seq<Byte>)
    requires Encode8(cp) <= s
    ensures ValidateNext(s).Ok?
  {
    hide Encode8;
    ValidatesEncoded(cp, s[|Encode8(cp)|..]);
    assert Encode8(cp) + s[|Encode8(cp)|..] == s;
  }

  /** The position reported for malformed text has encoded code points before it and none at it. */
  lemma {:induction false} FirstInvalidIsThere(s: seq<Byte>) returns (cps: seq<Scalar>)
    ensures s[..FindInvalid8(s)] == Encode8All(cps)
    ensures FindInvalid8(s) < |s| ==> forall cp: Scalar :: !(Encode8(cp) <= s[FindInvalid8(s)..])
    decreases |s|
  {
    hide ValidateNext, Encode8, ValidUtf8;
    if s != [] && ValidateNext(s).Ok? {
      var n := ValidateNext(s).length;
      cps := FirstInvalidIsThere(s[n..]);
      FrontThenRest(s);
      EncodesValidated(s);
      assert s[..FindInvalid8(s)] == s[..n] + s[n..][..FindInvalid8(s[n..])];
      assert s[FindInvalid8(s)..] == s[n..][FindInvalid8(s[n..])..];
      cps := [ValidateNext(s).cp] + cps;
    } else {
      cps := [];
      forall cp: Scalar ensures Encode8(cp) <= s ==> ValidateNext(s).Ok? {
        if Encode8(cp) <= s {
          StartsWithEncoded(cp, s);
        }
      }
    }
  }
}

/** When the intermediate UTF-8 buffer loses nothing of a column name. */
module DescribeColExact {
  import opened Common
  import opened Utf
  import opened DescribeCol

  type Name = cps: seq<Scalar> | 0 !in cps

  /** The application receives the first units of the full name, as many as fit. */
  ghost predicate Exact(cps: Name, bufferLength: int)
    requires 1 <= bufferLength <= SMALLINT_MAX
  {
    var units := Encode16All(cps);
    WrittenUnits(NameBytes(Encode8All(cps), bufferLength), bufferLength) == units[..Min(|units|, bufferLength - 1)]
  }

  lemma {:induction false} NoNul(cps: Name)
    ensures 0 !in Encode8All(cps)
  {
    if cps != [] {
      NoNul(cps[1..]);
      assert cps[0] in cps && 0 !in Encode8(cps[0]);
    }
  }

  lemma {:induction false} Encode16Prefix(cps: seq<Scalar>, j: nat)
    requires j <= |cps|
    ensures Encode16All(cps[..j]) <= Encode16All(cps)
  {
    if j != 0 {
      Encode16Prefix(cps[1..], j - 1);
      assert cps[..j][1..] == cps[1..][..j - 1];
    }
  }

  lemma BytesPerUnit(cps: seq<Scalar>)
    ensures |Encode8All(cps)| <= 3 * |Encode16All(cps)|
  {
    EncodedIsWellFormed16(cps);
    ThreeBytesPerUnit(Encode16All(cps));
  }

  /** Cutting a UTF-8 text leaves whole code points and perhaps the first bytes of one more. */
  lemma {:induction false} Cut(cps: seq<Scalar>, m: nat) returns (j: nat, k: nat)
    requires m <= |Encode8All(cps)|
    ensures j <= |cps| && (k != 0 ==> j < |cps| && k < |Encode8(cps[j])|)
    ensures Encode8All(cps)[..m] == Encode8All(cps[..j]) + if k == 0 then [] else Encode8(cps[j])[..k]
  {
    if m == 0 {
      j, k := 0, 0;
    } else if m < |Encode8(cps[0])| {
      j, k := 0, m;
    } else {
      var rest;
      rest, k := Cut(cps[1..], m - |Encode8(cps[0])|);
      j := rest + 1;
      assert cps[..j][0] == cps[0] && cps[..j][1..] == cps[1..][..rest];
      hide Encode8;
      assert Encode8All(cps)[..m] == Encode8(cps[0]) + Encode8All(cps[1..])[..m - |Encode8(cps[0])|];
    }
  }

  lemma RepairFront(cp: Scalar, tail: seq<Byte>)
    ensures ReplaceInvalid8(Encode8(cp) + tail) == Encode8(cp) + ReplaceInvalid8(tail)
  {
    hide Encode8, ValidateNext;
    ValidatesEncoded(cp, tail);
    DropEncoded(cp, tail);
  }

  lemma {:induction false} RepairBehind(cps: seq<Scalar>, rest: seq<Byte>)
    ensures ReplaceInvalid8(Encode8All(cps) + rest) == Encode8All(cps) + ReplaceInvalid8(rest)
  {
    hide Encode8, ReplaceInvalid8;
    if cps == [] {
      assert Encode8All(cps) + rest == rest;
      assert Encode8All(cps) + ReplaceInvalid8(rest) == ReplaceInvalid8(rest);
    } else {
      RepairBehind(cps[1..], rest);
      RepairFront(cps[0], Encode8All(cps[1..]) + rest);
      Regroup(Encode8(cps[0]), Encode8All(cps[1..]), rest);
      Regroup(Encode8(cps[0]), Encode8All(cps[1..]), ReplaceInvalid8(rest));
    }
  }

  /** Whole code points convert to themselves, and a cut one to a single replacement mark. */
  lemma LenientCut(cps: seq<Scalar>, cp: Scalar, k: nat)
    requires k < |Encode8(cp)|
    ensures LenientUtf8To16(Encode8All(cps) + Encode8(cp)[..k])
      == Encode16All(cps) + if k == 0 then [] else [REPLACEMENT as CodeUnit]
  {
    if k == 0 {
      EncodedIsValid(cps);
      assert Encode8All(cps) + [] == Encode8All(cps);
    } else {
      var partial := Encode8(cp)[..k];
      ValidatesCut(cp, k);
      ValidBehind(cps, partial);
      RepairBehind(cps, partial);
      EncodedIsValid([REPLACEMENT]);
      assert Encode8All([REPLACEMENT]) == Encode8(REPLACEMENT);
      assert Encode16All([REPLACEMENT]) == [REPLACEMENT as CodeUnit];
      ValidBehind(cps, Encode8(REPLACEMENT));
    }
  }

  /** What a cut text converts to: the first units of the full text and at most a mark behind them;
      the units are all of the text, or as many as a third of the bytes before the cut code point. */
  lemma CutConverts(cps: seq<Scalar>, m: nat) returns (kept: seq<CodeUnit>, mark: seq<CodeUnit>)
    requires m <= |Encode8All(cps)|
    ensures LenientUtf8To16(Encode8All(cps)[..m]) == kept + mark && kept <= Encode16All(cps)
    ensures if m == |Encode8All(cps)| then mark == [] && kept == Encode16All(cps) else m - 3 <= 3 * |kept|
  {
    var j, k := Cut(cps, m);
    LenientCut(cps[..j], if k == 0 then 0x41 else cps[j], k);
    Encode16Prefix(cps, j);
    BytesPerUnit(cps[..j]);
    kept, mark := Encode16All(cps[..j]), if k == 0 then [] else [REPLACEMENT as CodeUnit];
    if m == |Encode8All(cps)| {
      EncodedIsValid(cps);
      assert Encode8All(cps)[..m] == Encode8All(cps);
      kept, mark := Encode16All(cps), [];
    }
  }

  /** With three bytes for every unit the cut never reaches into the units the application has room for. */
  lemma ExactWhenBufferFits(cps: Name, bufferLength: int)
    requires 1 <= bufferLength && 3 * bufferLength <= SMALLINT_MAX
    ensures Exact(cps, bufferLength)
  {
    hide Encode8All, Encode16All, CString, LenientUtf8To16;
    var bytes := Encode8All(cps);
    var m := Min(|bytes|, 3 * bufferLength - 1);
    NoNul(cps);
    CStringStops(bytes[..m], []);
    var kept, mark := CutConverts(cps, m);
    assert NameBytes(bytes, bufferLength) == bytes[..m];
  }

  // ---------------------------------------------------------------- larger buffers are clamped

  function Repeat(n: nat): (cps: Name)
    ensures |cps| == n && forall i | 0 <= i < n :: cps[i] == 0x800
  {
    seq(n, _ => 0x800)
  }

  lemma {:induction false} Encode8Append(a: seq<Scalar>, b: seq<Scalar>)
    ensures Encode8All(a + b) == Encode8All(a) + Encode8All(b)
  {
    hide Encode8;
    if a == [] {
      assert a + b == b;
    } else {
      Encode8Append(a[1..], b);
      assert (a + b)[1..] == a[1..] + b;
      Regroup(Encode8(a[0]), Encode8All(a[1..]), Encode8All(b));
    }
  }

  lemma {:induction false} Encode16Append(a: seq<Scalar>, b: seq<Scalar>)
    ensures Encode16All(a + b) == Encode16All(a) + Encode16All(b)
  {
    hide Encode16;
    if a == [] {
      assert a + b == b;
    } else {
      Encode16Append(a[1..], b);
      assert (a + b)[1..] == a[1..] + b;
      Regroup(Encode16(a[0]), Encode16All(a[1..]), Encode16All(b));
    }
  }

  lemma {:induction false} RepeatEncoded(n: nat)
    ensures |Encode8All(Repeat(n))| == 3 * n && |Encode16All(Repeat(n))| == n
  {
    if n != 0 {
      RepeatEncoded(n - 1);
      assert Repeat(n)[1..] == Repeat(n - 1);
      assert |Encode8(0x800)| == 3 && |Encode16(0x800)| == 1;
    }
  }

  /** A name whose last character is cut, although the application has room for more units than fit before it. */
  lemma CutNameIsMarked(name: Name, cp: Scalar, bufferLength: int)
    requires 1 <= bufferLength <= SMALLINT_MAX && 0x1_0000 <= cp
    requires |Encode8All(name)| + 3 == AllocLength(bufferLength) - 1 && |Encode16All(name)| < bufferLength - 1
    requires Encode8All(name + [cp]) == Encode8All(name) + Encode8(cp)
    requires Encode16All(name + [cp]) == Encode16All(name) + Encode16(cp)
    ensures !Exact(name + [cp], bufferLength)
  {
    var m, n := |Encode8All(name)| + 3, |Encode16All(name)|;
    var bytes, units := Encode8All(name + [cp]), Encode16All(name + [cp]);
    assert |Encode8(cp)| == 4 && IsLead(Encode16(cp)[0]);
    hide Encode8All, Encode16All, Encode8, Encode16, CString, LenientUtf8To16;
    NoNul(name + [cp]);
    CStringStops(bytes[..m], []);
    LenientCut(name, cp, 3);
    assert bytes[..m] == Encode8All(name) + Encode8(cp)[..3];
    assert NameBytes(bytes, bufferLength) == bytes[..m];
    assert units[n] == Encode16(cp)[0];
    assert WrittenUnits(bytes[..m], bufferLength)[n] == REPLACEMENT;
  }

  lemma LargeBufferIsClamped(bufferLength: int)
    requires 10923 <= bufferLength <= SMALLINT_MAX
    ensures AllocLength(bufferLength) == SMALLINT_MAX
  {
  }

  lemma EncodedAlone(cp: Scalar)
    ensures Encode8All([cp]) == Encode8(cp) && Encode16All([cp]) == Encode16(cp)
    ensures cp >= 0x1_0000 ==> |Encode8(cp)| == 4 && |Encode16(cp)| == 2
  {
  }

  /** 10921 characters of three bytes and one of four are one byte more than the clamped buffer holds. */
  lemma LongNameIsMarked(bufferLength: int)
    requires 10923 <= bufferLength <= SMALLINT_MAX
    ensures exists cps: Name :: !Exact(cps, bufferLength)
  {
    hide Encode8All, Encode16All, Encode8, Encode16, Repeat, Exact, AllocLength;
    var cp: Scalar, name := 0x1_0000, Repeat(10921);
    LargeBufferIsClamped(bufferLength);
    EncodedAlone(cp);
    RepeatEncoded(10921);
    Encode8Append(name, [cp]);
    Encode16Append(name, [cp]);
    CutNameIsMarked(name, cp, bufferLength);
  }

  /** Main result: names of every length and content arrive exactly, exactly when the buffer is not
      larger than 10922 units, that is when three bytes per unit stay within a small integer. */
  lemma ExactForAllNamesExactlyWhen(bufferLength: int)
    requires 1 <= bufferLength <= SMALLINT_MAX
    ensures (forall cps: Name :: Exact(cps, bufferLength)) <==> 3 * bufferLength <= SMALLINT_MAX
  {
    if 3 * bufferLength <= SMALLINT_MAX {
      forall cps: Name ensures Exact(cps, bufferLength) {
        ExactWhenBufferFits(cps, bufferLength);
      }
    } else {
      LongNameIsMarked(bufferLength);
    }
  }
}

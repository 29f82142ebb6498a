/** Describing a column to a wide-character application: the name goes through a UTF-8 buffer of
    three bytes per unit, and is converted from there. */
module DescribeCol {
  import opened Common
  import opened Utf
  import opened WideChar

  /** The length of the intermediate buffer: a negative length becomes a huge size first. */
  function AllocLength(utf16Len: int): (n: nat)
    requires -SMALLINT_MAX - 1 <= utf16Len <= SMALLINT_MAX
    ensures n <= SMALLINT_MAX && (1 <= utf16Len ==> n == Min(3 * utf16Len, SMALLINT_MAX))
  {
    var size := if utf16Len < 0 then utf16Len + SIZE_T_RANGE else utf16Len;
    Min(size * 3 % SIZE_T_RANGE, SMALLINT_MAX)
  }

  /** What a reader of a NUL-terminated string sees. */
  function CString(s: seq<Byte>): (c: seq<Byte>)
    ensures c <= s && 0 !in c && (|c| < |s| ==> s[|c|] == 0)
  {
    if s == [] || s[0] == 0 then [] else [s[0]] + CString(s[1..])
  }

  lemma {:induction false} CStringStops(c: seq<Byte>, rest: seq<Byte>)
    requires 0 !in c
    ensures CString(c + [0] + rest) == c && CString(c) == c
  {
    if c == [] {
      assert (c + [0] + rest)[0] == 0;
    } else {
      CStringStops(c[1..], rest);
      assert (c + [0] + rest)[1..] == c[1..] + [0] + rest;
    }
  }

  /** Formatted output of a string into a bounded buffer: cut, terminated, and counted in full, in 16 bits;
      without a buffer nothing is counted. */
  method WriteString(s: seq<Byte>, hasOut: bool, outBuf: array<Byte>, bufLen: nat) returns (written: int)
    requires hasOut ==> bufLen <= outBuf.Length
    modifies outBuf
    ensures written == if hasOut then ToSmallInt(|CString(s)|) else 0
    ensures !hasOut || bufLen == 0 ==> outBuf[..] == old(outBuf[..])
    ensures hasOut && 0 < bufLen ==>
      var cut := Min(|CString(s)|, bufLen - 1); outBuf[..] == CString(s)[..cut] + [0] + old(outBuf[..])[cut + 1..]
  {
    if !hasOut {
      return 0;
    }
    var text := CString(s);
    written := ToSmallInt(|text|);
    if 0 < bufLen {
      var cut := Min(|text|, bufLen - 1);
      forall i | 0 <= i < cut {
        outBuf[i] := text[i];
      }
      outBuf[cut] := 0;
      assert outBuf[..] == text[..cut] + [0] + old(outBuf[..])[cut + 1..];
    }
  }

  /** The units an application receives for a UTF-8 text. */
  function WrittenUnits(utf8Vec: seq<Byte>, bufferLenChars: int): seq<CodeUnit>
    requires 1 <= bufferLenChars
  {
    var units := LenientUtf8To16(CString(utf8Vec));
    units[..Min(|units|, bufferLenChars - 1)]
  }

  lemma EmptyConverts()
    ensures LenientUtf8To16([]) == []
  {
  }

  /** Converts and writes what fits, with a terminator, and stores the number of units; nothing at all after
      a failure. */
  method Utf16WriteStr(succeeded: bool, utf8Vec: seq<Byte>, hasOut: bool, out: array<CodeUnit>, bufferLenChars: int)
    returns (lenOut: Option<nat>)
    requires hasOut ==> bufferLenChars <= out.Length
    modifies out
    ensures lenOut == None <==> !succeeded
    ensures !succeeded || !hasOut ==> out[..] == old(out[..])
    ensures succeeded && (utf8Vec == [] || bufferLenChars <= 0) ==> lenOut == Some(0) && out[..] == old(out[..])
    ensures succeeded && utf8Vec != [] && 1 <= bufferLenChars ==>
      var units := WrittenUnits(utf8Vec, bufferLenChars);
      lenOut == Some(|units|) && (hasOut ==> out[..] == units + [0] + old(out[..])[|units| + 1..])
  {
    hide LenientUtf8To16;
    if !succeeded {
      return None;
    }
    if utf8Vec == [] || bufferLenChars <= 0 {
      return Some(0);
    }
    var text := CString(utf8Vec);
    if text == [] || bufferLenChars == 1 {
      EmptyConverts();
      if hasOut {
        out[0] := 0;
      }
      return Some(0);
    }
    var units, firstInvalid := Utf8ToUtf16Lenient(text);
    var count := Min(|units|, bufferLenChars - 1);
    if hasOut {
      forall i | 0 <= i < count {
        out[i] := units[i];
      }
      out[count] := 0;
      assert out[..] == units[..count] + [0] + old(out[..])[count + 1..];
    }
    lenOut := Some(count);
  }

  /** The bytes of the name that reach the intermediate buffer. */
  function NameBytes(name: seq<Byte>, bufferLength: int): seq<Byte>
    requires 1 <= bufferLength <= SMALLINT_MAX
  {
    name[..Min(|name|, AllocLength(bufferLength) - 1)]
  }

  /** The narrow call that fills the intermediate buffer with the column's name. */
  method DescribeColInternal(names: seq<seq<Byte>>, columnNumber: nat, vec: array<Byte>) returns (succeeded: bool)
    requires (forall name | name in names :: 0 !in name) && 1 <= columnNumber
    modifies vec
    ensures succeeded == (columnNumber <= |names|)
    ensures !succeeded || vec.Length == 0 ==> vec[..] == old(vec[..])
    ensures succeeded && 0 < vec.Length ==>
      var name := names[columnNumber - 1];
      var cut := Min(|name|, vec.Length - 1);
      vec[..] == name[..cut] + [0] + old(vec[..])[cut + 1..]
  {
    if columnNumber > |names| {
      return false;
    }
    var name := names[columnNumber - 1];
    assert name in names;
    CStringStops(name, []);
    var written := WriteString(name, true, vec, vec.Length);
    succeeded := true;
  }

  /** Describes a column by its name; a column that does not exist is an error and changes nothing. */
  method DescribeColW(names: seq<seq<Byte>>, columnNumber: nat, hasName: bool, columnName: array<CodeUnit>,
                      bufferLength: int)
    returns (succeeded: bool, nameLength: Option<nat>)
    requires (forall name | name in names :: 0 !in name) && 1 <= columnNumber
    requires -SMALLINT_MAX - 1 <= bufferLength <= SMALLINT_MAX && (hasName ==> bufferLength <= columnName.Length)
    modifies columnName
    ensures succeeded == (columnNumber <= |names|)
    ensures !succeeded ==> nameLength == None && columnName[..] == old(columnName[..])
    ensures succeeded && bufferLength <= 0 ==> nameLength == Some(0) && columnName[..] == old(columnName[..])
    ensures succeeded && 1 <= bufferLength ==>
      var units := WrittenUnits(NameBytes(names[columnNumber - 1], bufferLength), bufferLength);
      nameLength == Some(|units|) && (hasName ==> columnName[..] == units + [0] + old(columnName[..])[|units| + 1..])
  {
    var vec := new Byte[AllocLength(bufferLength)](_ => 0);
    hide CString, WrittenUnits, AllocLength, NameBytes;
    succeeded := DescribeColInternal(names, columnNumber, vec);
    if succeeded && 1 <= bufferLength {
      var name := names[columnNumber - 1];
      assert name in names;
      AllocLengthIsPositive(bufferLength);
      NameReachesBuffer(name, bufferLength, vec[..], vec[..][Min(|name|, vec.Length - 1) + 1..]);
    }
    nameLength := Utf16WriteStr(succeeded, vec[..], hasName, columnName, bufferLength);
  }

  lemma AllocLengthIsPositive(bufferLength: int)
    requires 1 <= bufferLength <= SMALLINT_MAX
    ensures 1 <= AllocLength(bufferLength)
  {
  }

  lemma NameReachesBuffer(name: seq<Byte>, bufferLength: int, buffer: seq<Byte>, rest: seq<Byte>)
    requires 0 !in name && 1 <= bufferLength <= SMALLINT_MAX
    requires buffer == name[..Min(|name|, AllocLength(bufferLength) - 1)] + [0] + rest
    ensures WrittenUnits(buffer, bufferLength) == WrittenUnits(NameBytes(name, bufferLength), bufferLength)
  {
    CStringStops(NameBytes(name, bufferLength), rest);
  }
}

/**
 * Sequences of code points and the bytes that encode them: where each code point starts, which
 * bytes are boundaries, counting, indexing, and the conversions between UTF-8 and UTF-32.
 */
module Utf8Sequences {
  import opened Utf8

  /** What four bytes can hold; every scalar value is one. */
  type Encodable = cp: CodePoint | cp <= 0x1FFFFF

  ghost function Encode(cps: seq<Encodable>): seq<Byte> {
    if cps == [] then [] else EncodeCp(cps[0]) + Encode(cps[1..])
  }

  /** Where the i-th code point starts. */
  ghost function Offset(cps: seq<Encodable>, i: nat): nat
    requires i <= |cps|
  {
    |Encode(cps[..i])|
  }

  lemma {:induction false} EncodeAppend(a: seq<Encodable>, b: seq<Encodable>)
    ensures Encode(a + b) == Encode(a) + Encode(b)
  {
    if a == [] {
      assert a + b == b;
    } else {
      assert (a + b)[1..] == a[1..] + b;
      EncodeAppend(a[1..], b);
    }
  }

  lemma EncodeNothing()
    ensures Encode([]) == []
  {
  }

  lemma EncodeSingle(cp: Encodable)
    ensures Encode([cp]) == EncodeCp(cp)
  {
    assert [cp][1..] == [];
  }

  lemma EncodeSplit(cps: seq<Encodable>, i: nat)
    requires i <= |cps|
    ensures Offset(cps, i) <= |Encode(cps)|
    ensures Encode(cps)[..Offset(cps, i)] == Encode(cps[..i]) && Encode(cps)[Offset(cps, i)..] == Encode(cps[i..])
  {
    assert cps == cps[..i] + cps[i..];
    EncodeAppend(cps[..i], cps[i..]);
  }

  lemma OffsetEnds(cps: seq<Encodable>)
    ensures Offset(cps, 0) == 0 && Offset(cps, |cps|) == |Encode(cps)|
  {
    assert cps[..0] == [] && cps[..|cps|] == cps;
  }

  lemma OffsetNext(cps: seq<Encodable>, i: nat)
    requires i < |cps|
    ensures Offset(cps, i + 1) == Offset(cps, i) + SizeOfCodePoint(cps[i])
  {
    assert cps[..i + 1] == cps[..i] + [cps[i]];
    EncodeAppend(cps[..i], [cps[i]]);
    EncodeSingle(cps[i]);
  }

  lemma {:induction false} OffsetMonotone(cps: seq<Encodable>, i: nat, j: nat)
    requires i <= j <= |cps|
    ensures Offset(cps, i) + (j - i) <= Offset(cps, j)
    decreases j - i
  {
    if i < j {
      OffsetNext(cps, i);
      OffsetMonotone(cps, i + 1, j);
    }
  }

  /** Decoding looks at no more than the lead byte announces. */
  lemma DecodePrefix(s: seq<Byte>, t: seq<Byte>)
    requires HoldsLead(s) && s <= t
    ensures HoldsLead(t) && DecodeCp(t) == DecodeCp(s)
  {
    assert forall i :: 0 <= i < |s| ==> t[i] == s[i];
  }

  /** The unit at the front of encoded text, whatever comes after it. */
  lemma FrontUnit(cp: Encodable, s: seq<Byte>)
    requires EncodeCp(cp) <= s
    ensures HoldsLead(s) && SizeOfLead(s[0]) == SizeOfCodePoint(cp) && DecodeCp(s) == cp
    ensures forall k :: 0 < k < SizeOfCodePoint(cp) ==> IsContinuation(s[k])
  {
    EncodeDecode(cp);
    DecodePrefix(EncodeCp(cp), s);
    assert forall i :: 0 <= i < |EncodeCp(cp)| ==> s[i] == EncodeCp(cp)[i];
  }

  /** Reading at the offset of a code point finds that code point and the way to the next one. */
  lemma UnitAtOffset(cps: seq<Encodable>, i: nat, s: seq<Byte>)
    requires i < |cps| && Encode(cps) <= s
    ensures var at := Offset(cps, i);
      && at < Offset(cps, i + 1) <= |Encode(cps)|
      && HoldsLead(s[at..]) && DecodeCp(s[at..]) == cps[i]
      && at + SizeOfLead(s[at]) == at + SizeOfCodePoint(cps[i]) == Offset(cps, i + 1)
  {
    var at := Offset(cps, i);
    OffsetNext(cps, i);
    OffsetMonotone(cps, i + 1, |cps|);
    OffsetEnds(cps);
    EncodeSplit(cps, i);
    PrefixAt(Encode(cps), s, at, EncodeCp(cps[i]), Encode(cps[i..][1..]));
    FrontUnit(cps[i], s[at..]);
  }

  lemma PrefixAt(e: seq<Byte>, s: seq<Byte>, at: nat, unit: seq<Byte>, rest: seq<Byte>)
    requires e <= s && at <= |e| && e[at..] == unit + rest
    ensures unit <= s[at..]
  {
    assert forall k :: 0 <= k < |unit| ==> s[at..][k] == e[at..][k] == unit[k];
  }

  /** Only the end of the text has the offset of the end of the bytes. */
  lemma MeetsEnd(a: seq<Encodable>, i: nat)
    requires i <= |a|
    ensures Offset(a, i) <= |Encode(a)| && (Offset(a, i) == |Encode(a)| <==> i == |a|)
  {
    OffsetMonotone(a, i, |a|);
    OffsetEnds(a);
  }

  // ----- boundaries

  /** How many bytes are not continuation bytes. */
  function Leads(s: seq<Byte>): (n: nat)
    ensures n <= |s|
  {
    if s == [] then 0 else (if IsContinuation(s[|s| - 1]) then 0 else 1) + Leads(s[..|s| - 1])
  }

  lemma {:induction false} LeadsAppend(s: seq<Byte>, t: seq<Byte>)
    ensures Leads(s + t) == Leads(s) + Leads(t)
  {
    if t == [] {
      assert s + t == s;
    } else {
      assert (s + t)[..|s + t| - 1] == s + t[..|t| - 1];
      LeadsAppend(s, t[..|t| - 1]);
    }
  }

  lemma {:induction false} OnlyContinuations(s: seq<Byte>)
    requires forall k :: 0 <= k < |s| ==> IsContinuation(s[k])
    ensures Leads(s) == 0
  {
    if s != [] {
      OnlyContinuations(s[..|s| - 1]);
    }
  }

  lemma LeadsOfUnit(cp: Encodable)
    ensures Leads(EncodeCp(cp)) == 1
  {
    var s := EncodeCp(cp);
    FrontUnit(cp, s);
    assert s == s[..1] + s[1..];
    LeadsAppend(s[..1], s[1..]);
    OnlyContinuations(s[1..]);
    assert Leads(s[..1]) == 1 by { assert s[..1][..0] == []; }
  }

  /** Counting the bytes that are not continuations counts the code points. */
  lemma {:induction false} LeadsOfEncode(cps: seq<Encodable>)
    ensures Leads(Encode(cps)) == |cps|
  {
    if cps != [] {
      LeadsAppend(EncodeCp(cps[0]), Encode(cps[1..]));
      LeadsOfUnit(cps[0]);
      LeadsOfEncode(cps[1..]);
    }
  }

  /** A byte of encoded text that is not a continuation is where a code point starts, and the other way around. */
  lemma {:induction false} BoundaryIsOffset(cps: seq<Encodable>, p: nat) returns (i: nat)
    requires p < |Encode(cps)| && !IsContinuation(Encode(cps)[p])
    ensures i < |cps| && Offset(cps, i) == p
  {
    var size := SizeOfCodePoint(cps[0]);
    FrontUnit(cps[0], Encode(cps));
    if p < size {
      i := 0;
      OffsetEnds(cps);
    } else {
      var j := BoundaryIsOffset(cps[1..], p - size);
      i := j + 1;
      assert cps[..i][1..] == cps[1..][..j];
    }
  }

  lemma LeadsBefore(cps: seq<Encodable>, i: nat)
    requires i <= |cps|
    ensures Offset(cps, i) <= |Encode(cps)| && Leads(Encode(cps)[..Offset(cps, i)]) == i
  {
    EncodeSplit(cps, i);
    LeadsOfEncode(cps[..i]);
  }

  /** Text is a prefix of other text when its bytes are: no encoding is cut in the middle. */
  lemma {:induction false} PrefixOfBytes(a: seq<Encodable>, b: seq<Encodable>)
    requires Encode(a) <= Encode(b)
    ensures a <= b
  {
    if a != [] {
      FrontUnit(a[0], Encode(a));
      assert EncodeCp(a[0]) <= Encode(b);
      FrontUnit(a[0], Encode(b));
      FrontUnit(b[0], Encode(b));
      var size := SizeOfCodePoint(a[0]);
      assert Encode(a[1..]) == Encode(a)[size..] && Encode(b[1..]) == Encode(b)[size..];
      assert Encode(a)[size..] <= Encode(b)[size..];
      PrefixOfBytes(a[1..], b[1..]);
      assert a == [a[0]] + a[1..] && b == [b[0]] + b[1..];
    }
  }

  /** Different texts have different bytes. */
  lemma EncodeInjective(a: seq<Encodable>, b: seq<Encodable>)
    requires Encode(a) == Encode(b)
    ensures a == b
  {
    PrefixOfBytes(a, b);
    PrefixOfBytes(b, a);
  }

  // ----- the loops

  /** Counts the code points of a buffer. */
  method Utf8Length(str: seq<Byte>) returns (length: nat)
    ensures length == Leads(str)
    ensures forall cps: seq<Encodable> {:trigger Encode(cps)} :: str == Encode(cps) ==> length == |cps|
  {
    length := 0;
    var i := 0;
    while i < |str|
      invariant i <= |str| && length == Leads(str[..i])
    {
      assert str[..i + 1][..i] == str[..i];
      if str[i] / 0x40 != 2 {
        length := length + 1;
      }
      i := i + 1;
    }
    assert str[..i] == str;
    forall cps: seq<Encodable> {:trigger Encode(cps)} | str == Encode(cps)
      ensures length == |cps|
    {
      LeadsOfEncode(cps);
    }
  }

  /** Steps over code points by the sizes their lead bytes announce. */
  method GetCpAtIndex(str: seq<Byte>, index: nat, ghost cps: seq<Encodable>) returns (at: nat)
    requires Encode(cps) <= str && index <= |cps|
    ensures at == Offset(cps, index) && at <= |Encode(cps)|
  {
    at := 0;
    OffsetEnds(cps);
    for i := 0 to index
      invariant at == Offset(cps, i) && at <= |Encode(cps)|
    {
      UnitAtOffset(cps, i, str);
      at := at + SizeOfLead(str[at]);
    }
  }

  /** The size of the unit that starts at the offset of a code point. */
  method SizeOfUnitAt(str: seq<Byte>, at: nat, ghost i: nat, ghost cps: seq<Encodable>) returns (size: nat)
    requires Encode(cps) <= str && i < |cps| && at == Offset(cps, i)
    ensures at < at + size == Offset(cps, i + 1) <= |Encode(cps)|
  {
    UnitAtOffset(cps, i, str);
    size := SizeOfLead(str[at]);
  }

  /** The buffer after x was written at a position. */
  function Written(s: seq<Byte>, at: nat, x: seq<Byte>): (r: seq<Byte>)
    requires at + |x| <= |s|
    ensures |r| == |s|
  {
    s[..at] + x + s[at + |x|..]
  }

  /** Writes one code point into a buffer. */
  method EncodeCpAt(out: array<Byte>, at: nat, cp: CodePoint)
    requires at + SizeOfCodePoint(cp) <= out.Length
    modifies out
    ensures out[..] == Written(old(out[..]), at, EncodeCp(cp))
  {
    var size := SizeOfCodePoint(cp);
    if size == 1 {
      out[at] := cp;
    } else if size == 2 {
      out[at] := 0xc0 + cp / 0x40;
      out[at + 1] := 0x80 + cp % 0x40;
    } else if size == 3 {
      out[at] := 0xe0 + cp / 0x1000;
      out[at + 1] := 0x80 + cp / 0x40 % 0x40;
      out[at + 2] := 0x80 + cp % 0x40;
    } else {
      out[at] := 0xf0 + cp / 0x4_0000 % 0x10;
      out[at + 1] := 0x80 + cp / 0x1000 % 0x40;
      out[at + 2] := 0x80 + cp / 0x40 % 0x40;
      out[at + 3] := 0x80 + cp % 0x40;
    }
  }

  /** Writes the unit of the i-th code point after those before it. */
  method WriteNext(out: array<Byte>, at: nat, cp: CodePoint, ghost i: nat, ghost cps: seq<Encodable>)
    returns (next: nat)
    requires i < |cps| && cp == cps[i] && at == Offset(cps, i) && |Encode(cps)| <= out.Length
    requires at <= out.Length && out[..at] == Encode(cps[..i])
    modifies out
    ensures at < next == Offset(cps, i + 1) <= |Encode(cps)| && out[..next] == Encode(cps[..i + 1])
    ensures forall k :: next <= k < out.Length ==> out[k] == old(out[k])
  {
    RoomForNext(cps, i);
    ghost var before := out[..];
    EncodeCpAt(out, at, cp);
    WrittenUnit(cps, i, before, out[..]);
    LeadTellsSize(cps[i]);
    assert out[at] == EncodeCp(cp)[0];
    next := at + SizeOfLead(out[at]);
  }

  lemma RoomForNext(cps: seq<Encodable>, i: nat)
    requires i < |cps|
    ensures Offset(cps, i) + SizeOfCodePoint(cps[i]) == Offset(cps, i + 1) <= |Encode(cps)|
  {
    OffsetNext(cps, i);
    OffsetMonotone(cps, i + 1, |cps|);
    OffsetEnds(cps);
  }

  lemma LeadTellsSize(cp: Encodable)
    ensures SizeOfLead(EncodeCp(cp)[0]) == SizeOfCodePoint(cp)
  {
    EncodeDecode(cp);
  }

  /** Reads code points up to the null and writes their bytes; the size is read back from the lead byte. */
  method Utf32ToUtf8(str: seq<CodePoint>, out: array<Byte>, ghost cps: seq<Encodable>) returns (byteLength: nat)
    requires 0 !in cps && cps + [0] <= str && |Encode(cps)| <= out.Length
    modifies out
    ensures byteLength == |Encode(cps)| && out[..byteLength] == Encode(cps)
    ensures forall k :: byteLength <= k < out.Length ==> out[k] == old(out[k])
  {
    byteLength := 0;
    var i := 0;
    OffsetEnds(cps);
    NullEnds(str, cps);
    while str[i] != 0
      invariant i <= |cps| && byteLength == Offset(cps, i) <= |Encode(cps)|
      invariant out[..byteLength] == Encode(cps[..i])
      invariant forall k :: byteLength <= k < out.Length ==> out[k] == old(out[k])
      decreases |cps| - i
    {
      byteLength := WriteNext(out, byteLength, str[i], i, cps);
      i := i + 1;
    }
    assert cps[..i] == cps;
  }

  lemma NullEnds(str: seq<CodePoint>, cps: seq<Encodable>)
    requires 0 !in cps && cps + [0] <= str
    ensures |cps| < |str| && str[|cps|] == 0 && forall i :: 0 <= i < |cps| ==> str[i] == cps[i] != 0
  {
    assert forall i :: 0 <= i <= |cps| ==> str[i] == (cps + [0])[i];
  }

  /** One more unit after the units of the code points before it. */
  lemma WrittenUnit(cps: seq<Encodable>, i: nat, before: seq<Byte>, after: seq<Byte>)
    requires i < |cps| && Offset(cps, i) + SizeOfCodePoint(cps[i]) == Offset(cps, i + 1) <= |before|
    requires before[..Offset(cps, i)] == Encode(cps[..i])
    requires after == Written(before, Offset(cps, i), EncodeCp(cps[i]))
    ensures |after| == |before| && after[..Offset(cps, i + 1)] == Encode(cps[..i + 1])
    ensures forall k :: Offset(cps, i + 1) <= k < |before| ==> after[k] == before[k]
  {
    assert cps[..i + 1] == cps[..i] + [cps[i]];
    EncodeAppend(cps[..i], [cps[i]]);
    EncodeSingle(cps[i]);
    WrittenAfter(before, Encode(cps[..i]), EncodeCp(cps[i]));
  }

  lemma WrittenAfter(before: seq<Byte>, front: seq<Byte>, unit: seq<Byte>)
    requires |front| + |unit| <= |before| && front == before[..|front|]
    ensures var after := Written(before, |front|, unit);
      && after[..|front| + |unit|] == front + unit
      && forall k :: |front| + |unit| <= k < |before| ==> after[k] == before[k]
  {
  }

  /** What stands at the offset of a code point. */
  method NextCp(str: seq<Byte>, at: nat, ghost i: nat, ghost cps: seq<Encodable>) returns (cp: CodePoint)
    requires Encode(cps) <= str && i < |cps| && at == Offset(cps, i)
    ensures cp == cps[i] && at + SizeOfCodePoint(cp) == Offset(cps, i + 1) <= |str|
  {
    UnitAtOffset(cps, i, str);
    cp := DecodeCp(str[at..]);
  }

  /** Decodes a given number of code points and adds a null; steps by the size of what it decoded. */
  method Utf8ToUtf32(str: seq<Byte>, length: nat, out: array<CodePoint>, ghost cps: seq<Encodable>)
    requires Encode(cps) <= str && length == |cps| < out.Length
    modifies out
    ensures out[..] == cps + [0] + old(out[length + 1..])
  {
    var at := 0;
    OffsetEnds(cps);
    for i := 0 to length
      invariant at == Offset(cps, i) <= |str|
      invariant forall k :: 0 <= k < i ==> out[k] == cps[k]
      invariant forall k :: i <= k < out.Length ==> out[k] == old(out[k])
    {
      var cp := NextCp(str, at, i, cps);
      out[i] := cp;
      at := at + SizeOfCodePoint(cp);
    }
    out[length] := 0;
  }

  /** Converting null-free text to UTF-8 and back gives the text. */
  method RoundTrip(str: seq<CodePoint>, buffer: array<Byte>, out: array<CodePoint>, ghost cps: seq<Encodable>)
    requires 0 !in cps && str == cps + [0] && |Encode(cps)| <= buffer.Length && |str| <= out.Length
    modifies buffer, out
    ensures out[..|str|] == str
  {
    var byteLength := Utf32ToUtf8(str, buffer, cps);
    var length := Utf8Length(buffer[..byteLength]);
    Utf8ToUtf32(buffer[..byteLength], length, out, cps);
  }
}

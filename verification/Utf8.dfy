/**
 * One code point in UTF-8: sizes, encoding, decoding, validity (sections 3 and 4 of RFC 3629).
 * Bytes and code points are numbers, so a mask that keeps the lowest k bits is a remainder by
 * 2^k, a test of the top bits is a quotient, and joining fields without a common bit is a sum.
 */
module Utf8 {

  type Byte = b: int | 0 <= b < 0x100
  type CodePoint = c: int | 0 <= c < 0x1_0000_0000

  /** What Unicode calls a scalar value: everything up to 10FFFF but the surrogates. */
  predicate IsScalar(cp: CodePoint) {
    cp <= 0x10FFFF && !(0xD800 <= cp <= 0xDFFF)
  }

  /** The top two bits are 10. */
  predicate IsContinuation(b: Byte) {
    b / 0x40 == 2
  }

  /** The size of the code point a byte leads; 0 for a continuation byte. */
  function SizeOfLead(b: Byte): (n: nat)
    ensures n <= 4 && (n == 0 <==> IsContinuation(b))
  {
    if b / 0x40 == 2 then 0
    else if b / 0x08 == 0x1e then 4
    else if b / 0x10 == 0x0e then 3
    else if b / 0x20 == 0x06 then 2
    else 1
  }

  /** The size a code point takes when it is encoded. */
  function SizeOfCodePoint(cp: CodePoint): (n: nat)
    ensures 1 <= n <= 4
  {
    if cp / 0x80 == 0 then 1
    else if cp / 0x800 == 0 then 2
    else if cp / 0x1_0000 == 0 then 3
    else 4
  }

  /** The lead byte of four only takes four bits from the code point, whatever its size. */
  function EncodeCp(cp: CodePoint): (s: seq<Byte>)
    ensures |s| == SizeOfCodePoint(cp)
  {
    var size := SizeOfCodePoint(cp);
    if size == 1 then
      [cp]
    else if size == 2 then
      [0xc0 + cp / 0x40, 0x80 + cp % 0x40]
    else if size == 3 then
      [0xe0 + cp / 0x1000, 0x80 + cp / 0x40 % 0x40, 0x80 + cp % 0x40]
    else
      [0xf0 + cp / 0x4_0000 % 0x10, 0x80 + cp / 0x1000 % 0x40, 0x80 + cp / 0x40 % 0x40, 0x80 + cp % 0x40]
  }

  predicate HoldsLead(s: seq<Byte>) {
    |s| > 0 && SizeOfLead(s[0]) <= |s|
  }

  /** The lowest bits of a byte. */
  function Low(b: Byte, modulus: int): int
    requires modulus > 0
  {
    b % modulus
  }

  function DecodeCp(s: seq<Byte>): CodePoint
    requires HoldsLead(s)
  {
    if s[0] / 0x08 == 0x1e then
      Low(s[0], 0x08) * 0x4_0000 + Low(s[1], 0x40) * 0x1000 + Low(s[2], 0x40) * 0x40 + Low(s[3], 0x40)
    else if s[0] / 0x10 == 0x0e then
      Low(s[0], 0x10) * 0x1000 + Low(s[1], 0x40) * 0x40 + Low(s[2], 0x40)
    else if s[0] / 0x20 == 0x06 then
      Low(s[0], 0x20) * 0x40 + Low(s[1], 0x40)
    else
      s[0]
  }

  /** A well-formed encoding: a lead byte of the right size, then continuation bytes. */
  predicate IsUnit(s: seq<Byte>) {
    |s| > 0 && SizeOfLead(s[0]) == |s| && forall i :: 0 < i < |s| ==> IsContinuation(s[i])
  }

  /** A code point is the sum of its six-bit groups. */
  lemma Groups(cp: CodePoint)
    ensures cp == cp / 0x40 * 0x40 + cp % 0x40
    ensures cp == cp / 0x1000 * 0x1000 + cp / 0x40 % 0x40 * 0x40 + cp % 0x40
    ensures cp == cp / 0x4_0000 * 0x4_0000 + cp / 0x1000 % 0x40 * 0x1000 + cp / 0x40 % 0x40 * 0x40 + cp % 0x40
  {
    assert cp / 0x40 / 0x40 == cp / 0x1000;
    assert cp / 0x1000 / 0x40 == cp / 0x4_0000;
  }

  lemma ContinuationByte(x: int)
    requires 0 <= x < 0x40
    ensures IsContinuation(0x80 + x) && Low(0x80 + x, 0x40) == x
  {
  }

  /** Every code point up to 1FFFFF survives encoding and decoding. */
  lemma EncodeDecode(cp: CodePoint)
    requires cp <= 0x1FFFFF
    ensures IsUnit(EncodeCp(cp)) && DecodeCp(EncodeCp(cp)) == cp
  {
    Groups(cp);
    ContinuationByte(cp % 0x40);
    if SizeOfCodePoint(cp) == 4 {
      EncodeDecode4(cp);
    } else if SizeOfCodePoint(cp) == 3 {
      EncodeDecode3(cp);
    } else if SizeOfCodePoint(cp) == 2 {
      assert EncodeCp(cp)[0] / 0x20 == 0x06;
    }
  }

  /** Four bytes hold 21 bits, and beyond them the round trip fails. */
  lemma RoundTripExactly(cp: CodePoint)
    ensures IsUnit(EncodeCp(cp)) && DecodeCp(EncodeCp(cp)) == cp <==> cp <= 0x1FFFFF
  {
    if cp <= 0x1FFFFF {
      EncodeDecode(cp);
    } else if HoldsLead(EncodeCp(cp)) {
      assert DecodeCp(EncodeCp(cp)) <= 0x1FFFFF;
    }
  }

  /** The table in section 3 of RFC 3629: the fields of the bytes, and the least number for each size. */
  predicate IsInTable(cp: CodePoint, s: seq<Byte>) {
    || (|s| == 1 && s[0] < 0x80 && cp == s[0])
    || (|s| == 2 && 0xc0 <= s[0] < 0xe0 && 0x80 <= s[1] < 0xc0 && 0x80 <= cp
        && cp == Field(s[0], 0xc0) * 0x40 + Field(s[1], 0x80))
    || (|s| == 3 && 0xe0 <= s[0] < 0xf0 && 0x80 <= s[1] < 0xc0 && 0x80 <= s[2] < 0xc0 && 0x800 <= cp
        && cp == Field(s[0], 0xe0) * 0x1000 + Field(s[1], 0x80) * 0x40 + Field(s[2], 0x80))
    || (|s| == 4 && 0xf0 <= s[0] < 0xf8 && 0x80 <= s[1] < 0xc0 && 0x80 <= s[2] < 0xc0 && 0x80 <= s[3] < 0xc0 && 0x1_0000 <= cp
        && cp == Field(s[0], 0xf0) * 0x4_0000 + Field(s[1], 0x80) * 0x1000 + Field(s[2], 0x80) * 0x40 + Field(s[3], 0x80))
  }

  /** What is left of a byte without its mark. */
  function Field(b: int, mark: int): int {
    b - mark
  }

  /** The encoding of a code point up to 1FFFFF is the one entry of the table for it. */
  lemma EncodingIsInTable(cp: CodePoint, s: seq<Byte>)
    requires cp <= 0x1FFFFF
    ensures IsInTable(cp, s) <==> s == EncodeCp(cp)
  {
    HasTableEntry(cp);
    hide EncodeCp;
    if IsInTable(cp, s) {
      OneTableEntry(cp, s, EncodeCp(cp));
    }
  }

  lemma HasTableEntry(cp: CodePoint)
    requires cp <= 0x1FFFFF
    ensures IsInTable(cp, EncodeCp(cp))
  {
    Groups(cp);
    if SizeOfCodePoint(cp) == 4 {
      assert cp / 0x4_0000 % 0x10 == cp / 0x4_0000;
    }
  }

  lemma OneTableEntry(cp: CodePoint, s: seq<Byte>, t: seq<Byte>)
    requires IsInTable(cp, s) && IsInTable(cp, t)
    ensures s == t
  {
    SizeInTable(cp, s);
    SizeInTable(cp, t);
    if |s| == 4 {
      SameFields(s, t);
    }
  }

  lemma SizeInTable(cp: CodePoint, s: seq<Byte>)
    requires IsInTable(cp, s)
    ensures |s| == if cp < 0x80 then 1 else if cp < 0x800 then 2 else if cp < 0x1_0000 then 3 else 4
  {
  }

  lemma SameFields(s: seq<Byte>, t: seq<Byte>)
    requires |s| == |t| == 4 && forall i :: 1 <= i < 4 ==> 0x80 <= s[i] < 0xc0 && 0x80 <= t[i] < 0xc0
    requires Field(s[0], 0xf0) * 0x4_0000 + Field(s[1], 0x80) * 0x1000 + Field(s[2], 0x80) * 0x40 + Field(s[3], 0x80)
          == Field(t[0], 0xf0) * 0x4_0000 + Field(t[1], 0x80) * 0x1000 + Field(t[2], 0x80) * 0x40 + Field(t[3], 0x80)
    ensures s == t
  {
    assert s[3] == t[3] && s[2] == t[2];
  }

  lemma EncodeDecode3(cp: CodePoint)
    requires SizeOfCodePoint(cp) == 3
    ensures IsUnit(EncodeCp(cp)) && DecodeCp(EncodeCp(cp)) == cp
  {
    Groups(cp);
    ContinuationByte(cp % 0x40);
    ContinuationByte(cp / 0x40 % 0x40);
    var lead := cp / 0x1000;
    assert EncodeCp(cp)[0] == 0xe0 + lead && lead < 0x10;
  }

  lemma EncodeDecode4(cp: CodePoint)
    requires SizeOfCodePoint(cp) == 4 && cp <= 0x1FFFFF
    ensures IsUnit(EncodeCp(cp)) && DecodeCp(EncodeCp(cp)) == cp
  {
    Groups(cp);
    ContinuationByte(cp % 0x40);
    ContinuationByte(cp / 0x40 % 0x40);
    ContinuationByte(cp / 0x1000 % 0x40);
    var lead := cp / 0x4_0000;
    assert EncodeCp(cp)[0] == 0xf0 + lead && lead < 0x08;
  }

  // ----- validity

  predicate InRange(b: Byte, low: Byte, high: Byte) {
    low <= b <= high
  }

  /**
   * The check of one encoded code point as it is written. The comment above the last test of a
   * four-byte code point speaks of the third and fourth byte, but only the third one is tested.
   */
  predicate IsValidUtf8(s: seq<Byte>)
    requires HoldsLead(s)
  {
    var size := SizeOfLead(s[0]);
    if size == 1 then
      s[0] < 0x80
    else if size == 2 then
      InRange(s[0], 0xC2, 0xDF) && InRange(s[1], 0x80, 0xBF)
    else if size == 3 then
      && (if s[0] == 0xE0 then InRange(s[1], 0xA0, 0xBF)
          else if InRange(s[0], 0xE1, 0xEC) then InRange(s[1], 0x80, 0xBF)
          else if s[0] == 0xED then InRange(s[1], 0x80, 0x9F)
          else InRange(s[0], 0xEE, 0xEF) && InRange(s[1], 0x80, 0xBF))
      && InRange(s[2], 0x80, 0xBF)
    else if size == 4 then
      && (if s[0] == 0xF0 then InRange(s[1], 0x90, 0xBF)
          else if InRange(s[0], 0xF1, 0xF3) then InRange(s[1], 0x80, 0xBF)
          else s[0] == 0xF4 && InRange(s[1], 0x80, 0x8F))
      && InRange(s[2], 0x80, 0xBF)
    else
      false
  }

  /** The bytes start with the encoding of a scalar value. */
  ghost predicate StartsWithScalar(s: seq<Byte>) {
    exists cp: CodePoint :: IsScalar(cp) && EncodeCp(cp) <= s
  }

  /** Every scalar value encodes to something the check accepts. */
  lemma ScalarIsValid(cp: CodePoint)
    requires IsScalar(cp)
    ensures IsUnit(EncodeCp(cp)) && IsValidUtf8(EncodeCp(cp))
  {
    EncodeDecode(cp);
  }

  /** A complete unit that the check accepts decodes to a scalar value and is its encoding. */
  lemma ValidUnitIsScalar(s: seq<Byte>)
    requires HoldsLead(s) && IsValidUtf8(s)
    requires SizeOfLead(s[0]) == 4 ==> IsContinuation(s[3])
    ensures IsScalar(DecodeCp(s)) && EncodeCp(DecodeCp(s)) == s[..SizeOfLead(s[0])]
  {
    var size := SizeOfLead(s[0]);
    if size == 4 {
      ValidUnit4(s, s[0] - 0xf0, s[1] - 0x80, s[2] - 0x80, s[3] - 0x80);
    } else if size == 3 {
      ValidUnit3(s, s[0] - 0xe0, s[1] - 0x80, s[2] - 0x80);
    } else if size == 2 {
      ValidUnit2(s, s[0] - 0xc0, s[1] - 0x80);
    }
  }

  lemma ValidUnit2(s: seq<Byte>, a: int, b: int)
    requires HoldsLead(s) && IsValidUtf8(s) && SizeOfLead(s[0]) == 2 && a == s[0] - 0xc0 && b == s[1] - 0x80
    ensures IsScalar(DecodeCp(s)) && EncodeCp(DecodeCp(s)) == s[..2]
  {
    assert DecodeCp(s) == a * 0x40 + b && 2 <= a < 0x20 && 0 <= b < 0x40;
  }

  /** Joined six-bit groups can be taken apart again. */
  lemma Joined(a: int, b: int, c: int, d: int)
    requires 0 <= a && 0 <= b < 0x40 && 0 <= c < 0x40 && 0 <= d < 0x40
    ensures var cp := a * 0x4_0000 + b * 0x1000 + c * 0x40 + d;
      cp % 0x40 == d && cp / 0x40 % 0x40 == c && cp / 0x1000 % 0x40 == b && cp / 0x4_0000 == a
  {
    var cp := a * 0x4_0000 + b * 0x1000 + c * 0x40 + d;
    assert cp / 0x40 == a * 0x1000 + b * 0x40 + c;
    assert cp / 0x1000 == a * 0x40 + b;
  }

  lemma ValidUnit3(s: seq<Byte>, a: int, b: int, c: int)
    requires HoldsLead(s) && IsValidUtf8(s) && SizeOfLead(s[0]) == 3
    requires a == s[0] - 0xe0 && b == s[1] - 0x80 && c == s[2] - 0x80
    ensures IsScalar(DecodeCp(s)) && EncodeCp(DecodeCp(s)) == s[..3]
  {
    ContinuationByte(b);
    ContinuationByte(c);
    assert 0 <= a < 0x10;
    var cp := DecodeCp(s);
    assert cp == a * 0x1000 + b * 0x40 + c;
    Joined(0, a, b, c);
    assert SizeOfCodePoint(cp) == 3;
    assert EncodeCp(cp) == [s[0], s[1], s[2]];
  }

  lemma ValidUnit4(s: seq<Byte>, a: int, b: int, c: int, d: int)
    requires HoldsLead(s) && IsValidUtf8(s) && SizeOfLead(s[0]) == 4 && IsContinuation(s[3])
    requires a == s[0] - 0xf0 && b == s[1] - 0x80 && c == s[2] - 0x80 && d == s[3] - 0x80
    ensures IsScalar(DecodeCp(s)) && EncodeCp(DecodeCp(s)) == s[..4]
  {
    ContinuationByte(b);
    ContinuationByte(c);
    ContinuationByte(d);
    assert 0 <= a < 0x08;
    var cp := DecodeCp(s);
    assert cp == a * 0x4_0000 + b * 0x1000 + c * 0x40 + d;
    Joined(a, b, c, d);
    assert SizeOfCodePoint(cp) == 4;
    assert EncodeCp(cp) == [s[0], s[1], s[2], s[3]];
  }

  /** A scalar value at the front is accepted, and seen by the size and the continuation bytes alone. */
  lemma ScalarPrefixIsValid(s: seq<Byte>, cp: CodePoint)
    requires IsScalar(cp) && EncodeCp(cp) <= s
    ensures HoldsLead(s) && IsValidUtf8(s) && (SizeOfLead(s[0]) == 4 ==> IsContinuation(s[3]))
  {
    ScalarIsValid(cp);
    var e := EncodeCp(cp);
    assert forall i :: 0 <= i < |e| ==> s[i] == e[i];
  }

  /** The first three bytes start some four-byte encoding of a scalar value. */
  ghost predicate StartsFourBytes(s: seq<Byte>)
    requires |s| >= 3
  {
    exists cp: CodePoint :: IsScalar(cp) && SizeOfCodePoint(cp) == 4 && EncodeCp(cp)[..3] == s[..3]
  }

  /** The bytes the check accepts are misled by: a four-byte start without a continuation byte in fourth place. */
  ghost predicate BrokenFourthByte(s: seq<Byte>)
    requires HoldsLead(s)
  {
    SizeOfLead(s[0]) == 4 && !IsContinuation(s[3]) && StartsFourBytes(s)
  }

  /** Of four bytes the check looks at the first three: it accepts exactly the starts of four-byte encodings. */
  lemma FourByteLeadIsStart(s: seq<Byte>)
    requires HoldsLead(s) && SizeOfLead(s[0]) == 4
    ensures IsValidUtf8(s) <==> StartsFourBytes(s)
  {
    if IsValidUtf8(s) {
      var whole := [s[0], s[1], s[2], 0x80];
      ValidUnitIsScalar(whole);
      var cp := DecodeCp(whole);
      assert EncodeCp(cp)[..3] == whole[..3] == s[..3];
    }
    if StartsFourBytes(s) {
      var cp: CodePoint :| IsScalar(cp) && SizeOfCodePoint(cp) == 4 && EncodeCp(cp)[..3] == s[..3];
      ScalarIsValid(cp);
      assert forall i :: 0 <= i < 3 ==> s[i] == s[..3][i] == EncodeCp(cp)[..3][i] == EncodeCp(cp)[i];
    }
  }

  /**
   * The check answers whether the bytes start with the encoding of a scalar value, exactly unless
   * they start like a four-byte encoding and the fourth byte is not a continuation byte.
   */
  lemma IsValidUtf8Exactly(s: seq<Byte>)
    requires HoldsLead(s)
    ensures (IsValidUtf8(s) <==> StartsWithScalar(s)) <==> !BrokenFourthByte(s)
  {
    if StartsWithScalar(s) {
      var cp: CodePoint :| IsScalar(cp) && EncodeCp(cp) <= s;
      ScalarPrefixIsValid(s, cp);
    }
    if IsValidUtf8(s) && (SizeOfLead(s[0]) == 4 ==> IsContinuation(s[3])) {
      ValidUnitIsScalar(s);
      assert EncodeCp(DecodeCp(s)) <= s;
    }
    if SizeOfLead(s[0]) == 4 {
      FourByteLeadIsStart(s);
    }
  }

  /** Four bytes that are accepted although no scalar value is encoded that way. */
  lemma AcceptsBrokenFourthByte()
    ensures var s: seq<Byte> := [0xF0, 0x90, 0x80, 0x41];
      HoldsLead(s) && IsValidUtf8(s) && !StartsWithScalar(s)
  {
    var s: seq<Byte> := [0xF0, 0x90, 0x80, 0x41];
    assert SizeOfLead(s[0]) == 4;
    FourByteLeadIsStart(s);
    IsValidUtf8Exactly(s);
  }
}

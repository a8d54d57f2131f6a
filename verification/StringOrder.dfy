/**
 * Comparing strings code point by code point: the order it gives, and why comparing the bytes
 * would give the same order (section 1 of RFC 3629).
 */
module StringOrder {
  import opened Utf8
  import opened Utf8Sequences

  type Text = seq<Encodable>

  /** The two sequences agree on the first k elements, and then the first one ends or is less. */
  predicate DivergesAt(s: seq<int>, t: seq<int>, k: int) {
    0 <= k <= |s| && k < |t| && s[..k] == t[..k] && (k < |s| ==> s[k] < t[k])
  }

  /** Lexicographic order: at the first difference the first sequence ends or is less. */
  ghost predicate Before(s: seq<int>, t: seq<int>) {
    exists k :: DivergesAt(s, t, k)
  }

  lemma BeforeAsymmetric(s: seq<int>, t: seq<int>)
    requires Before(s, t)
    ensures !Before(t, s)
  {
    var k :| DivergesAt(s, t, k);
    forall m | DivergesAt(t, s, m)
      ensures false
    {
      Disagree(s, t, k, m);
    }
  }

  lemma Disagree(s: seq<int>, t: seq<int>, k: int, m: int)
    requires DivergesAt(s, t, k)
    ensures !DivergesAt(t, s, m)
  {
    if 0 <= m < k {
      assert s[m] == s[..k][m] == t[..k][m] == t[m];
    } else if k < m <= |t| && m < |s| {
      assert t[..m][k] == t[k] && s[..m][k] == s[k];
    }
  }

  lemma {:induction false} BeforeTransitive(s: seq<int>, t: seq<int>, u: seq<int>)
    requires Before(s, t) && Before(t, u)
    ensures Before(s, u)
  {
    var k :| DivergesAt(s, t, k);
    var m :| DivergesAt(t, u, m);
    var least := if k < m then k else m;
    assert s[..least] == s[..k][..least] && t[..least] == t[..k][..least] == t[..m][..least];
    assert u[..least] == u[..m][..least];
    if k < m {
      assert t[k] == t[..m][k] == u[..m][k] == u[k];
    } else if m < k {
      assert s[m] == s[..k][m] == t[..k][m] == t[m];
    }
    assert DivergesAt(s, u, least);
  }

  // ----- what the comparison computes

  function Compare(a: Text, b: Text): int {
    if a == [] && b == [] then 0
    else if a == [] then -1
    else if b == [] then 1
    else if a[0] == b[0] then Compare(a[1..], b[1..])
    else if a[0] < b[0] then -1 else 1
  }

  lemma {:induction false} CompareAntisymmetric(a: Text, b: Text)
    ensures Compare(a, b) == -Compare(b, a) && -1 <= Compare(a, b) <= 1
    ensures Compare(a, b) == 0 <==> a == b
  {
    if a != [] && b != [] {
      CompareAntisymmetric(a[1..], b[1..]);
      assert a == [a[0]] + a[1..] && b == [b[0]] + b[1..];
    }
  }

  lemma {:induction false} CommonPrefixExtends(s: seq<int>, t: seq<int>, front: seq<int>)
    requires Before(s, t)
    ensures Before(front + s, front + t)
  {
    var k :| DivergesAt(s, t, k);
    assert (front + s)[..|front| + k] == front + s[..k];
    assert (front + t)[..|front| + k] == front + t[..k];
    assert DivergesAt(front + s, front + t, |front| + k);
  }

  lemma {:induction false} LessIsBefore(a: Text, b: Text)
    requires Compare(a, b) < 0
    ensures Before(a, b)
  {
    if a == [] || a[0] != b[0] {
      assert DivergesAt(a, b, 0);
    } else {
      LessIsBefore(a[1..], b[1..]);
      CommonPrefixExtends(a[1..], b[1..], [a[0]]);
      assert a == [a[0]] + a[1..] && b == [b[0]] + b[1..];
    }
  }

  // ----- bytes compare like code points

  /** Numbers compare like their six-bit digits. */
  lemma DigitsCompare(a0: int, a1: int, a2: int, a3: int, b0: int, b1: int, b2: int, b3: int)
    requires 0 <= a1 < 0x40 && 0 <= a2 < 0x40 && 0 <= a3 < 0x40
    requires 0 <= b1 < 0x40 && 0 <= b2 < 0x40 && 0 <= b3 < 0x40
    requires a0 * 0x4_0000 + a1 * 0x1000 + a2 * 0x40 + a3 < b0 * 0x4_0000 + b1 * 0x1000 + b2 * 0x40 + b3
    ensures a0 < b0 || (a0 == b0 && (a1 < b1 || (a1 == b1 && (a2 < b2 || (a2 == b2 && a3 < b3)))))
  {
  }

  /** Encodings of the same size differ first in a byte that is less. */
  lemma UnitsOfOneSize(a: Encodable, b: Encodable) returns (k: nat)
    requires a < b && SizeOfCodePoint(a) == SizeOfCodePoint(b)
    ensures k < SizeOfCodePoint(a) && DivergesAt(EncodeCp(a), EncodeCp(b), k)
  {
    Groups(a);
    Groups(b);
    if SizeOfCodePoint(a) == 1 {
      k := 0;
    } else if SizeOfCodePoint(a) == 2 {
      DigitsCompare(0, 0, a / 0x40, a % 0x40, 0, 0, b / 0x40, b % 0x40);
      k := if a / 0x40 < b / 0x40 then 0 else 1;
    } else if SizeOfCodePoint(a) == 3 {
      DigitsCompare(0, a / 0x1000, a / 0x40 % 0x40, a % 0x40, 0, b / 0x1000, b / 0x40 % 0x40, b % 0x40);
      k := ThreeDiverge(EncodeCp(a), EncodeCp(b));
    } else {
      k := UnitsOfFour(a, b);
    }
  }

  lemma ThreeDiverge(s: seq<int>, t: seq<int>) returns (k: nat)
    requires |s| == |t| == 3
    requires s[0] < t[0] || (s[0] == t[0] && (s[1] < t[1] || (s[1] == t[1] && s[2] < t[2])))
    ensures k < 3 && DivergesAt(s, t, k)
  {
    k := if s[0] < t[0] then 0 else if s[1] < t[1] then 1 else 2;
  }

  lemma UnitsOfFour(a: Encodable, b: Encodable) returns (k: nat)
    requires a < b && SizeOfCodePoint(a) == 4 && SizeOfCodePoint(b) == 4
    ensures k < 4 && DivergesAt(EncodeCp(a), EncodeCp(b), k)
  {
    var a0, a1, a2, a3 := FourDigits(a);
    var b0, b1, b2, b3 := FourDigits(b);
    DigitsCompare(a0, a1, a2, a3, b0, b1, b2, b3);
    k := FourDiverge(EncodeCp(a), EncodeCp(b));
  }

  lemma FourDigits(a: Encodable) returns (a0: int, a1: int, a2: int, a3: int)
    requires SizeOfCodePoint(a) == 4
    ensures a == a0 * 0x4_0000 + a1 * 0x1000 + a2 * 0x40 + a3
    ensures 0 <= a1 < 0x40 && 0 <= a2 < 0x40 && 0 <= a3 < 0x40
    ensures EncodeCp(a) == [0xf0 + a0, 0x80 + a1, 0x80 + a2, 0x80 + a3]
  {
    Groups(a);
    a0, a1, a2, a3 := a / 0x4_0000, a / 0x1000 % 0x40, a / 0x40 % 0x40, a % 0x40;
  }

  lemma FourDiverge(s: seq<int>, t: seq<int>) returns (k: nat)
    requires |s| == |t| == 4
    requires s[0] < t[0] || (s[0] == t[0] && (s[1] < t[1] || (s[1] == t[1] && (s[2] < t[2] || (s[2] == t[2] && s[3] < t[3])))))
    ensures k < 4 && DivergesAt(s, t, k)
  {
    k := if s[0] < t[0] then 0 else if s[1] < t[1] then 1 else if s[2] < t[2] then 2 else 3;
  }

  /** A code point that takes more bytes has the greater lead byte. */
  lemma LongerHasGreaterLead(a: Encodable, b: Encodable)
    requires SizeOfCodePoint(a) < SizeOfCodePoint(b)
    ensures EncodeCp(a)[0] < EncodeCp(b)[0]
  {
  }

  lemma UnitsCompare(a: Encodable, b: Encodable, s: seq<Byte>, t: seq<Byte>)
    requires a < b
    ensures Before(EncodeCp(a) + s, EncodeCp(b) + t)
  {
    if SizeOfCodePoint(a) == SizeOfCodePoint(b) {
      var k := UnitsOfOneSize(a, b);
      assert (EncodeCp(a) + s)[..k] == EncodeCp(a)[..k] && (EncodeCp(b) + t)[..k] == EncodeCp(b)[..k];
      assert DivergesAt(EncodeCp(a) + s, EncodeCp(b) + t, k);
    } else {
      LongerHasGreaterLead(a, b);
      assert DivergesAt(EncodeCp(a) + s, EncodeCp(b) + t, 0);
    }
  }

  lemma {:induction false} LessIsBytewiseBefore(a: Text, b: Text)
    requires Compare(a, b) < 0
    ensures Before(Encode(a), Encode(b))
  {
    if a == [] {
      assert DivergesAt(Encode(a), Encode(b), 0);
    } else if a[0] == b[0] {
      LessIsBytewiseBefore(a[1..], b[1..]);
      CommonPrefixExtends(Encode(a[1..]), Encode(b[1..]), EncodeCp(a[0]));
    } else {
      UnitsCompare(a[0], b[0], Encode(a[1..]), Encode(b[1..]));
    }
  }

  lemma NeverBeforeItself(s: seq<int>)
    ensures !Before(s, s)
  {
    if Before(s, s) {
      BeforeAsymmetric(s, s);
    }
  }

  /** The comparison is the lexicographic order of the code points and that of the bytes. */
  lemma CompareIsBytewise(a: Text, b: Text)
    ensures Compare(a, b) < 0 <==> Before(a, b)
    ensures Compare(a, b) < 0 <==> Before(Encode(a), Encode(b))
  {
    CompareAntisymmetric(a, b);
    if Compare(a, b) < 0 {
      LessIsBefore(a, b);
      LessIsBytewiseBefore(a, b);
    } else if Compare(a, b) > 0 {
      LessIsBefore(b, a);
      LessIsBytewiseBefore(b, a);
      BeforeAsymmetric(b, a);
      BeforeAsymmetric(Encode(b), Encode(a));
    } else {
      NeverBeforeItself(a);
      NeverBeforeItself(Encode(a));
    }
  }

  // ----- the operators

  predicate Equals(a: Text, b: Text) { Compare(a, b) == 0 }
  predicate Less(a: Text, b: Text) { Compare(a, b) < 0 }
  predicate Greater(a: Text, b: Text) { Compare(a, b) > 0 }
  predicate AtMost(a: Text, b: Text) { !Greater(a, b) }
  predicate AtLeast(a: Text, b: Text) { !Less(a, b) }

  /** The operators are a strict total order, its reflexive closure and their converses. */
  lemma OperatorsAreTotalOrder(a: Text, b: Text, c: Text)
    ensures Equals(a, b) <==> a == b
    ensures !Less(a, a)
    ensures Less(a, b) && Less(b, c) ==> Less(a, c)
    ensures Less(a, b) || a == b || Less(b, a)
    ensures Greater(a, b) <==> Less(b, a)
    ensures AtMost(a, b) <==> Less(a, b) || a == b
    ensures AtLeast(a, b) <==> AtMost(b, a)
  {
    CompareAntisymmetric(a, b);
    CompareAntisymmetric(a, a);
    CompareIsBytewise(a, b);
    CompareIsBytewise(b, c);
    CompareIsBytewise(a, c);
    if Less(a, b) && Less(b, c) {
      BeforeTransitive(a, b, c);
    }
  }

  // ----- the loops

  lemma {:induction false} SkipCommon(a: Text, b: Text, i: nat)
    requires i <= |a| && i <= |b| && a[..i] == b[..i]
    ensures Compare(a, b) == Compare(a[i..], b[i..])
  {
    if i > 0 {
      assert a[0] == a[..i][0] == b[..i][0] == b[0];
      assert a[1..][..i - 1] == a[..i][1..] == b[..i][1..] == b[1..][..i - 1];
      SkipCommon(a[1..], b[1..], i - 1);
      assert a[1..][i - 1..] == a[i..] && b[1..][i - 1..] == b[i..];
    } else {
      assert a[0..] == a && b[0..] == b;
    }
  }

  /** After a common front, the end of one text or the next code points decide. */
  lemma ComparedAt(a: Text, b: Text, i: nat)
    requires i <= |a| && i <= |b| && a[..i] == b[..i]
    ensures i == |a| && i == |b| ==> Compare(a, b) == 0
    ensures i == |a| && i < |b| ==> Compare(a, b) == -1
    ensures i < |a| && i == |b| ==> Compare(a, b) == 1
    ensures i < |a| && i < |b| && a[i] != b[i] ==> Compare(a, b) == if a[i] < b[i] then -1 else 1
  {
    SkipCommon(a, b, i);
  }

  lemma CommonGrows(a: Text, b: Text, i: nat)
    requires i < |a| && i < |b| && a[..i] == b[..i] && a[i] == b[i]
    ensures a[..i + 1] == b[..i + 1]
  {
    assert a[..i + 1] == a[..i] + [a[i]] && b[..i + 1] == b[..i] + [b[i]];
  }

  /** Tells whether the code points at two positions are the same. */
  method SameCp(a: seq<Byte>, p1: nat, b: seq<Byte>, p2: nat, ghost i: nat, ghost s: Text, ghost t: Text)
    returns (same: bool)
    requires a == Encode(s) && i < |s| && p1 == Offset(s, i)
    requires b == Encode(t) && i < |t| && p2 == Offset(t, i)
    ensures same <==> s[i] == t[i]
  {
    UnitAtOffset(s, i, a);
    UnitAtOffset(t, i, b);
    same := DecodeCp(a[p1..]) == DecodeCp(b[p2..]);
  }

  /** Steps over one code point and tells whether the text ends there. */
  method Advance(a: seq<Byte>, p: nat, ghost i: nat, ghost s: Text) returns (next: nat)
    requires a == Encode(s) && i < |s| && p == Offset(s, i)
    ensures next == Offset(s, i + 1) <= |a| && (next == |a| <==> i + 1 == |s|)
  {
    UnitAtOffset(s, i, a);
    MeetsEnd(s, i + 1);
    next := p + SizeOfLead(a[p]);
  }

  method CompareLexicographically(a: seq<Byte>, aLength: nat, b: seq<Byte>, bLength: nat,
                                  ghost s: Text, ghost t: Text)
    returns (r: int)
    requires a == Encode(s) && aLength == |s| && b == Encode(t) && bLength == |t|
    ensures r == Compare(s, t)
  {
    if aLength == 0 && bLength == 0 { return 0; }
    if aLength == 0 { return -1; }
    if bLength == 0 { return 1; }
    var p1, p2 := 0, 0;
    ghost var i := 0;
    OffsetEnds(s);
    OffsetEnds(t);
    var same := SameCp(a, p1, b, p2, i, s, t);
    while same
      invariant i < |s| && i < |t| && p1 == Offset(s, i) && p2 == Offset(t, i)
      invariant s[..i] == t[..i] && (same <==> s[i] == t[i])
      decreases |s| - i
    {
      CommonGrows(s, t, i);
      p1 := Advance(a, p1, i, s);
      p2 := Advance(b, p2, i, t);
      i := i + 1;
      ComparedAt(s, t, i);
      if p1 == |a| && p2 == |b| { return 0; }
      if p1 == |a| { return -1; }
      if p2 == |b| { return 1; }
      same := SameCp(a, p1, b, p2, i, s, t);
    }
    ComparedAt(s, t, i);
    UnitAtOffset(s, i, a);
    UnitAtOffset(t, i, b);
    return if DecodeCp(a[p1..]) - DecodeCp(b[p2..]) < 0 then -1 else 1;
  }

  /** The texts agree up to k and differ there, or one of them ends there. */
  predicate FirstDifference(s: Text, t: Text, k: int) {
    && s != t && 0 <= k <= |s| && k <= |t|
    && s[..k] == t[..k] && (k < |s| && k < |t| ==> s[k] != t[k])
  }

  /** One text is empty or goes on where the other one ends. */
  predicate OneExtendsOther(s: Text, t: Text) {
    s <= t || t <= s
  }

  /**
   * The index of the first difference, or -1 for equal texts. When one of two texts that are not
   * empty ends before the other, the result is one less than the index of the difference.
   */
  method CompareIndex(a: seq<Byte>, aLength: nat, b: seq<Byte>, bLength: nat, ghost s: Text, ghost t: Text)
    returns (r: int)
    requires a == Encode(s) && aLength == |s| && b == Encode(t) && bLength == |t|
    ensures r == -1 <==> s == t
    ensures s != t ==> (FirstDifference(s, t, r) <==> s == [] || t == [] || !OneExtendsOther(s, t))
    ensures s != [] && t != [] && s != t && OneExtendsOther(s, t) ==> FirstDifference(s, t, r + 1)
  {
    if aLength == 0 && bLength == 0 { return -1; }
    if aLength == 0 || bLength == 0 { return 0; }
    var p1, p2 := 0, 0;
    r := 0;
    OffsetEnds(s);
    OffsetEnds(t);
    var same := SameCp(a, p1, b, p2, r, s, t);
    while same
      invariant 0 <= r < |s| && r < |t| && p1 == Offset(s, r) && p2 == Offset(t, r)
      invariant s[..r] == t[..r] && (same <==> s[r] == t[r])
      decreases |s| - r
    {
      CommonGrows(s, t, r);
      p1 := Advance(a, p1, r, s);
      p2 := Advance(b, p2, r, t);
      if p1 == |a| && p2 == |b| {
        assert s == s[..r + 1] && t == t[..r + 1];
        return -1;
      }
      if p1 == |a| || p2 == |b| {
        EndsInside(s, t, r + 1);
        return;
      }
      r := r + 1;
      same := SameCp(a, p1, b, p2, r, s, t);
    }
    DiffersInside(s, t, r);
  }

  lemma EndsInside(s: Text, t: Text, k: nat)
    requires 0 < k <= |s| && k <= |t| && s[..k] == t[..k] && (k == |s| || k == |t|) && |s| != |t|
    ensures s != t && OneExtendsOther(s, t) && FirstDifference(s, t, k) && !FirstDifference(s, t, k - 1)
  {
    assert s[k - 1] == s[..k][k - 1] == t[..k][k - 1] == t[k - 1];
    if k == |s| {
      assert s[..k] == s;
    } else {
      assert t[..k] == t;
    }
  }

  lemma DiffersInside(s: Text, t: Text, k: nat)
    requires k < |s| && k < |t| && s[..k] == t[..k] && s[k] != t[k]
    ensures s != t && !OneExtendsOther(s, t) && FirstDifference(s, t, k)
  {
  }
}

/**
 * Strings that own their bytes or view someone else's, edited in place by shifting bytes, and the
 * sequence of code points they stand for.
 */
module Strings {
  import opened MemoryMoves
  import opened PowersOfTwo
  import opened Utf8
  import opened Utf8Sequences

  /** Copies from one block into another one. */
  method CopyBetween(to: array<Byte>, dst: nat, from: array<Byte>, size: nat)
    requires to != from && dst + size <= to.Length && size <= from.Length
    modifies to
    ensures to[..] == Written(old(to[..]), dst, from[..size])
  {
    for i := 0 to size
      invariant forall k :: dst <= k < dst + i ==> to[k] == from[k - dst]
      invariant forall k :: 0 <= k < to.Length && !(dst <= k < dst + i) ==> to[k] == old(to[k])
    {
      to[dst + i] := from[i];
    }
  }

  // ----- what an edit does to bytes and to code points

  /** A sequence with the elements from begin to end exchanged for others. */
  function Exchanged<T>(s: seq<T>, begin: nat, end: nat, x: seq<T>): (r: seq<T>)
    requires begin <= end <= |s|
    ensures |r| == |s| - (end - begin) + |x|
  {
    s[..begin] + x + s[end..]
  }

  lemma ExchangedForOne<T>(s: seq<T>, i: nat, x: T)
    requires i < |s|
    ensures Exchanged(s, i, i + 1, [x]) == s[i := x]
  {
  }

  lemma ExchangedForSame<T>(s: seq<T>, i: nat, x: seq<T>, y: seq<T>)
    requires i <= |s| && |x| == |y|
    ensures Exchanged(s, i, i, x) == Exchanged(s, i, i, y) <==> x == y
  {
    assert Exchanged(s, i, i, x)[i..i + |x|] == x;
    assert Exchanged(s, i, i, y)[i..i + |y|] == y;
  }

  lemma RangeBefore<T>(s: seq<T>, at: nat, from: nat, size: nat)
    requires from + size <= at <= |s|
    ensures Exchanged(s, at, at, s[from..from + size])[from..from + size] == s[from..from + size]
  {
  }

  lemma ExchangedNothing<T>(s: seq<T>, i: nat, x: seq<T>)
    requires i <= |s|
    ensures Exchanged(s, i, i, x) == s[..i] + x + s[i..]
  {
  }

  lemma ExchangedForNone<T>(s: seq<T>, i: nat, j: nat)
    requires i <= j <= |s|
    ensures Exchanged(s, i, j, []) == s[..i] + s[j..]
  {
  }

  /** Exchanging a range of code points exchanges the range of bytes that encodes them. */
  lemma EncodeExchanged(cps: seq<Encodable>, i: nat, j: nat, text: seq<Encodable>)
    requires i <= j <= |cps|
    ensures Offset(cps, i) <= Offset(cps, j) <= |Encode(cps)|
    ensures Encode(Exchanged(cps, i, j, text))
         == Exchanged(Encode(cps), Offset(cps, i), Offset(cps, j), Encode(text))
  {
    OffsetMonotone(cps, i, j);
    EncodeSplit(cps, i);
    EncodeSplit(cps, j);
    EncodeAppend(cps[..i] + text, cps[j..]);
    EncodeAppend(cps[..i], text);
  }

  /** A range of code points is the range of bytes that encodes it. */
  lemma EncodedRange(cps: seq<Encodable>, i: nat, j: nat)
    requires i <= j <= |cps|
    ensures Offset(cps, i) <= Offset(cps, j) <= |Encode(cps)|
    ensures Encode(cps)[Offset(cps, i)..Offset(cps, j)] == Encode(cps[i..j])
  {
    OffsetMonotone(cps, i, j);
    EncodeSplit(cps, j);
    EncodeSplit(cps[..j], i);
    assert cps[..j][..i] == cps[..i] && cps[..j][i..] == cps[i..j];
  }

  /**
   * Moving what comes after a range to where it will stand, and then writing x over the gap,
   * exchanges the range for x.
   */
  lemma MoveAndWrite(s: seq<Byte>, begin: nat, end: nat, count: nat, x: seq<Byte>, t: seq<Byte>, u: seq<Byte>)
    requires begin <= end <= count <= |s| && count - (end - begin) + |x| <= |s|
    requires t == Moved(s, begin + |x|, end, count - end)
    requires u == Written(t, begin, x)
    ensures u[..count - (end - begin) + |x|] == Exchanged(s[..count], begin, end, x)
  {
    assert t[begin + |x|..][..count - end] == s[end..count] == s[..count][end..];
    assert t[..begin] == s[..begin] == s[..count][..begin];
  }

  lemma MovedInPlace(s: seq<Byte>, at: nat, n: nat)
    requires at + n <= |s|
    ensures Moved(s, at, at, n) == s
  {
  }

  lemma NothingMoved(s: seq<Byte>, dst: nat, src: nat)
    requires dst <= |s| && src <= |s|
    ensures Moved(s, dst, src, 0) == s
  {
  }

  predicate IndexInRange(index: int, length: nat, toleratePastLast: bool) {
    0 <= length + index && index <= length && (index == length ==> toleratePastLast)
  }

  /** Python-like indexing from the end; an index out of range is refused. */
  function TranslateIndex(index: int, length: nat, toleratePastLast: bool): (i: nat)
    requires IndexInRange(index, length, toleratePastLast)
    ensures i <= length && (i == length ==> toleratePastLast || length == 0)
  {
    if index < 0 then length + index else index
  }

  // ----- edits of a block

  /** Shifts the bytes from an offset on and copies others into the gap. */
  method InsertIntoBlock(block: array<Byte>, count: nat, offset: nat, ptr: array<Byte>, size: nat)
    requires offset <= count && count + size <= block.Length && size <= ptr.Length && ptr != block
    modifies block
    ensures block[..count + size] == Exchanged(old(block[..count]), offset, offset, ptr[..size])
  {
    hide Moved, Written, Exchanged;
    ghost var s, x := block[..], ptr[..size];
    NothingMoved(s, count + size, count);
    if offset < count {
      CopyMemory(block, offset + size, offset, count - offset);
    }
    ghost var t := block[..];
    assert t == Moved(s, offset + size, offset, count - offset);
    CopyBetween(block, offset, ptr, size);
    ghost var u := block[..];
    assert u == Written(t, offset, x);
    MoveAndWrite(s, offset, offset, count, x, t, u);
    assert block[..count + size] == u[..count + size];
  }

  /** What is read from a range of the block when the bytes from an offset on were already shifted by its size. */
  function ReadAfterShift(s: seq<Byte>, at: nat, from: nat, size: nat): (r: seq<Byte>)
    requires at <= |s| && from + size <= |s|
    ensures |r| == size
  {
    seq(size, k requires 0 <= k < size => if from + k < at + size then s[from + k] else s[from + k - size])
  }

  /** The bytes of a range that lie behind the gap repeat those as far before them as the gap is wide. */
  predicate Repeats(s: seq<Byte>, at: nat, from: nat, size: nat)
    requires from + size <= |s|
  {
    forall p :: at + size <= p && from <= p < from + size ==> s[p] == s[p - size]
  }

  /**
   * It is the range as it was exactly when what lies behind the gap repeats itself; there is
   * nothing behind the gap when the range does not start behind the offset.
   */
  lemma ReadAfterShiftExactly(s: seq<Byte>, at: nat, from: nat, size: nat)
    requires at <= |s| && from + size <= |s|
    ensures ReadAfterShift(s, at, from, size) == s[from..from + size] <==>
      Repeats(s, at, from, size)
    ensures from <= at ==> ReadAfterShift(s, at, from, size) == s[from..from + size]
  {
    var r := ReadAfterShift(s, at, from, size);
    if r == s[from..from + size] {
      forall p | at + size <= p && from <= p < from + size
        ensures s[p] == s[p - size]
      {
        assert r[p - from] == s[from..from + size][p - from];
      }
    }
  }

  /** The last of three bytes, inserted before the first one: it is the second one that arrives. */
  lemma ReadsShiftedByte(a: Byte, b: Byte, c: Byte)
    ensures Exchanged([a, b, c], 0, 0, ReadAfterShift([a, b, c], 0, 2, 1)) == [b, a, b, c]
  {
  }

  /** Two code points inserted between them: the range they came from then holds three. */
  lemma CountsChangedRange(a: Byte, lead: Byte, next: Byte)
    requires a < 0x80 && 0xc0 <= lead && 0x80 <= next < 0xc0
    ensures Leads([a, lead, next]) == 2
    ensures Leads(Exchanged([a, lead, next], 1, 1, [a, lead, next])[0..3]) == 3
  {
    assert Exchanged([a, lead, next], 1, 1, [a, lead, next])[0..3] == [a, a, lead];
    LeadsOfThree(a, lead, next);
    LeadsOfThree(a, a, lead);
  }

  lemma LeadsOfThree(x: Byte, y: Byte, z: Byte)
    ensures Leads([x, y, z]) == Leads([x]) + Leads([y]) + Leads([z])
  {
    LeadsAppend([x, y], [z]);
    LeadsAppend([x], [y]);
    assert [x, y] + [z] == [x, y, z] && [x] + [y] == [x, y];
  }

  /** Shifts the bytes from an offset on and copies a range of the same block into the gap. */
  method InsertOwnIntoBlock(block: array<Byte>, count: nat, offset: nat, from: nat, size: nat)
    requires offset <= count && count + size <= block.Length && from + size <= count
    modifies block
    ensures block[..count + size] ==
      Exchanged(old(block[..count]), offset, offset, ReadAfterShift(old(block[..count]), offset, from, size))
  {
    hide Moved, Exchanged, ReadAfterShift;
    ghost var s := block[..];
    NothingMoved(s, count + size, count);
    if offset < count {
      CopyMemory(block, offset + size, offset, count - offset);
    }
    ghost var t := block[..];
    assert t == Moved(s, offset + size, offset, count - offset);
    CopyMemory(block, offset, from, size);
    ghost var u := block[..];
    ghost var x := ReadAfterShift(s[..count], offset, from, size);
    ShiftedRange(s, t, u, count, offset, from, size, x);
    MoveAndWrite(s, offset, offset, count, x, t, u);
    assert block[..count + size] == u[..count + size];
  }

  lemma ShiftedRange(s: seq<Byte>, t: seq<Byte>, u: seq<Byte>, count: nat, offset: nat, from: nat, size: nat, x: seq<Byte>)
    requires offset <= count && count + size <= |s| && from + size <= count
    requires t == Moved(s, offset + size, offset, count - offset) && u == Moved(t, offset, from, size)
    requires x == ReadAfterShift(s[..count], offset, from, size)
    ensures u == Written(t, offset, x)
  {
    forall k | 0 <= k < size
      ensures t[from..from + size][k] == x[k]
    {
    }
    assert t[from..from + size] == x;
  }

  /** Shifts what comes after a range down over it. */
  method RemoveFromBlock(block: array<Byte>, count: nat, begin: nat, end: nat)
    requires begin <= end <= count <= block.Length
    modifies block
    ensures block[..count - (end - begin)] == Exchanged(old(block[..count]), begin, end, [])
  {
    hide Moved, Exchanged;
    ghost var s := block[..];
    CopyMemory(block, begin, end, count - end);
    MoveAndWrite(s, begin, end, count, [], block[..], block[..]);
    assert block[..][..count - (end - begin)] == block[..count - (end - begin)];
  }

  /** Makes the gap of a unit as wide as another one needs. */
  method ResizeGap(block: array<Byte>, count: nat, offset: nat, oldSize: nat, size: nat)
    requires offset + oldSize <= count <= block.Length && count - oldSize + size <= block.Length
    modifies block
    ensures block[..] == Moved(old(block[..]), offset + size, offset + oldSize, count - offset - oldSize)
  {
    MovedInPlace(block[..], offset + oldSize, count - offset - oldSize);
    if size != oldSize {
      CopyMemory(block, offset + size, offset + oldSize, count - offset - oldSize);
    }
  }

  method WriteUnit(out: array<Byte>, at: nat, codePoint: CodePoint, ghost x: seq<Byte>)
    requires at + |x| <= out.Length && x == EncodeCp(codePoint)
    modifies out
    ensures out[..] == Written(old(out[..]), at, x)
  {
    EncodeCpAt(out, at, codePoint);
  }

  /** Writes a code point over a unit of another size; what comes after it moves along. */
  method SetInBlock(block: array<Byte>, count: nat, offset: nat, oldSize: nat, size: nat,
                    codePoint: CodePoint, ghost x: seq<Byte>)
    requires offset + oldSize <= count <= block.Length && count - oldSize + size <= block.Length
    requires x == EncodeCp(codePoint) && size == |x|
    modifies block
    ensures block[..count - oldSize + size] == Exchanged(old(block[..count]), offset, offset + oldSize, x)
  {
    hide EncodeCp, Moved, Written, Exchanged;
    ghost var s := block[..];
    ResizeGap(block, count, offset, oldSize, size);
    ghost var t := block[..];
    WriteUnit(block, offset, codePoint, x);
    ghost var u := block[..];
    assert u == Written(t, offset, x);
    MoveAndWrite(s, offset, offset + oldSize, count, x, t, u);
    assert block[..count - oldSize + size] == u[..count - oldSize + size];
  }

  /** When inserting a part of the text leaves the bytes of the new text, and the range it came from with its count. */
  lemma OwnTextCounts(cps: seq<Encodable>, k: nat, i: nat, j: nat, s: seq<Byte>, at: nat, from: nat, size: nat, now: seq<Byte>)
    requires k <= |cps| && i <= j <= |cps| && s == Encode(cps) && at == Offset(cps, k) <= |s|
    requires from == Offset(cps, i) && from + size == Offset(cps, j) <= |s|
    requires now == Exchanged(s, at, at, s[from..from + size]) <==>
      Repeats(s, at, from, size)
    requires from + size <= |now|
    ensures var text := cps[i..j];
      (now == Encode(Exchanged(cps, k, k, text)) && Leads(now[from..from + size]) == |text|) <==>
        && Repeats(s, at, from, size)
        && Leads(Exchanged(s, at, at, s[from..from + size])[from..from + size]) == |text|
    ensures var text := cps[i..j];
      j <= k ==> now == Encode(Exchanged(cps, k, k, text)) && Leads(now[from..from + size]) == |text|
  {
    hide Exchanged, Encode, Leads;
    var text := cps[i..j];
    EncodeExchanged(cps, k, k, text);
    EncodedRange(cps, i, j);
    if j <= k {
      OffsetMonotone(cps, j, k);
      LeadsOfEncode(text);
      RangeBefore(s, at, from, size);
    }
  }

  // ----- the string

  class Utf8String {
    var Data: array<Byte>
    var Count: nat
    /** The size of the block when the string owns it; 0 for a view of someone else's bytes. */
    var Allocated: nat
    var Length: nat
    ghost var CodePoints: seq<Encodable>

    ghost predicate ValidBytes()
      reads this
    {
      Count <= Data.Length && (Allocated != 0 ==> Allocated == Data.Length)
    }

    ghost function Bytes(): seq<Byte>
      requires ValidBytes()
      reads this, Data
    {
      Data[..Count]
    }

    ghost predicate Valid()
      reads this, Data
    {
      ValidBytes() && Length == |CodePoints| && Bytes() == Encode(CodePoints)
    }

    /** What an edit may write into: not the bytes of someone else. */
    ghost function Owned(): set<object>
      reads this
    {
      if Allocated != 0 then {Data} else {}
    }

    /** A view of bytes that hold text. */
    constructor View(buffer: array<Byte>, count: nat, ghost cps: seq<Encodable>)
      requires count <= buffer.Length && buffer[..count] == Encode(cps)
      ensures Valid() && CodePoints == cps && Data == buffer && Allocated == 0
    {
      Data, Count, Allocated, CodePoints := buffer, count, 0, cps;
      new;
      Length := Utf8Length(buffer[..count]);
    }

    /** A view of bytes that need not be text. */
    constructor ViewBytes(buffer: array<Byte>, count: nat)
      requires count <= buffer.Length
      ensures ValidBytes() && Data == buffer && Count == count && Allocated == 0
    {
      Data, Count, Allocated, Length, CodePoints := buffer, count, 0, 0, [];
    }

    /** Room for n more bytes and one: in the block at hand, or in a new one that takes the bytes over. */
    method ArrayReserve(n: nat)
      requires ValidBytes()
      modifies this`Data, this`Allocated
      ensures ValidBytes() && Bytes() == old(Bytes()) && Count + n < Allocated
      ensures if Count + n < old(Allocated) then Data == old(Data) && Allocated == old(Allocated)
              else fresh(Data) && IsPow2(Allocated) && Allocated >= 8 && (Allocated == 8 || Allocated < 2 * (n + Count + 1))
    {
      if Count + n < Allocated {
        return;
      }
      var target := CeilPow2Loop(n + Count + 1);
      if target < 8 {
        target := 8;
        assert IsPow2(8 / 2 / 2 / 2);
      }
      var block := new Byte[target];
      CopyBetween(block, 0, Data, Count);
      Data, Allocated := block, target;
    }

    /** Puts size bytes of another buffer before the byte at an index; for a view it may be the buffer itself. */
    method ArrayInsertAt(index: int, ptr: array<Byte>, size: nat)
      requires ValidBytes() && 0 <= Count + index && index <= Count && size <= ptr.Length && (ptr != Data || Allocated == 0)
      modifies this`Data, this`Allocated, this`Count, Owned()
      ensures ValidBytes() && Allocated != 0
      ensures fresh(Data) || (Data == old(Data) && old(Allocated) != 0)
      ensures var at := if index < 0 then old(Count) + index else index;
        && Bytes() == old(Bytes())[..at] + old(ptr[..size]) + old(Bytes())[at..]
        && Bytes() == Exchanged(old(Bytes()), at, at, old(ptr[..size]))
    {
      hide Exchanged, Encode, EncodeCp;
      ghost var s, x := Bytes(), ptr[..size];
      ArrayReserve(size);
      var offset := TranslateIndex(index, Count, true);
      InsertIntoBlock(Data, Count, offset, ptr, size);
      Count := Count + size;
      ExchangedNothing(s, offset, x);
    }

    /**
     * Puts a range of the array's own block before the byte at an index. Without room the block is
     * freed before the range is read (dangling). With room the range is read after the bytes from
     * the index on were shifted.
     */
    method ArrayInsertOwn(index: int, from: nat, size: nat) returns (dangling: bool)
      requires ValidBytes() && Allocated != 0 && 0 <= Count + index && index <= Count && from + size <= Count
      modifies this`Count, Data
      ensures dangling <==> old(Count) + size >= Allocated
      ensures ValidBytes() && (dangling ==> Bytes() == old(Bytes()))
      ensures var s, at: nat := old(Bytes()), if index < 0 then old(Count) + index else index;
        !dangling ==>
          && Bytes() == Exchanged(s, at, at, ReadAfterShift(s, at, from, size))
          && (Bytes() == Exchanged(s, at, at, s[from..from + size]) <==>
                Repeats(s, at, from, size))
    {
      hide Exchanged, ReadAfterShift, Repeats;
      if Count + size >= Allocated {
        return true;
      }
      ghost var s, count := Bytes(), Count;
      var offset := TranslateIndex(index, Count, true);
      InsertOwnIntoBlock(Data, Count, offset, from, size);
      Count := Count + size;
      ReadAfterShiftExactly(s, offset, from, size);
      ExchangedForSame(s, offset, ReadAfterShift(s, offset, from, size), s[from..from + size]);
      return false;
    }

    /** Shifts down what comes after a range of the string's own block. */
    method TakeOut(begin: nat, end: nat)
      requires ValidBytes() && Allocated != 0 && begin <= end <= Count
      modifies this`Count, Data
      ensures ValidBytes() && Bytes() == Exchanged(old(Bytes()), begin, end, [])
    {
      hide Exchanged;
      RemoveFromBlock(Data, Count, begin, end);
      Count := Count - (end - begin);
    }

    /** Takes out the bytes from begin to end. */
    method ArrayRemoveRange(begin: int, end: int)
      requires ValidBytes() && 0 <= Count + begin && begin < Count && 0 <= Count + end && end <= Count
      requires (if begin < 0 then Count + begin else begin) <= (if end < 0 then Count + end else end)
      modifies this`Data, this`Allocated, this`Count, Owned()
      ensures ValidBytes() && Allocated != 0
      ensures fresh(Data) || (Data == old(Data) && old(Allocated) != 0)
      ensures var b, e := if begin < 0 then old(Count) + begin else begin, if end < 0 then old(Count) + end else end;
        && Bytes() == old(Bytes())[..b] + old(Bytes())[e..]
        && Bytes() == Exchanged(old(Bytes()), b, e, [])
    {
      hide Exchanged, Encode, EncodeCp, IsPow2;
      ghost var s := Bytes();
      if Allocated == 0 {
        ArrayReserve(0);
      }
      var targetBegin := TranslateIndex(begin, Count, false);
      var targetEnd := TranslateIndex(end, Count, true);
      TakeOut(targetBegin, targetEnd);
      ExchangedForNone(s, targetBegin, targetEnd);
    }

    /** Writes a code point over the one that takes up oldSize bytes at an offset. */
    method SetUnit(offset: nat, oldSize: nat, codePoint: Encodable)
      requires ValidBytes() && offset + oldSize <= Count
      modifies this`Data, this`Allocated, this`Count, Owned()
      ensures ValidBytes() && Allocated != 0
      ensures fresh(Data) || (Data == old(Data) && old(Allocated) != 0)
      ensures Bytes() == Exchanged(old(Bytes()), offset, offset + oldSize, EncodeCp(codePoint))
    {
      hide Exchanged, Encode, EncodeCp;
      var size := SizeOfCodePoint(codePoint);
      var diff: int := size as int - oldSize;
      ArrayReserve(if diff < 0 then -diff else diff);
      SetInBlock(Data, Count, offset, oldSize, size, codePoint, EncodeCp(codePoint));
      Count := Count + diff;
    }

    /** The code point at an index becomes another one, whatever their sizes are. */
    method Set(index: int, codePoint: Encodable)
      requires Valid() && 0 <= Length + index && index < Length
      modifies this, Owned()
      ensures Valid() && Allocated != 0
      ensures fresh(Data) || (Data == old(Data) && old(Allocated) != 0)
      ensures var i := if index < 0 then old(Length) + index else index;
        CodePoints == old(CodePoints)[i := codePoint]
    {
      hide Exchanged, Encode, EncodeCp;
      var i := TranslateIndex(index, Length, false);
      ghost var cps := CodePoints;
      EncodeExchanged(cps, i, i + 1, [codePoint]);
      EncodeSingle(codePoint);
      var offset := GetCpAtIndex(Data[..Count], i, cps);
      var cpTargetSize := SizeOfUnitAt(Data[..Count], offset, i, cps);
      SetUnit(offset, cpTargetSize, codePoint);
      CodePoints := Exchanged(cps, i, i + 1, [codePoint]);
      ExchangedForOne(cps, i, codePoint);
    }

    method InsertAt(index: int, codePoint: Encodable)
      requires Valid() && 0 <= Length + index && index <= Length
      modifies this, Owned()
      ensures Valid() && Allocated != 0
      ensures fresh(Data) || (Data == old(Data) && old(Allocated) != 0)
      ensures var i := if index < 0 then old(Length) + index else index;
        CodePoints == old(CodePoints[..i]) + [codePoint] + old(CodePoints[i..])
    {
      hide Exchanged, Encode, EncodeCp;
      var data := new Byte[4];
      EncodeCpAt(data, 0, codePoint);
      assert data[..SizeOfCodePoint(codePoint)] == EncodeCp(codePoint);
      LeadTellsSize(codePoint);
      var i := TranslateIndex(index, Length, true);
      ghost var cps := CodePoints;
      EncodeExchanged(cps, i, i, [codePoint]);
      EncodeSingle(codePoint);
      var offset := GetCpAtIndex(Data[..Count], i, cps);
      ArrayInsertAt(offset, data, SizeOfLead(data[0]));
      Length := Length + 1;
      CodePoints := Exchanged(cps, i, i, [codePoint]);
      ExchangedNothing(cps, i, [codePoint]);
    }

    /** Text of another buffer comes in as a whole; for a view it may be the buffer itself. */
    method InsertTextAt(index: int, str: array<Byte>, size: nat, ghost text: seq<Encodable>)
      requires Valid() && 0 <= Length + index && index <= Length
      requires size <= str.Length && (str != Data || Allocated == 0) && str[..size] == Encode(text)
      modifies this, Owned()
      ensures Valid() && Allocated != 0
      ensures fresh(Data) || (Data == old(Data) && old(Allocated) != 0)
      ensures var i := if index < 0 then old(Length) + index else index;
        CodePoints == old(CodePoints[..i]) + text + old(CodePoints[i..])
    {
      hide Exchanged, Encode, EncodeCp;
      var i := TranslateIndex(index, Length, true);
      ghost var cps := CodePoints;
      EncodeExchanged(cps, i, i, text);
      var offset := GetCpAtIndex(Data[..Count], i, cps);
      var added := Utf8Length(str[..size]);
      ArrayInsertAt(offset, str, size);
      Length := Length + added;
      CodePoints := Exchanged(cps, i, i, text);
      ExchangedNothing(cps, i, text);
    }

    /**
     * The code points from i to j of the string itself come in once more. They are counted when
     * the bytes are in their places, in the range they came from. That gives a valid string
     * exactly when, should they start behind the index, the bytes behind the gap repeat themselves,
     * and the range then holds as many code points as before; always when it ends before the index.
     */
    method InsertOwnTextAt(index: int, from: nat, size: nat, ghost i: nat, ghost j: nat) returns (dangling: bool)
      requires Valid() && Allocated != 0 && 0 <= Length + index && index <= Length && i <= j <= Length
      requires from == Offset(CodePoints, i) && from + size == Offset(CodePoints, j) <= Count
      modifies this, Data
      ensures dangling <==> old(Count) + size >= Allocated
      ensures dangling ==> Valid() && CodePoints == old(CodePoints)
      ensures var k := if index < 0 then old(Length) + index else index;
        !dangling ==>
          && Offset(old(CodePoints), k) <= old(Count)
          && CodePoints == old(CodePoints[..k]) + old(CodePoints[i..j]) + old(CodePoints[k..])
          && (j <= k ==> Valid())
          && (Valid() <==> var s, at := old(Bytes()), Offset(old(CodePoints), k);
                && Repeats(s, at, from, size)
                && Leads(Exchanged(s, at, at, s[from..from + size])[from..from + size]) == j - i)
    {
      hide Exchanged, Encode, EncodeCp, ReadAfterShift, Leads, Repeats;
      var k := TranslateIndex(index, Length, true);
      ghost var cps, s := CodePoints, Bytes();
      EncodeExchanged(cps, k, k, cps[i..j]);
      var offset := GetCpAtIndex(Data[..Count], k, cps);
      dangling := ArrayInsertOwn(offset, from, size);
      if dangling {
        return;
      }
      var added := Utf8Length(Data[..Count][from..from + size]);
      OwnTextCounts(cps, k, i, j, s, offset, from, size, Bytes());
      Length := Length + added;
      CodePoints := Exchanged(cps, k, k, cps[i..j]);
      ExchangedNothing(cps, k, cps[i..j]);
    }

    method RemoveAt(index: int)
      requires Valid() && 0 <= Length + index && index < Length
      modifies this, Owned()
      ensures Valid() && Allocated != 0
      ensures fresh(Data) || (Data == old(Data) && old(Allocated) != 0)
      ensures var i := if index < 0 then old(Length) + index else index;
        CodePoints == old(CodePoints[..i]) + old(CodePoints[i + 1..])
    {
      hide Exchanged, Encode, EncodeCp;
      EncodeNothing();
      var i := TranslateIndex(index, Length, true);
      ghost var cps := CodePoints;
      var offset := GetCpAtIndex(Data[..Count], i, cps);
      var size := SizeOfUnitAt(Data[..Count], offset, i, cps);
      EncodeExchanged(cps, i, i + 1, []);
      ArrayRemoveRange(offset, offset + size);
      Length := Length - 1;
      CodePoints := Exchanged(cps, i, i + 1, []);
      ExchangedForNone(cps, i, i + 1);
    }

    method RemoveRange(begin: int, end: int)
      requires Valid() && 0 <= Length + begin && begin < Length && 0 <= Length + end && end <= Length
      requires (if begin < 0 then Length + begin else begin) <= (if end < 0 then Length + end else end)
      modifies this, Owned()
      ensures Valid() && Allocated != 0
      ensures fresh(Data) || (Data == old(Data) && old(Allocated) != 0)
      ensures var i, j := if begin < 0 then old(Length) + begin else begin, if end < 0 then old(Length) + end else end;
        CodePoints == old(CodePoints[..i]) + old(CodePoints[j..])
    {
      hide Exchanged, Encode, EncodeCp;
      EncodeNothing();
      var tbegin := TranslateIndex(begin, Length, false);
      var tend := TranslateIndex(end, Length, true);
      ghost var cps := CodePoints;
      var bi := GetCpAtIndex(Data[..Count], tbegin, cps);
      var ei := GetCpAtIndex(Data[..Count], tend, cps);
      MeetsEnd(cps, tbegin);
      EncodeExchanged(cps, tbegin, tend, []);
      ArrayRemoveRange(bi, ei);
      Length := Length - (tend - tbegin);
      CodePoints := Exchanged(cps, tbegin, tend, []);
      ExchangedForNone(cps, tbegin, tend);
    }
  }
}

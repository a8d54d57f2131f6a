/**
 * How an allocation lies in the block an allocator gave for it: padding, header, the bytes of the
 * user, and in debug builds a few guard bytes behind them.
 */
module AllocationHeaders {
  import opened PowersOfTwo
  import opened Utf8
  import opened Utf8Sequences
  import Powers

  /**
   * The size of the header and of the guard behind the user's bytes, 32 and 0, or 96 and 4 in
   * debug builds, and where in the header the size stands, at 16 or 64, and the alignment, at 24
   * or 80; the padding comes behind it.
   */
  datatype Build = Build(headerSize: nat, guardSize: nat, sizeAt: nat, alignmentAt: nat)

  predicate ValidBuild(b: Build) {
    b.sizeAt + 8 <= b.alignmentAt && b.alignmentAt + 4 <= b.headerSize < 0x8000
  }

  /** What survives of a number in a field of 16 bits. */
  function U16(x: int): (r: nat)
    ensures r < 0x1_0000
  {
    x % 0x1_0000
  }

  /** Masking with the negated alignment, a power of two, drops the remainder. */
  function RoundDown(x: nat, alignment: nat): nat
    requires alignment > 0
  {
    x - x % alignment
  }

  function PaddingForPointer(ptr: nat, alignment: nat): nat
    requires alignment > 0
  {
    U16(RoundDown(ptr + (alignment - 1), alignment) - ptr)
  }

  /** As many alignments as are needed for what is missing. */
  function MultipleFor(missing: nat, alignment: nat): nat
    requires alignment > 0
  {
    if missing % alignment != 0 then alignment * (1 + missing / alignment) else alignment * (missing / alignment)
  }

  function PaddingWithHeader(ptr: nat, alignment: nat, headerSize: nat): nat
    requires alignment > 0
  {
    var padding := PaddingForPointer(ptr, alignment);
    if padding < headerSize then U16(padding + MultipleFor(headerSize - padding, alignment)) else padding
  }

  /** The padding before an aligned pointer is the least one that aligns it. */
  lemma PaddingAligns(ptr: nat, alignment: nat)
    requires 0 < alignment <= 0x8000
    ensures (ptr + PaddingForPointer(ptr, alignment)) % alignment == 0
    ensures PaddingForPointer(ptr, alignment) < alignment
  {
    var up := ptr + (alignment - 1);
    var q, r := up / alignment, up % alignment;
    assert up == q * alignment + r;
    Powers.DivModUnique(q * alignment, alignment, q, 0);
    assert RoundDown(up, alignment) == q * alignment;
  }

  /** The multiple of the alignment that is added has room for what is missing, and no more than needed. */
  lemma MultipleIsLeast(missing: nat, alignment: nat)
    requires alignment > 0
    ensures missing <= MultipleFor(missing, alignment) < missing + alignment
    ensures MultipleFor(missing, alignment) % alignment == 0
  {
    var q, r := missing / alignment, missing % alignment;
    assert missing == q * alignment + r;
    Powers.Distribute(1, q, alignment);
    var k := if r != 0 then 1 + q else q;
    assert MultipleFor(missing, alignment) == k * alignment;
    Powers.DivModUnique(k * alignment, alignment, k, 0);
  }

  lemma AddAligned(x: nat, added: nat, alignment: nat)
    requires alignment > 0 && x % alignment == 0 && added % alignment == 0
    ensures (x + added) % alignment == 0
  {
    var q := added / alignment;
    assert added == q * alignment;
    Powers.ModShift(x, q, alignment);
  }

  /** The padding with a header has room for the header, aligns what comes after it, and is the least that does. */
  lemma PaddingWithHeaderAligns(ptr: nat, alignment: nat, headerSize: nat)
    requires 0 < alignment <= 0x8000 && headerSize < 0x8000
    ensures var padding := PaddingWithHeader(ptr, alignment, headerSize);
      headerSize <= padding < headerSize + alignment && (ptr + padding) % alignment == 0
  {
    hide PaddingForPointer, MultipleFor;
    PaddingAligns(ptr, alignment);
    var padding := PaddingForPointer(ptr, alignment);
    if padding < headerSize {
      var added := MultipleFor(headerSize - padding, alignment);
      MultipleIsLeast(headerSize - padding, alignment);
      AddAligned(ptr + padding, added, alignment);
      FitsU16(padding + added);
    }
  }

  lemma FitsU16(x: nat)
    ensures U16(x) == x <==> x < 0x1_0000
  {
  }

  // ----- allocations

  /** What the header keeps. */
  datatype Header = Header(size: nat, alignment: nat, alignmentPadding: nat)

  /** The alignment that is used: at least that of a pointer. */
  function EffectiveAlignment(alignment: nat): nat {
    if alignment < 8 then 8 else alignment
  }

  /** How many bytes are requested from the allocator. */
  function Required(userSize: nat, alignment: nat, b: Build): nat
    requires alignment > 0
  {
    userSize + alignment + b.headerSize + b.headerSize % alignment + b.guardSize
  }

  /** Where the user's bytes start in a block. */
  function UserPointer(block: nat, alignment: nat, b: Build): nat
    requires alignment > 0
  {
    block + PaddingWithHeader(block, alignment, b.headerSize)
  }

  function EncodeHeader(block: nat, userSize: nat, alignment: nat, b: Build): Header
    requires alignment > 0
  {
    Header(userSize, U16(alignment), U16(PaddingWithHeader(block, alignment, b.headerSize) - b.headerSize))
  }

  /** What an allocation occupies: header, user's bytes and guard, in this order and inside the block. */
  lemma LayoutFits(block: nat, userSize: nat, alignment: nat, b: Build)
    requires 0 < alignment <= 0x8000 && b.headerSize < 0x8000
    ensures var user := UserPointer(block, alignment, b);
      && user % alignment == 0
      && block <= user - b.headerSize
      && user + userSize + b.guardSize <= block + Required(userSize, alignment, b)
  {
    PaddingWithHeaderAligns(block, alignment, b.headerSize);
  }

  /** The block and the size that freeing computes from the header before the user's bytes. */
  function BlockOf(user: nat, h: Header, b: Build): int {
    user - b.headerSize - h.alignmentPadding
  }

  function SizeOf(h: Header, b: Build): nat
    requires h.alignment > 0
  {
    h.size + (h.alignment + b.headerSize + b.headerSize % h.alignment) + b.guardSize
  }

  /** Freeing hands back exactly what was requested, for alignments that fit the field of the header. */
  lemma FreeRecovers(block: nat, userSize: nat, alignment: nat, b: Build)
    requires 0 < alignment <= 0x8000 && b.headerSize < 0x8000
    ensures var h := EncodeHeader(block, userSize, alignment, b);
      && h.alignment > 0
      && BlockOf(UserPointer(block, alignment, b), h, b) == block
      && SizeOf(h, b) == Required(userSize, alignment, b)
  {
    PaddingWithHeaderAligns(block, alignment, b.headerSize);
    var padding := PaddingWithHeader(block, alignment, b.headerSize);
    FitsU16(padding - b.headerSize);
    FitsU16(alignment);
  }

  // ----- the header as bytes

  /** How many numbers k bytes can hold. */
  function Capacity(k: nat): (c: nat)
    ensures c > 0
  {
    if k == 0 then 1 else 0x100 * Capacity(k - 1)
  }

  /** The lowest k bytes of a number, the least significant one first. */
  function LittleEndian(x: nat, k: nat): (r: seq<Byte>)
    ensures |r| == k
  {
    if k == 0 then [] else [x % 0x100] + LittleEndian(x / 0x100, k - 1)
  }

  function FromLittleEndian(s: seq<Byte>): nat {
    if s == [] then 0 else s[0] + 0x100 * FromLittleEndian(s[1..])
  }

  lemma {:induction false} LittleEndianRoundTrip(x: nat, k: nat)
    requires x < Capacity(k)
    ensures FromLittleEndian(LittleEndian(x, k)) == x
  {
    if k > 0 {
      LittleEndianRoundTrip(x / 0x100, k - 1);
      assert LittleEndian(x, k)[1..] == LittleEndian(x / 0x100, k - 1);
    }
  }

  /** A header in memory; what its other fields hold is given. */
  function HeaderBytes(h: Header, b: Build, fields: seq<Byte>): (r: seq<Byte>)
    requires ValidBuild(b) && |fields| == b.headerSize
    ensures |r| == b.headerSize
  {
    var withSize := Written(fields, b.sizeAt, LittleEndian(h.size, 8));
    var withAlignment := Written(withSize, b.alignmentAt, LittleEndian(h.alignment, 2));
    Written(withAlignment, b.alignmentAt + 2, LittleEndian(h.alignmentPadding, 2))
  }

  function DecodeHeader(bytes: seq<Byte>, b: Build): Header
    requires ValidBuild(b) && |bytes| == b.headerSize
  {
    Header(FromLittleEndian(bytes[b.sizeAt..b.sizeAt + 8]),
           FromLittleEndian(bytes[b.alignmentAt..b.alignmentAt + 2]),
           FromLittleEndian(bytes[b.alignmentAt + 2..b.alignmentAt + 4]))
  }

  /** What fits the fields is read back. */
  lemma HeaderRoundTrip(h: Header, b: Build, fields: seq<Byte>)
    requires ValidBuild(b) && |fields| == b.headerSize
    requires h.size < 0x1_0000_0000_0000_0000 && h.alignment < 0x1_0000 && h.alignmentPadding < 0x1_0000
    ensures DecodeHeader(HeaderBytes(h, b, fields), b) == h
  {
    hide LittleEndian, FromLittleEndian, Capacity;
    FieldCapacities();
    LittleEndianRoundTrip(h.size, 8);
    LittleEndianRoundTrip(h.alignment, 2);
    LittleEndianRoundTrip(h.alignmentPadding, 2);
    var bytes := HeaderBytes(h, b, fields);
    assert bytes[b.sizeAt..b.sizeAt + 8] == LittleEndian(h.size, 8);
    assert bytes[b.alignmentAt..b.alignmentAt + 2] == LittleEndian(h.alignment, 2);
    assert bytes[b.alignmentAt + 2..b.alignmentAt + 4] == LittleEndian(h.alignmentPadding, 2);
  }

  /** The numbers that two and four bytes stand for, the least significant one first. */
  function Of16(b0: nat, b1: nat): nat {
    b0 + 0x100 * b1
  }

  function Of32(b0: nat, b1: nat, b2: nat, b3: nat): nat {
    b0 + 0x100 * b1 + 0x1_0000 * b2 + 0x100_0000 * b3
  }

  lemma TwoBytes(s: seq<Byte>)
    requires |s| == 2
    ensures FromLittleEndian(s) == Of16(s[0], s[1])
  {
    assert s[1..] == [s[1]] && [s[1]][1..] == [];
    assert FromLittleEndian([s[1]]) == s[1] + 0x100 * FromLittleEndian([]);
  }

  lemma {:induction false} FromLittleEndianAppend(s: seq<Byte>, t: seq<Byte>)
    ensures FromLittleEndian(s + t) == FromLittleEndian(s) + Capacity(|s|) * FromLittleEndian(t)
  {
    if s == [] {
      assert s + t == t;
    } else {
      assert (s + t)[1..] == s[1..] + t;
      FromLittleEndianAppend(s[1..], t);
      Powers.MulAssociates(0x100, Capacity(|s| - 1), FromLittleEndian(t));
    }
  }

  lemma EightBytes(s: seq<Byte>)
    requires |s| == 8
    ensures FromLittleEndian(s) == Of32(s[0], s[1], s[2], s[3]) + 0x1_0000_0000 * Of32(s[4], s[5], s[6], s[7])
  {
    FourBytes(s[..4]);
    FourBytes(s[4..]);
    FromLittleEndianAppend(s[..4], s[4..]);
    assert s[..4] + s[4..] == s && Capacity(4) == 0x1_0000_0000;
  }

  lemma FourBytes(s: seq<Byte>)
    requires |s| == 4
    ensures FromLittleEndian(s) == Of32(s[0], s[1], s[2], s[3])
  {
    TwoBytes(s[..2]);
    TwoBytes(s[2..]);
    FromLittleEndianAppend(s[..2], s[2..]);
    assert s[..2] + s[2..] == s && Capacity(2) == 0x1_0000;
  }

  /** Where the numbers of a header stand in memory: the lowest byte first. */
  lemma HeaderLayout(bytes: seq<Byte>, b: Build)
    requires ValidBuild(b) && |bytes| == b.headerSize
    ensures var h, at := DecodeHeader(bytes, b), b.sizeAt;
      h.size == Of32(bytes[at], bytes[at + 1], bytes[at + 2], bytes[at + 3])
                + 0x1_0000_0000 * Of32(bytes[at + 4], bytes[at + 5], bytes[at + 6], bytes[at + 7])
    ensures var h, at := DecodeHeader(bytes, b), b.alignmentAt;
      h.alignment == Of16(bytes[at], bytes[at + 1]) && h.alignmentPadding == Of16(bytes[at + 2], bytes[at + 3])
  {
    hide FromLittleEndian, Of16, Of32;
    EightBytes(bytes[b.sizeAt..b.sizeAt + 8]);
    TwoBytes(bytes[b.alignmentAt..b.alignmentAt + 2]);
    TwoBytes(bytes[b.alignmentAt + 2..b.alignmentAt + 4]);
  }

  lemma FieldCapacities()
    ensures Capacity(8) == 0x1_0000_0000_0000_0000 && Capacity(2) == 0x1_0000
  {
    assert Capacity(4) == 0x1_0000_0000;
  }

  lemma {:induction false} Pow2Divides(p: nat, k: nat)
    requires IsPow2(p) && IsPow2(k) && k <= p
    ensures p % k == 0
    decreases k
  {
    if k > 1 {
      Pow2Divides(p / 2, k / 2);
      var q := p / 2 / (k / 2);
      assert p / 2 == q * (k / 2);
      assert p == q * k by { assert k == 2 * (k / 2) && p == 2 * (p / 2); Twice(q, k / 2); }
      Powers.DivModUnique(p, k, q, 0);
    }
  }

  lemma Twice(q: int, k: int)
    ensures 2 * (q * k) == q * (2 * k)
  {
  }

  /**
   * For a power of two the header keeps the alignment if and only if it is at most 2^15; a larger
   * one is kept as zero, by which freeing then divides.
   */
  lemma HeaderKeepsAlignment(block: nat, userSize: nat, alignment: nat, b: Build)
    requires IsPow2(alignment)
    ensures EncodeHeader(block, userSize, alignment, b).alignment == (if alignment <= 0x8000 then alignment else 0)
  {
    if alignment > 0x8000 {
      LargeIsMultiple(alignment);
    } else {
      FitsU16(alignment);
    }
  }

  lemma PowersUpTo15()
    ensures IsPow2(0x8000)
  {
    assert IsPow2(0x10);
    assert IsPow2(0x100);
    assert IsPow2(0x1000);
  }

  /** How far the next aligned pointer is. */
  function Gap(ptr: nat, alignment: nat): (gap: nat)
    requires alignment > 0
    ensures gap < alignment && (ptr + gap) % alignment == 0
  {
    RoundedIsAligned(ptr + (alignment - 1), alignment);
    RoundDown(ptr + (alignment - 1), alignment) - ptr
  }

  lemma RoundedIsAligned(x: nat, alignment: nat)
    requires alignment > 0
    ensures x - alignment < RoundDown(x, alignment) <= x && RoundDown(x, alignment) % alignment == 0
  {
    assert x - x % alignment == x / alignment * alignment;
    Powers.DivModUnique(x / alignment * alignment, alignment, x / alignment, 0);
  }

  lemma AlignedAhead(x: nat, k: nat, alignment: nat)
    requires 0 < k < alignment && x % alignment == 0 && k <= x
    ensures (x - k) % alignment != 0
  {
    if (x - k) % alignment == 0 {
      var p, q := x / alignment, (x - k) / alignment;
      assert x == p * alignment && x - k == q * alignment;
      Powers.StepsApart(q, p, alignment);
      Powers.MulMonotone(p, q, alignment);
    }
  }

  /** For a multiple of 2^16 nothing is added for the header, because it does not fit. */
  lemma LargePadding(ptr: nat, alignment: nat, headerSize: nat)
    requires alignment >= 0x1_0000 && alignment % 0x1_0000 == 0 && headerSize < 0x8000
    ensures PaddingWithHeader(ptr, alignment, headerSize) == U16(Gap(ptr, alignment))
  {
    PaddingIsGap(ptr, alignment);
    hide PaddingForPointer, Gap, MultipleFor, U16;
    var padding := PaddingForPointer(ptr, alignment);
    if padding < headerSize {
      OneMultiple(headerSize - padding, alignment);
      NothingAdded(padding, alignment);
    }
  }

  lemma PaddingIsGap(ptr: nat, alignment: nat)
    requires alignment > 0
    ensures PaddingForPointer(ptr, alignment) == U16(Gap(ptr, alignment))
  {
    hide RoundDown, U16;
  }

  lemma OneMultiple(missing: nat, alignment: nat)
    requires 0 < missing < alignment
    ensures MultipleFor(missing, alignment) == alignment
  {
    Powers.DivModUnique(missing, alignment, 0, missing);
  }

  lemma NothingAdded(padding: nat, alignment: nat)
    requires padding < 0x1_0000 && alignment % 0x1_0000 == 0
    ensures U16(padding + alignment) == padding
  {
    Powers.ModShift(padding, alignment / 0x1_0000, 0x1_0000);
  }

  /**
   * For any power of two the padding has room for the header and aligns what comes after it if and
   * only if the alignment is at most 2^15, or the next aligned pointer is behind the header and
   * less than 2^16 away.
   */
  lemma PaddingRightExactly(ptr: nat, alignment: nat, headerSize: nat)
    requires IsPow2(alignment) && headerSize < 0x8000
    ensures var padding := PaddingWithHeader(ptr, alignment, headerSize);
      (headerSize <= padding && (ptr + padding) % alignment == 0) <==>
        alignment <= 0x8000 || headerSize <= Gap(ptr, alignment) < 0x1_0000
  {
    assert alignment > 0;
    hide IsPow2, PaddingWithHeader, PaddingForPointer, Gap, U16;
    if alignment <= 0x8000 {
      PaddingWithHeaderAligns(ptr, alignment, headerSize);
    } else {
      LargeIsMultiple(alignment);
      LargePadding(ptr, alignment, headerSize);
      var gap := Gap(ptr, alignment);
      FitsU16(gap);
      if gap >= 0x1_0000 {
        AlignedAhead(ptr + gap, gap - U16(gap), alignment);
      }
    }
  }

  lemma LargeIsMultiple(alignment: nat)
    requires IsPow2(alignment) && alignment > 0x8000
    ensures alignment >= 0x1_0000 && alignment % 0x1_0000 == 0
  {
    PowersUpTo15();
    PowersApart(0x8000, alignment);
    assert IsPow2(0x1_0000);
    Pow2Divides(alignment, 0x1_0000);
  }
}

/**
 * The word-at-a-time test for a byte, on the 32-bit words a little-endian machine reads:
 * subtract one from every byte, and see in which byte a borrow sets the top bit.
 */
module WordTricks {
  import opened Utf8

  /** A byte as a machine word, bit by bit. */
  function Bits(b: Byte): (w: bv32)
    ensures w <= 0xFF
  {
    (Nibble(b / 16) << 4) | Nibble(b % 16)
  }

  function Nibble(x: int): (w: bv32)
    requires 0 <= x < 16
    ensures w <= 0xF
  {
    Mask(x % 2 == 1, 1) | Mask(x / 2 % 2 == 1, 2) | Mask(x / 4 % 2 == 1, 4) | Mask(x / 8 == 1, 8)
  }

  function Mask(on: bool, mask: bv32): bv32 {
    if on then mask else 0
  }

  lemma NibbleInjective(a: int, b: int)
    requires 0 <= a < 16 && 0 <= b < 16 && Nibble(a) == Nibble(b)
    ensures a == b
  {
    assert Nibble(a) & 1 == Mask(a % 2 == 1, 1) && Nibble(b) & 1 == Mask(b % 2 == 1, 1);
    assert Nibble(a) & 2 == Mask(a / 2 % 2 == 1, 2) && Nibble(b) & 2 == Mask(b / 2 % 2 == 1, 2);
    assert Nibble(a) & 4 == Mask(a / 4 % 2 == 1, 4) && Nibble(b) & 4 == Mask(b / 4 % 2 == 1, 4);
    assert Nibble(a) & 8 == Mask(a / 8 == 1, 8) && Nibble(b) & 8 == Mask(b / 8 == 1, 8);
  }

  lemma NibblesApart(h: bv32, l: bv32)
    requires h <= 0xF && l <= 0xF
    ensures ((h << 4) | l) >> 4 == h && ((h << 4) | l) & 0xF == l
  {
  }

  lemma BitsInjective(a: Byte, b: Byte)
    requires Bits(a) == Bits(b)
    ensures a == b
  {
    NibblesApart(Nibble(a / 16), Nibble(a % 16));
    NibblesApart(Nibble(b / 16), Nibble(b % 16));
    NibbleInjective(a / 16, b / 16);
    NibbleInjective(a % 16, b % 16);
  }

  // ----- words of four bytes

  function Word(b0: bv32, b1: bv32, b2: bv32, b3: bv32): bv32 {
    b0 | (b1 << 8) | (b2 << 16) | (b3 << 24)
  }

  predicate Holds(w: bv32, b0: bv32, b1: bv32, b2: bv32, b3: bv32) {
    w & 0xFF == b0 && w & 0xFF00 == b1 << 8 && w & 0xFF0000 == b2 << 16 && w & 0xFF000000 == b3 << 24
  }

  predicate AgreeUnder(x: bv32, y: bv32, mask: bv32) {
    x & mask == y & mask
  }

  predicate AgreeInAByte(x: bv32, y: bv32) {
    || AgreeUnder(x, y, 0xFF) || AgreeUnder(x, y, 0xFF00)
    || AgreeUnder(x, y, 0xFF0000) || AgreeUnder(x, y, 0xFF000000)
  }

  function HasZeroByte(v: bv32): bv32 {
    (v - 0x01010101) & !v & 0x80808080
  }

  lemma HasZeroByteExactly(v: bv32)
    ensures HasZeroByte(v) != 0 <==> AgreeInAByte(v, 0)
  {
  }

  lemma XorMasked(x: bv32, y: bv32, mask: bv32, v: bv32)
    requires v == x ^ y
    ensures AgreeUnder(v, 0, mask) <==> AgreeUnder(x, y, mask)
  {
  }

  /** The test on the difference of two words says whether they agree in a byte. */
  lemma ZeroByteOfXor(x: bv32, y: bv32, v: bv32)
    requires v == x ^ y
    ensures HasZeroByte(v) != 0 <==> AgreeInAByte(x, y)
  {
    hide HasZeroByte, AgreeUnder;
    XorMasked(x, y, 0xFF, v);
    XorMasked(x, y, 0xFF00, v);
    XorMasked(x, y, 0xFF0000, v);
    XorMasked(x, y, 0xFF000000, v);
    HasZeroByteExactly(v);
  }

  lemma WordHolds(b0: bv32, b1: bv32, b2: bv32, b3: bv32)
    requires b0 <= 0xFF && b1 <= 0xFF && b2 <= 0xFF && b3 <= 0xFF
    ensures Holds(Word(b0, b1, b2, b3), b0, b1, b2, b3)
  {
  }

  lemma ShiftedApart(a: bv32, b: bv32)
    requires a <= 0xFF && b <= 0xFF
    ensures (a << 8 == b << 8 <==> a == b) && (a << 16 == b << 16 <==> a == b) && (a << 24 == b << 24 <==> a == b)
  {
  }

  lemma AgreeShifted(x: bv32, y: bv32, b0: bv32, b1: bv32, b2: bv32, b3: bv32, n: bv32)
    requires Holds(x, b0, b1, b2, b3) && Holds(y, n, n, n, n)
    ensures AgreeUnder(x, y, 0xFF) <==> b0 == n
    ensures AgreeUnder(x, y, 0xFF00) <==> b1 << 8 == n << 8
    ensures AgreeUnder(x, y, 0xFF0000) <==> b2 << 16 == n << 16
    ensures AgreeUnder(x, y, 0xFF000000) <==> b3 << 24 == n << 24
  {
  }

  lemma AgreeWithRepeated(x: bv32, b0: bv32, b1: bv32, b2: bv32, b3: bv32, y: bv32, n: bv32)
    requires b0 <= 0xFF && b1 <= 0xFF && b2 <= 0xFF && b3 <= 0xFF && n <= 0xFF
    requires Holds(x, b0, b1, b2, b3) && Holds(y, n, n, n, n)
    ensures AgreeInAByte(x, y) <==> b0 == n || b1 == n || b2 == n || b3 == n
  {
    hide AgreeUnder, Holds;
    AgreeShifted(x, y, b0, b1, b2, b3, n);
    ShiftedApart(b1, n);
    ShiftedApart(b2, n);
    ShiftedApart(b3, n);
  }

  /** A byte in all four places of a word, by one multiplication. */
  method Repeat(n: bv32) returns (r: bv32)
    requires n <= 0xFF
    ensures r == Word(n, n, n, n)
  {
    r := 0xFFFFFFFF / 255 * n;
  }

  method U32HasByte(b0: bv32, b1: bv32, b2: bv32, b3: bv32, n: bv32) returns (has: bool)
    requires b0 <= 0xFF && b1 <= 0xFF && b2 <= 0xFF && b3 <= 0xFF && n <= 0xFF
    ensures has <==> b0 == n || b1 == n || b2 == n || b3 == n
  {
    var x := Word(b0, b1, b2, b3);
    var y := Repeat(n);
    WordHolds(b0, b1, b2, b3);
    WordHolds(n, n, n, n);
    AgreeWithRepeated(x, b0, b1, b2, b3, y, n);
    ZeroByteOfXor(x, y, x ^ y);
    has := HasZeroByte(x ^ y) != 0;
  }

  lemma BitsEqual(a: Byte, b: Byte)
    ensures Bits(a) == Bits(b) <==> a == b
  {
    if Bits(a) == Bits(b) {
      BitsInjective(a, b);
    }
  }

  /** The test at four bytes of a buffer: true exactly when one of them is the byte looked for. */
  method HasByteAt(s: seq<Byte>, p: nat, n: Byte) returns (has: bool)
    requires p + 4 <= |s|
    ensures has <==> n in s[p..p + 4]
  {
    BitsEqual(s[p], n);
    BitsEqual(s[p + 1], n);
    BitsEqual(s[p + 2], n);
    BitsEqual(s[p + 3], n);
    has := U32HasByte(Bits(s[p]), Bits(s[p + 1]), Bits(s[p + 2]), Bits(s[p + 3]), Bits(n));
    assert s[p..p + 4] == [s[p], s[p + 1], s[p + 2], s[p + 3]];
  }
}

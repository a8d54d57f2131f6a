/** 128-bit integers made of two 64-bit limbs. */
module Int128 {
  import opened Powers

  const B := 0x1_0000_0000_0000_0000
  const M := 0x1_0000_0000_0000_0000_0000_0000_0000_0000
  const HALF := 0x8000_0000_0000_0000

  type u64 = x: int | 0 <= x < 0x1_0000_0000_0000_0000
  type s64 = x: int | -0x8000_0000_0000_0000 <= x < 0x8000_0000_0000_0000

  datatype U128 = U128(hi: u64, lo: u64)
  datatype S128 = S128(hi: s64, lo: u64)

  function Val(x: U128): (v: nat)
    ensures v < M
  {
    x.hi * B + x.lo
  }

  function SVal(x: S128): (v: int)
    ensures -(M / 2) <= v < M / 2
  {
    x.hi * B + x.lo
  }

  function Wrap(x: int): u64 {
    x % B
  }

  /** The two's complement reading of 64 bits. */
  function Signed(x: u64): s64 {
    if x >= HALF then x - B else x
  }

  function Unsigned(x: S128): (r: U128)
    ensures Val(r) == SVal(x) % M
    ensures Val(r) == if SVal(x) < 0 then SVal(x) + M else SVal(x)
  {
    U128(Wrap(x.hi), x.lo)
  }

  function ToSigned(x: U128): (r: S128)
    ensures SVal(r) == if Val(x) >= M / 2 then Val(x) - M else Val(x)
  {
    S128(Signed(x.hi), x.lo)
  }

  // ----- comparison, addition, subtraction

  predicate Less(l: U128, r: U128)
    ensures Less(l, r) <==> Val(l) < Val(r)
  {
    if l.hi == r.hi then l.lo < r.lo else l.hi < r.hi
  }

  predicate SLess(l: S128, r: S128)
    ensures SLess(l, r) <==> SVal(l) < SVal(r)
  {
    if l.hi == r.hi then l.lo < r.lo else l.hi < r.hi
  }

  /** The sum of two 64-bit words, modulo 2^64. */
  function Plus64(x: u64, y: u64): (s: u64)
    ensures s == Wrap(x + y)
  {
    if x + y < B then x + y else x + y - B
  }

  /** The difference of two 64-bit words, modulo 2^64. */
  function Minus64(x: u64, y: u64): (s: u64)
    ensures s == Wrap(x - y)
  {
    if x >= y then x - y else x - y + B
  }

  function Add(l: U128, r: U128): (s: U128)
    ensures Val(s) == if Val(l) + Val(r) < M then Val(l) + Val(r) else Val(l) + Val(r) - M
  {
    var s := U128(Plus64(l.hi, r.hi), Plus64(l.lo, r.lo));
    if s.lo < l.lo then U128(Plus64(s.hi, 1), s.lo) else s
  }

  function Sub(l: U128, r: U128): (s: U128)
    ensures Val(s) == if Val(l) >= Val(r) then Val(l) - Val(r) else Val(l) - Val(r) + M
  {
    var s := U128(Minus64(l.hi, r.hi), Minus64(l.lo, r.lo));
    if l.lo < r.lo then U128(Minus64(s.hi, 1), s.lo) else s
  }

  // ----- shifts

  /** A 64-bit word shifted left; C++ leaves amounts of 64 and more undefined. */
  function Shl64(x: u64, k: nat): u64 {
    (x * Pow2(k)) % B
  }

  function Shr64(x: u64, k: nat): (r: u64)
  {
    QuotientAtMost(x, Pow2(k));
    x / Pow2(k)
  }

  function Or64(x: u64, y: u64): (r: u64)
    ensures r == Or(x, y)
  {
    Pow2Values();
    OrBound(x, y, 64);
    Or(x, y)
  }

  /** The code reaches amounts of 128 and more only for a zero operand. */
  function Shl(x: U128, k: nat): U128 {
    if k < 64 then
      if k != 0 then U128(Or64(Shl64(x.hi, k), Shr64(x.lo, 64 - k)), Shl64(x.lo, k)) else x
    else U128(Shl64(x.lo, k - 64), 0)
  }

  function Shr(x: U128, k: nat): U128
    requires k < 128
  {
    if k < 64 then
      if k != 0 then U128(Shr64(x.hi, k), Or64(Shr64(x.lo, k), Shl64(x.hi, 64 - k))) else x
    else U128(0, Shr64(x.hi, k - 64))
  }

  /** Splitting x at q, where p q is the modulus, splits x p at the modulus. */
  lemma SplitProduct(x: int, p: int, q: int, m: int)
    requires p > 0 && q > 0 && p * q == m && 0 <= x < m
    ensures 0 <= x / q < p && 0 <= (x % q) * p <= m - p
    ensures x * p == (x / q) * m + (x % q) * p
    ensures (x * p) % m == (x % q) * p
  {
    var a, b := x / q, x % q;
    QuotientBelow(x, p, q);
    assert x == a * q + b;
    Distribute(a * q, b, p);
    assert x * p == (a * q) * p + b * p;
    MulAssociates(a, q, p);
    assert (a * q) * p == a * m;
    MulMonotone(b, q - 1, p);
    Distribute(q, 1, p);
    MulMonotone(0, b, p);
    DivModUnique(x * p, m, a, b * p);
  }

  /** A word shifted left loses its top bits and nothing else. */
  lemma ShiftSplits(x: u64, k: nat)
    requires 0 < k < 64
    ensures Pow2(k) * Pow2(64 - k) == B
    ensures x / Pow2(64 - k) < Pow2(k)
    ensures x * Pow2(k) == (x / Pow2(64 - k)) * B + (x % Pow2(64 - k)) * Pow2(k)
    ensures Shl64(x, k) == (x % Pow2(64 - k)) * Pow2(k)
  {
    Pow2Values();
    Pow2Add(k, 64 - k);
    SplitProduct(x, Pow2(k), Pow2(64 - k), B);
  }

  lemma ShlLimbs(hi: int, lo: int, p: int, q: int)
    requires p > 0 && q > 0 && p * q == B && 0 <= hi < B && 0 <= lo < B
    ensures ((hi * B + lo) * p) % M == ((hi % q) * p + lo / q) * B + (lo % q) * p
  {
    SplitProduct(hi, p, q, B);
    SplitProduct(lo, p, q, B);
    var a, low, c, high := lo / q, (lo % q) * p, hi / q, (hi % q) * p;
    Distribute(hi * B, lo, p);
    MulAssociates(hi, B, p);
    DivModUnique((hi * B + lo) * p, M, c, (high + a) * B + low);
  }

  lemma ShlCorrect(x: U128, k: nat)
    ensures Val(Shl(x, k)) == (Val(x) * Pow2(k)) % M
  {
    if k == 0 {
    } else if k < 64 {
      ShlSmall(x, k);
    } else {
      ShlLarge(x, k);
    }
  }

  lemma ShlSmallLimbs(x: U128, k: nat)
    requires 0 < k < 64
    ensures Shl(x, k).hi == (x.hi % Pow2(64 - k)) * Pow2(k) + x.lo / Pow2(64 - k)
    ensures Shl(x, k).lo == (x.lo % Pow2(64 - k)) * Pow2(k)
  {
    ShiftSplits(x.hi, k);
    ShiftSplits(x.lo, k);
    OrDisjoint(x.hi % Pow2(64 - k), k, x.lo / Pow2(64 - k));
  }

  lemma ShlSmall(x: U128, k: nat)
    requires 0 < k < 64
    ensures Val(Shl(x, k)) == (Val(x) * Pow2(k)) % M
  {
    ShlSmallLimbs(x, k);
    var p, q := Pow2(k), Pow2(64 - k);
    assert p * q == B by {
      Pow2Values();
      Pow2Add(k, 64 - k);
    }
    ShlLimbs(x.hi, x.lo, p, q);
  }

  lemma ShlLarge(x: U128, k: nat)
    requires 64 <= k
    ensures Val(Shl(x, k)) == (Val(x) * Pow2(k)) % M
  {
    var p := Pow2(k - 64);
    Pow2Values();
    Pow2Add(k - 64, 64);
    var a, b := (x.lo * p) / B, (x.lo * p) % B;
    assert x.lo * p == a * B + b;
    BigShift(x.hi, x.lo, p, a, b);
    DivModUnique(Val(x) * Pow2(k), M, x.hi * p + a, b * B);
  }

  lemma BigShift(hi: int, lo: int, p: int, a: int, b: int)
    requires lo * p == a * B + b
    ensures (hi * B + lo) * (p * B) == (hi * p + a) * M + b * B
  {
    Distribute(hi * B, lo, p);
    MulAssociates(hi, B, p);
    assert (hi * B + lo) * p == (hi * p + a) * B + b;
    MulAssociates(hi * B + lo, p, B);
  }

  lemma ShrCorrect(x: U128, k: nat)
    requires k < 128
    ensures Val(Shr(x, k)) == Val(x) / Pow2(k)
  {
    if k == 0 {
    } else if k < 64 {
      ShrSmall(x, k);
    } else {
      ShrLarge(x, k);
    }
  }

  lemma ShrSmallLimbs(x: U128, k: nat)
    requires 0 < k < 64
    ensures Shr(x, k).hi == x.hi / Pow2(k)
    ensures Shr(x, k).lo == (x.hi % Pow2(k)) * Pow2(64 - k) + x.lo / Pow2(k)
  {
    ShiftSplits(x.hi, 64 - k);
    ShiftSplits(x.lo, 64 - k);
    var a, d := x.lo / Pow2(k), x.hi % Pow2(k);
    OrDisjoint(d, 64 - k, a);
    OrCommutes(a, d * Pow2(64 - k));
  }

  lemma ShrSmall(x: U128, k: nat)
    requires 0 < k < 64
    ensures Val(Shr(x, k)) == Val(x) / Pow2(k)
  {
    ShrSmallLimbs(x, k);
    var p, q := Pow2(k), Pow2(64 - k);
    assert q * p == B by {
      Pow2Values();
      Pow2Add(64 - k, k);
    }
    ShrLimbs(x.hi, x.lo, p, q);
  }

  lemma ShrLimbs(hi: int, lo: int, p: int, q: int)
    requires p > 0 && q > 0 && q * p == B
    ensures (hi * B + lo) / p == (hi / p) * B + ((hi % p) * q + lo / p)
  {
    var a, b, c, d := lo / p, lo % p, hi / p, hi % p;
    assert lo == a * p + b && hi == c * p + d;
    Regrouped(hi, lo, a, b, c, d, p, q);
    DivModUnique(hi * B + lo, p, c * B + (d * q + a), b);
  }

  lemma Regrouped(hi: int, lo: int, a: int, b: int, c: int, d: int, p: int, q: int)
    requires lo == a * p + b && hi == c * p + d && q * p == B
    ensures hi * B + lo == (c * B + (d * q + a)) * p + b
  {
    Distribute(c * B, d * q + a, p);
    Distribute(d * q, a, p);
    MulAssociates(d, q, p);
    MulAssociates(c, B, p);
  }

  lemma ShrLarge(x: U128, k: nat)
    requires 64 <= k < 128
    ensures Val(Shr(x, k)) == Val(x) / Pow2(k)
  {
    Pow2Values();
    Pow2Add(k - 64, 64);
    ShrHighLimb(x.hi, x.lo, Pow2(k - 64));
  }

  lemma ShrHighLimb(hi: int, lo: int, p: int)
    requires p > 0 && 0 <= lo < B
    ensures (hi * B + lo) / (p * B) == hi / p
  {
    var a, b := hi / p, hi % p;
    assert hi == a * p + b;
    MulAssociates(a, p, B);
    Distribute(a * p, b, B);
    MulMonotone(b + 1, p, B);
    DivModUnique(hi * B + lo, p * B, a, b * B + lo);
  }

  // ----- multiplication

  function Times64(x: u64, y: u64): u64 {
    (x * y) % B
  }

  const W := 0x1_0000_0000

  /** The high product of the low limbs and the two wrapped cross products, above the low product. */
  function ProductStart(l: U128, r: U128): U128 {
    var a32, a00, b32, b00 := l.lo / W, l.lo % W, r.lo / W, r.lo % W;
    SmallProducts(a32, a00, b32, b00);
    U128(Plus64(Plus64(Times64(l.hi, r.lo), Times64(l.lo, r.hi)), a32 * b32), a00 * b00)
  }

  /** One of the two middle partial products. */
  function Middle(x: u64, y: u64): u64 {
    SmallProducts(x / W, x % W, y / W, y % W);
    (x / W) * (y % W)
  }

  /** The product from four 32-bit partial products of the low limbs and two wrapped cross products. */
  function Mul(l: U128, r: U128): U128 {
    var result := ProductStart(l, r);
    var result := Add(result, Shl(U128(0, Middle(l.lo, r.lo)), 32));
    Add(result, Shl(U128(0, Middle(r.lo, l.lo)), 32))
  }

  lemma SmallProducts(a: int, b: int, c: int, d: int)
    requires 0 <= a < W && 0 <= b < W && 0 <= c < W && 0 <= d < W
    ensures 0 <= a * c < B && 0 <= b * d < B && 0 <= a * d < B && 0 <= b * c < B
  {
    ProductBound(a, c);
    ProductBound(b, d);
    ProductBound(a, d);
    ProductBound(b, c);
  }

  lemma ProductBound(x: int, y: int)
    requires 0 <= x < W && 0 <= y < W
    ensures 0 <= x * y < B
  {
    MulMonotone(x, W - 1, y);
    MulMonotone(0, x, y);
  }

  lemma AddModulo(l: U128, r: U128)
    ensures Val(Add(l, r)) == (Val(l) + Val(r)) % M
  {
    DivModUnique(Val(l) + Val(r), M, if Val(l) + Val(r) < M then 0 else 1, Val(Add(l, r)));
  }

  lemma HighLimb(u: int, v: int, w: u64)
    requires u >= 0 && v >= 0
    ensures Plus64(Plus64(Wrap(u), Wrap(v)), w) == (u + v + w) % B
  {
    ModAddLeft(u, Wrap(v), B);
    ModAddLeft(v, u, B);
    ModAddLeft(u + v, w, B);
  }

  lemma Schoolbook(lh: int, a32: int, a00: int, rh: int, b32: int, b00: int)
    ensures (lh * B + (a32 * W + a00)) * (rh * B + (b32 * W + b00)) ==
      (lh * rh) * M
      + (lh * (b32 * W + b00) + (a32 * W + a00) * rh + a32 * b32) * B
      + a32 * b00 * W + a00 * b32 * W + a00 * b00
  {
  }

  /** What the three additions of the product amount to. */
  lemma SumOfPartials(h: int, low: int, x: int, y: int)
    requires h >= 0 && 0 <= low < B && 0 <= x < B && 0 <= y < B
    ensures ((((h % B) * B + low + x * W) % M) + y * W) % M == (h * B + x * W + y * W + low) % M
  {
    var k := h / B;
    assert h == k * B + h % B;
    var start := (h % B) * B + low;
    ModAddLeft(start + x * W, y * W, M);
    ModShift(start + x * W + y * W, k, M);
    assert h * B == k * M + (h % B) * B;
  }

  lemma ProductNonnegative(x: int, y: int)
    requires x >= 0 && y >= 0
    ensures x * y >= 0
  {
  }

  /** The value of the sum that the product is built from. */
  lemma MulValue(start: U128, s1: U128, s2: U128, h: int, low: u64, x: u64, y: u64)
    requires h >= 0 && start.hi == h % B && start.lo == low
    requires Val(s1) == x * W && Val(s2) == y * W
    ensures Val(Add(Add(start, s1), s2)) == (h * B + x * W + y * W + low) % M
  {
    AddModulo(start, s1);
    AddModulo(Add(start, s1), s2);
    SumOfPartials(h, low, x, y);
  }

  lemma StartLimbs(l: U128, r: U128, a32: u64, a00: u64, b32: u64, b00: u64, u: int, v: int)
    requires a32 == l.lo / W && a00 == l.lo % W && b32 == r.lo / W && b00 == r.lo % W
    requires u == l.hi * r.lo && v == l.lo * r.hi && u >= 0 && v >= 0
    ensures ProductStart(l, r).hi == (u + v + a32 * b32) % B && ProductStart(l, r).lo == a00 * b00
    ensures u + v + a32 * b32 >= 0
  {
    SmallProducts(a32, a00, b32, b00);
    HighLimb(u, v, a32 * b32);
  }

  /** The product in terms of the halves a32, a00, b32, b00 of the low limbs. */
  lemma MulFromHalves(l: U128, r: U128, a32: u64, a00: u64, b32: u64, b00: u64, u: int, v: int)
    requires a32 == l.lo / W && a00 == l.lo % W && b32 == r.lo / W && b00 == r.lo % W
    requires u == l.hi * r.lo && v == l.lo * r.hi && u >= 0 && v >= 0
    ensures Val(Mul(l, r)) ==
      ((u + v + a32 * b32) * B + (a32 * b00) * W + (a00 * b32) * W + a00 * b00) % M
  {
    StartLimbs(l, r, a32, a00, b32, b00, u, v);
    var x, y := Middle(l.lo, r.lo), Middle(r.lo, l.lo);
    MulValueShifted(ProductStart(l, r), u + v + a32 * b32, ProductStart(l, r).lo, x, y);
    assert x == a32 * b00 && y == b32 * a00;
  }

  lemma MulValueShifted(start: U128, h: int, low: u64, x: u64, y: u64)
    requires h >= 0 && start.hi == h % B && start.lo == low
    ensures Val(Add(Add(start, Shl(U128(0, x), 32)), Shl(U128(0, y), 32))) == (h * B + x * W + y * W + low) % M
  {
    PartialShift(x);
    PartialShift(y);
    MulValue(start, Shl(U128(0, x), 32), Shl(U128(0, y), 32), h, low, x, y);
  }

  lemma Expanded(lh: int, a32: int, a00: int, rh: int, b32: int, b00: int, u: int, v: int)
    requires u == lh * (b32 * W + b00) && v == (a32 * W + a00) * rh
    ensures ((u + v + a32 * b32) * B + (a32 * b00) * W + (a00 * b32) * W + a00 * b00) % M ==
      ((lh * B + (a32 * W + a00)) * (rh * B + (b32 * W + b00))) % M
  {
    var sum := (u + v + a32 * b32) * B + (a32 * b00) * W + (a00 * b32) * W + a00 * b00;
    Schoolbook(lh, a32, a00, rh, b32, b00);
    ModShift(sum, lh * rh, M);
  }

  /** The product is exact modulo 2^128, for all operands. */
  lemma MulCorrect(l: U128, r: U128)
    ensures Val(Mul(l, r)) == (Val(l) * Val(r)) % M
  {
    var a32, a00, b32, b00 := l.lo / W, l.lo % W, r.lo / W, r.lo % W;
    var u, v := l.hi * r.lo, l.lo * r.hi;
    ProductNonnegative(l.hi, r.lo);
    ProductNonnegative(l.lo, r.hi);
    MulFromHalves(l, r, a32, a00, b32, b00, u, v);
    assert l.lo == a32 * W + a00 && r.lo == b32 * W + b00;
    assert Val(l) == l.hi * B + (a32 * W + a00) && Val(r) == r.hi * B + (b32 * W + b00);
    Expanded(l.hi, a32, a00, r.hi, b32, b00, u, v);
  }

  lemma PartialShift(x: u64)
    ensures Val(Shl(U128(0, x), 32)) == x * W
  {
    Pow2Values();
    ShlCorrect(U128(0, x), 32);
    DivModUnique(x * W, M, 0, x * W);
  }

  // ----- division

  /** The index of the most significant set bit; -1 for zero. */
  function Msb(x: nat): (r: int)
    ensures r >= -1
    ensures x > 0 ==> r >= 0 && Pow2(r) <= x < 2 * Pow2(r)
  {
    if x == 0 then -1 else Msb(x / 2) + 1
  }

  function Msb128(x: U128): int {
    if x.hi != 0 then 64 + Msb(x.hi) else Msb(x.lo)
  }

  lemma {:induction false} MsbUnique(x: nat, k: nat)
    requires Pow2(k) <= x < 2 * Pow2(k)
    ensures Msb(x) == k
  {
    if k > 0 {
      MsbUnique(x / 2, k - 1);
    } else {
      assert x == 1;
    }
  }

  lemma Msb128IsMsb(x: U128)
    ensures Msb128(x) == Msb(Val(x))
    ensures Msb128(x) <= 127
  {
    Pow2Values();
    if x.hi != 0 {
      var k := Msb(x.hi);
      Pow2Add(k, 64);
      MsbUnique(Val(x), k + 64);
    }
    if Val(x) > 0 {
      MsbBelow128(Val(x));
    }
  }

  /** The loop used for constant evaluation: unlike the instruction it answers 0 for 0. */
  method MsbLoop(x: u64) returns (r: nat)
    ensures r == if x == 0 then 0 else Msb(x)
  {
    r := 0;
    var y := x / 2;
    while y != 0
      invariant 0 <= y
      invariant if x == 0 then y == 0 && r == 0 else Msb(x) == r + 1 + Msb(y)
    {
      r := r + 1;
      y := y / 2;
    }
  }

  /** The bit index of a 128-bit number, at run time or in constant evaluation, which differ at zero. */
  function MsbAt(x: U128, constant: bool): int {
    if x.hi != 0 then 64 + Msb(x.hi) else if constant && x.lo == 0 then 0 else Msb(x.lo)
  }

  function Or128(x: U128, y: U128): U128 {
    U128(Or64(x.hi, y.hi), Or64(x.lo, y.lo))
  }

  lemma SetLowestBit(x: U128)
    requires Val(x) % 2 == 0
    ensures Val(Or128(x, U128(0, 1))) == Val(x) + 1
  {
    OrWithZero(x.hi);
    assert x.lo % 2 == 0;
    assert Pow2(1) == 2;
    OrDisjoint(x.lo / 2, 1, 1);
  }

  lemma DoubleIsEven(x: int)
    ensures (2 * x) % M % 2 == 0
  {
    assert M == 2 * (M / 2);
    var k := 2 * x / M;
    assert (2 * x) % M == 2 * x - k * M == 2 * (x - k * (M / 2));
  }

  lemma ShlOne(x: U128)
    ensures Val(Shl(x, 1)) == (2 * Val(x)) % M
    ensures Val(Shl(x, 1)) % 2 == 0
  {
    var v := Val(x);
    assert Pow2(1) == 2;
    assert v * Pow2(1) == 2 * v;
    ShlCorrect(x, 1);
    DoubleIsEven(v);
  }

  lemma ShrOne(x: U128)
    ensures Val(Shr(x, 1)) == Val(x) / 2
  {
    assert Pow2(1) == 2;
    ShrCorrect(x, 1);
  }

  /** One round of shift-subtract division. */
  method DivideRound(quotient: U128, dividend: U128, denominator: U128) returns (q: U128, r: U128, d: U128)
    ensures Val(q) == (2 * Val(quotient)) % M + (if Val(dividend) >= Val(denominator) then 1 else 0)
    ensures Val(r) == if Val(dividend) >= Val(denominator) then Val(dividend) - Val(denominator) else Val(dividend)
    ensures Val(d) == Val(denominator) / 2
  {
    q := Shl(quotient, 1);
    ShlOne(quotient);
    r := dividend;
    if !Less(dividend, denominator) {
      r := Sub(dividend, denominator);
      SetLowestBit(q);
      q := Or128(q, U128(0, 1));
    }
    d := Shr(denominator, 1);
    ShrOne(denominator);
  }

  lemma {:induction false} MsbMonotone(v: nat, n: nat)
    requires 0 < v <= n
    ensures Msb(v) <= Msb(n)
  {
    if v >= 2 {
      MsbMonotone(v / 2, n / 2);
    }
  }

  lemma MsbBelow128(n: nat)
    requires 0 < n < M
    ensures Msb(n) <= 127 && 2 * Pow2(Msb(n)) <= M
  {
    Pow2Values();
    assert Pow2(128) == 2 * Pow2(127);
    MsbUnique(M - 1, 127);
    MsbMonotone(n, M - 1);
    Pow2Monotone(Msb(n) + 1, 128);
  }

  lemma AlignedProducts(n: int, v: int, p: int, pv: int, pn: int)
    requires p > 0 && pv > 0 && pn == p * pv
    requires pv <= v < 2 * pv && pn <= n < 2 * pn <= M
    ensures v * p < M && n < v * (2 * p)
  {
    MulMonotone(v + 1, 2 * pv, p);
    Distribute(v, 1, p);
    MulAssociates(2, pv, p);
    MulMonotone(pv, v, 2 * p);
    MulAssociates(2, p, pv);
  }

  /** Aligning the top bits: the shifted divisor fits, and twice it exceeds the dividend. */
  lemma Aligned(n: nat, v: nat)
    requires 0 < v < n < M
    ensures var shift := Msb(n) - Msb(v);
      0 <= shift <= 127 && v * Pow2(shift) < M && n < v * (2 * Pow2(shift))
  {
    MsbMonotone(v, n);
    MsbBelow128(n);
    Pow2Add(Msb(n) - Msb(v), Msb(v));
    AlignedProducts(n, v, Pow2(Msb(n) - Msb(v)), Pow2(Msb(v)), Pow2(Msb(n)));
  }

  /** v shifted left k times, without a bound. */
  ghost function Scaled(v: nat, k: nat): nat {
    if k == 0 then v else 2 * Scaled(v, k - 1)
  }

  lemma {:induction false} ScaledIsProduct(v: nat, k: nat)
    ensures Scaled(v, k) == v * Pow2(k)
    ensures Scaled(v, k) >= v
  {
    if k > 0 {
      ScaledIsProduct(v, k - 1);
      MulAssociates(v, 2, Pow2(k - 1));
    }
  }

  /** Before a round with `left` rounds to go: the denominator is the divisor shifted by left - 1. */
  ghost predicate Dividing(n: int, v: nat, q: int, r: int, d: int, left: nat) {
    && 0 <= q && 0 <= r < Scaled(v, left)
    && n == q * Scaled(v, left) + r
    && (left > 0 ==> d == Scaled(v, left - 1))
  }

  /** Halving t doubles the quotient, and takes t / 2 off the rest when it is there. */
  lemma RoundKeepsDivision(n: int, t: int, q: int, r: int)
    requires t > 0 && q >= 0 && n == q * (2 * t) + r && 0 <= r < 2 * t
    ensures n == (2 * q) * t + r
    ensures n == (2 * q + 1) * t + (r - t)
  {
    MulAssociates(q, 2, t);
    Distribute(2 * q, 1, t);
  }

  lemma DividingRound(n: int, v: nat, q: int, r: int, d: int, left: nat, q': int, r': int, d': int)
    requires v > 0 && left > 0 && Dividing(n, v, q, r, d, left)
    requires q' == 2 * q + (if r >= d then 1 else 0) && r' == (if r >= d then r - d else r) && d' == d / 2
    ensures Dividing(n, v, q', r', d', left - 1)
  {
    ScaledIsProduct(v, left - 1);
    RoundKeepsDivision(n, Scaled(v, left - 1), q, r);
  }

  /** The quotient so far stays below 2^128, so that doubling it loses nothing. */
  lemma QuotientFits(n: int, q: int, r: int, t: int)
    requires t >= 2 && 0 <= q && 0 <= r && n < M && n == q * t + r
    ensures 2 * q < M
  {
    MulMonotone(2, t, q);
  }

  /**
   * Division after the guard on the divisor: equal and smaller dividends first, then one
   * shift-subtract round for every bit. The second half of the contract is what comes out when
   * the divisor is zero all the same; in constant evaluation that is another quotient.
   */
  method DivideUnguarded(dividend: U128, divisor: U128, constant: bool) returns (quotient: U128, remainder: U128)
    ensures Val(divisor) > 0 ==>
      Val(dividend) == Val(quotient) * Val(divisor) + Val(remainder) && Val(remainder) < Val(divisor)
    ensures Val(divisor) == 0 && Val(dividend) == 0 ==> Val(quotient) == 1 && Val(remainder) == 0
    ensures Val(divisor) == 0 && Val(dividend) > 0 ==>
      Val(remainder) == Val(dividend) && Val(quotient) == LowOnes(Msb(Val(dividend)) + if constant then 1 else 2)
  {
    hide Val, Msb, Msb128, MsbAt, Less, LowOnes, Division;
    EarlyDivision(dividend, divisor);
    if Less(dividend, divisor) {
      return U128(0, 0), dividend;
    }
    if dividend == divisor {
      return U128(0, 1), U128(0, 0);
    }
    TopBits(dividend, divisor);
    MsbAtIsMsb(dividend, constant);
    MsbAtIsMsb(divisor, constant);
    var shift: nat := MsbAt(dividend, constant) - MsbAt(divisor, constant);
    var denominator := AlignTopBits(divisor, shift);
    if Val(divisor) > 0 {
      StartsDividing(Val(dividend), Val(divisor), shift, Val(denominator));
    } else {
      StartsWithZero(Val(dividend), shift, Val(denominator));
    }
    quotient, remainder := DivideRounds(dividend, denominator, shift, Val(divisor));
  }

  lemma MsbAtIsMsb(x: U128, constant: bool)
    ensures Val(x) > 0 ==> MsbAt(x, constant) == Msb(Val(x)) >= 0
    ensures Val(x) == 0 ==> MsbAt(x, constant) == if constant then 0 else -1
  {
    Msb128IsMsb(x);
  }

  lemma StartsWithZero(n: nat, shift: nat, d: nat)
    requires d == (0 * Pow2(shift)) % M
    ensures Division(n, 0, shift, 0, 0, n, d)
  {
    StartsDividingByZero(n, 0 * Pow2(shift), d);
  }

  /** The two cases that need no rounds. */
  lemma EarlyDivision(dividend: U128, divisor: U128)
    ensures Less(dividend, divisor) ==>
      Val(dividend) < Val(divisor) && Val(dividend) == Val(U128(0, 0)) * Val(divisor) + Val(dividend)
    ensures dividend == divisor ==>
      Val(U128(0, 1)) == 1 && Val(U128(0, 0)) == 0 && Val(dividend) == Val(U128(0, 1)) * Val(divisor) + Val(U128(0, 0))
    ensures !Less(dividend, divisor) && dividend != divisor ==> Val(divisor) < Val(dividend)
  {
    if Val(dividend) == Val(divisor) {
      ValInjective(dividend, divisor);
    }
  }

  /** The loop over all bits, from the aligned position down. */
  method DivideRounds(dividend: U128, aligned: U128, shift: nat, ghost v: nat) returns (quotient: U128, remainder: U128)
    requires Division(Val(dividend), v, shift, 0, 0, Val(dividend), Val(aligned))
    ensures v > 0 ==> Val(dividend) == Val(quotient) * v + Val(remainder) && Val(remainder) < v
    ensures v == 0 ==> remainder == dividend && Val(quotient) == LowOnes(shift + 1)
  {
    ghost var n := Val(dividend);
    quotient, remainder := U128(0, 0), dividend;
    var denominator := aligned;
    var i := 0;
    while i <= shift
      invariant 0 <= i <= shift + 1
      invariant Division(n, v, shift, i, Val(quotient), Val(remainder), Val(denominator))
    {
      ghost var q, r, d := Val(quotient), Val(remainder), Val(denominator);
      quotient, remainder, denominator := DivideRound(quotient, remainder, denominator);
      DivisionRound(n, v, shift, i, q, r, d, Val(quotient), Val(remainder), Val(denominator));
      i := i + 1;
    }
    DivisionEnds(n, v, shift, Val(quotient), Val(remainder), Val(denominator));
    if v == 0 {
      ValInjective(remainder, dividend);
    }
  }

  lemma ValInjective(x: U128, y: U128)
    requires Val(x) == Val(y)
    ensures x == y
  {
  }

  method AlignTopBits(divisor: U128, shift: nat) returns (d: U128)
    ensures Val(d) == (Val(divisor) * Pow2(shift)) % M
  {
    d := Shl(divisor, shift);
    ShlCorrect(divisor, shift);
  }

  lemma TopBits(dividend: U128, divisor: U128)
    requires Val(divisor) < Val(dividend)
    ensures Msb128(dividend) == Msb(Val(dividend)) >= 0
    ensures Msb128(divisor) == Msb(Val(divisor)) <= Msb128(dividend)
  {
    Msb128IsMsb(dividend);
    Msb128IsMsb(divisor);
    if Val(divisor) > 0 {
      MsbMonotone(Val(divisor), Val(dividend));
    }
  }

  /** The number whose lowest i bits are set, modulo 2^128. */
  ghost function LowOnes(i: nat): int {
    (Pow2(i) - 1) % M
  }

  ghost predicate DividingByZero(n: int, q: int, r: int, d: int, i: nat) {
    d == 0 && r == n && q == LowOnes(i)
  }

  /** The state before round i, for a nonzero divisor and for zero. */
  ghost predicate Division(n: int, v: int, shift: nat, i: int, q: int, r: int, d: int) {
    0 <= i <= shift + 1 &&
    if v > 0 then Dividing(n, v, q, r, d, shift + 1 - i) else DividingByZero(n, q, r, d, i)
  }

  lemma StartsDividing(n: nat, v: nat, shift: nat, d: nat)
    requires v < n < M && shift == Msb(n) - Msb(v) && d == (v * Pow2(shift)) % M
    ensures Division(n, v, shift, 0, 0, n, d)
  {
    if v > 0 {
      StartsDividingBy(n, v, shift, d);
    } else {
      StartsDividingByZero(n, v * Pow2(shift), d);
    }
  }

  lemma StartsDividingBy(n: nat, v: nat, shift: nat, d: nat)
    requires 0 < v < n < M && shift == Msb(n) - Msb(v) && d == (v * Pow2(shift)) % M
    ensures Dividing(n, v, 0, n, d, shift + 1)
  {
    Aligned(n, v);
    ScaledIsProduct(v, shift);
    DivModUnique(Scaled(v, shift), M, 0, Scaled(v, shift));
    MulAssociates(v, 2, Pow2(shift));
  }

  lemma StartsDividingByZero(n: nat, product: int, d: nat)
    requires product == 0 && d == product % M
    ensures DividingByZero(n, 0, n, d, 0)
  {
    assert Pow2(0) == 1;
  }

  lemma DivisionRound(n: nat, v: nat, shift: nat, i: nat, q: nat, r: nat, d: nat, q': nat, r': nat, d': nat)
    requires n < M && i <= shift && Division(n, v, shift, i, q, r, d)
    requires q' == (2 * q) % M + (if r >= d then 1 else 0) && r' == (if r >= d then r - d else r) && d' == d / 2
    ensures Division(n, v, shift, i + 1, q', r', d')
  {
    if v > 0 {
      ScaledIsProduct(v, shift - i);
      QuotientFits(n, q, r, Scaled(v, shift + 1 - i));
      DivModUnique(2 * q, M, 0, 2 * q);
      DividingRound(n, v, q, r, d, shift + 1 - i, q', r', d');
    } else {
      AllOnes(i);
    }
  }

  lemma DivisionEnds(n: nat, v: nat, shift: nat, q: nat, r: nat, d: nat)
    requires Division(n, v, shift, shift + 1, q, r, d)
    ensures v > 0 ==> n == q * v + r && r < v
    ensures v == 0 ==> r == n && q == LowOnes(shift + 1)
  {
  }

  lemma AllOnes(i: nat)
    ensures (2 * LowOnes(i)) % M + 1 == LowOnes(i + 1)
  {
    var x := Pow2(i) - 1;
    var k := x / M;
    ModShift(2 * (x % M), 2 * k, M);
    assert 2 * x == 2 * (x % M) + (2 * k) * M;
    DoubleIsEven(x % M);
    var y := (2 * (x % M)) % M;
    assert y + 1 < M;
    ModAddLeft(2 * x, 1, M);
    DivModUnique(y + 1, M, 0, y + 1);
  }

  /**
   * The function as it is written. Its guard assigns zero to the divisor instead of comparing,
   * and the assigned value is false, so every call divides by zero. No nonzero divisor gets a
   * correct pair; the remainder alone is right exactly for dividends below the divisor. The
   * quotient alone is right at run time exactly for 2^128 - 1 divided by 1, and in constant
   * evaluation exactly for dividends of all ones divided by 1.
   */
  method DivModAsWritten(dividend: U128, divisor: U128, constant: bool) returns (quotient: U128, remainder: U128)
    ensures Val(remainder) == Val(dividend)
    ensures Val(quotient) ==
      if Val(dividend) == 0 then 1 else LowOnes(Msb(Val(dividend)) + if constant then 1 else 2)
    ensures Val(divisor) > 0 ==>
      !(Val(dividend) == Val(quotient) * Val(divisor) + Val(remainder) && Val(remainder) < Val(divisor))
    ensures Val(divisor) > 0 ==>
      (Val(remainder) == Val(dividend) % Val(divisor) <==> Val(dividend) < Val(divisor))
    ensures Val(divisor) > 0 ==>
      (Val(quotient) == Val(dividend) / Val(divisor) <==>
        Val(divisor) == 1 && if constant then IsAllOnes(Val(dividend)) else Val(dividend) == M - 1)
  {
    assert Val(U128(0, 0)) == 0;
    hide Val, Msb, LowOnes, IsAllOnes;
    quotient, remainder := DivideUnguarded(dividend, U128(0, 0), constant);
    if Val(divisor) > 0 {
      QuotientByZero(Val(dividend), Val(quotient), constant);
      WrongPair(Val(dividend), Val(divisor), Val(quotient), Val(remainder), constant);
    }
  }

  /** All bits up to the most significant one are set. */
  ghost predicate IsAllOnes(n: nat) {
    n > 0 && n + 1 == Pow2(Msb(n) + 1)
  }

  /** The function with the comparison its guard means: a zero divisor leaves the results alone. */
  method DivMod(dividend: U128, divisor: U128) returns (quotient: U128, remainder: U128)
    ensures Val(divisor) > 0 ==>
      Val(dividend) == Val(quotient) * Val(divisor) + Val(remainder) && Val(remainder) < Val(divisor)
    ensures Val(divisor) == 0 ==> quotient == U128(0, 0) && remainder == U128(0, 0)
  {
    quotient, remainder := U128(0, 0), U128(0, 0);
    if divisor == U128(0, 0) {
      return;
    }
    // the bit index of zero is not asked for
    quotient, remainder := DivideUnguarded(dividend, divisor, false);
  }

  lemma LowOnesOf(x: int)
    ensures 1 <= x <= M ==> (x - 1) % M == x - 1
    ensures x == 2 * M ==> (x - 1) % M == M - 1
  {
  }

  /** Dividing by zero gives a quotient of all ones, longer than the dividend. */
  lemma AllOnesQuotient(n: nat, q: nat)
    requires 0 < n < M && q == LowOnes(Msb(n) + 2)
    ensures q >= n && (q == n <==> n == M - 1)
  {
    MsbBelow128(n);
    var k := Msb(n);
    var x := Pow2(k + 2);
    assert x == 2 * Pow2(k + 1) && n < Pow2(k + 1);
    LowOnesOf(x);
    Pow2Values();
    if k <= 126 {
      Pow2Monotone(k + 2, 128);
    } else {
      assert k == 127;
    }
  }

  /** In constant evaluation the quotient of all ones is as long as the dividend. */
  lemma AllOnesAsLong(n: nat, q: nat)
    requires 0 < n < M && q == LowOnes(Msb(n) + 1)
    ensures q >= n && (q == n <==> IsAllOnes(n))
  {
    LengthOf(n);
    hide Pow2, Msb;
    LowOnesOf(Pow2(Msb(n) + 1));
  }

  lemma LengthOf(n: nat)
    requires 0 < n < M
    ensures n < Pow2(Msb(n) + 1) <= M
  {
    MsbBelow128(n);
    Pow2Values();
    hide Msb, Pow2;
    Pow2Monotone(Msb(n) + 1, 128);
  }

  lemma QuotientByZero(n: nat, q: nat, constant: bool)
    requires n < M && q == if n == 0 then 1 else LowOnes(Msb(n) + if constant then 1 else 2)
    ensures n > 0 ==> q >= n && (q == n <==> if constant then IsAllOnes(n) else n == M - 1)
  {
    if n > 0 {
      if constant {
        AllOnesAsLong(n, q);
      } else {
        AllOnesQuotient(n, q);
      }
    }
  }

  lemma WrongPair(n: nat, v: nat, q: nat, r: nat, constant: bool)
    requires 0 < v && n < M
    requires if n == 0 then q == 1 && r == 0
             else r == n && q >= n && (q == n <==> if constant then IsAllOnes(n) else n == M - 1)
    ensures !(n == q * v + r && r < v)
    ensures r == n % v <==> n < v
    ensures q == n / v <==> v == 1 && if constant then IsAllOnes(n) else n == M - 1
  {
    if n > 0 {
      ProductAtLeast(q, v);
      SmallIsOwnRemainder(n, v);
      QuotientAtMost(n, v);
      if v > 1 {
        StrictlySmaller(n, v);
      }
    }
  }

  lemma ProductAtLeast(q: nat, v: nat)
    requires v > 0
    ensures q * v >= q
  {
    MulMonotone(1, v, q);
  }

  lemma SmallIsOwnRemainder(n: nat, v: nat)
    requires v > 0
    ensures n == n % v <==> n < v
  {
    if n < v {
      DivModUnique(n, v, 0, n);
    }
  }

  lemma StrictlySmaller(n: int, v: int)
    requires n > 0 && v > 1
    ensures n / v < n
  {
    var a, b := n / v, n % v;
    assert n == a * v + b;
    MulMonotone(2, v, a);
  }

  // ----- negation and signed arithmetic

  function Not64(x: u64): u64 {
    B - 1 - x
  }

  /** Unary minus on u128 as it is written: the complement, without the one that has to be added. */
  function NegAsWritten(x: U128): U128 {
    var hi, lo := Not64(x.hi), Not64(x.lo);
    U128(if lo == 0 then Plus64(hi, 1) else hi, lo)
  }

  /** It is wrong for every operand. */
  lemma NegAsWrittenNeverNegates(x: U128)
    ensures (Val(NegAsWritten(x)) + Val(x)) % M != 0
  {
    var lo := Not64(x.lo);
    if lo == 0 {
      assert x.lo == B - 1;
      assert Val(NegAsWritten(x)) + Val(x) == M - 1 + B || Val(NegAsWritten(x)) + Val(x) == B - 1;
      DivModUnique(M - 1 + B, M, 1, B - 1);
    } else {
      assert Val(NegAsWritten(x)) + Val(x) == M - 1;
    }
  }

  /** Two's complement, with the one added before the carry is looked at. */
  function Neg(x: U128): (r: U128)
    ensures Val(r) == if Val(x) == 0 then 0 else M - Val(x)
  {
    var hi, lo := Not64(x.hi), Plus64(Not64(x.lo), 1);
    U128(if lo == 0 then Plus64(hi, 1) else hi, lo)
  }

  /** Unary minus on s128 is written that way; the least number is its own negation. */
  function SNeg(x: S128): (r: S128)
    ensures SVal(r) == if SVal(x) == -(M / 2) then SVal(x) else -SVal(x)
  {
    var hi, lo := -1 - x.hi, Plus64(Not64(x.lo), 1);
    S128(if lo == 0 then Signed(Wrap(hi + 1)) else hi, lo)
  }

  /** The signed product is exact modulo 2^128. */
  function SMul(l: S128, r: S128): S128 {
    ToSigned(Mul(Unsigned(l), Unsigned(r)))
  }

  lemma SMulCorrect(l: S128, r: S128)
    ensures exists k: int :: SVal(SMul(l, r)) == SVal(l) * SVal(r) + k * M
    ensures -(M / 2) <= SVal(l) * SVal(r) < M / 2 ==> SVal(SMul(l, r)) == SVal(l) * SVal(r)
  {
    MulCorrect(Unsigned(l), Unsigned(r));
    var product := Mul(Unsigned(l), Unsigned(r));
    var a, b := if SVal(l) < 0 then 1 else 0, if SVal(r) < 0 then 1 else 0;
    var c := ProductOffset(SVal(l), SVal(r), a, b, Val(product));
    OffsetFits(SVal(l) * SVal(r), c, Val(product), SVal(ToSigned(product)));
  }

  /** The unsigned product differs from the signed one by a multiple of 2^128. */
  lemma ProductOffset(x: int, y: int, a: int, b: int, p: int) returns (c: int)
    requires p == ((x + a * M) * (y + b * M)) % M
    ensures p == x * y + c * M
  {
    SignedProduct(x, y, a, b);
    c := x * b + a * y + a * b * M - (x + a * M) * (y + b * M) / M;
  }

  lemma OffsetFits(xy: int, c: int, p: int, s: int)
    requires p == xy + c * M && s == if p >= M / 2 then p - M else p
    requires -(M / 2) <= s < M / 2
    ensures exists k: int :: s == xy + k * M
    ensures -(M / 2) <= xy < M / 2 ==> s == xy
  {
    var k := c - if p >= M / 2 then 1 else 0;
    assert s == xy + k * M;
  }

  lemma SignedProduct(x: int, y: int, a: int, b: int)
    ensures (x + a * M) * (y + b * M) == x * y + (x * b + a * y + a * b * M) * M
  {
  }

  function UnsignedAbsoluteValue(x: S128): (r: U128)
    ensures Val(r) == if SVal(x) < 0 then -SVal(x) else SVal(x)
  {
    if x.hi < 0 then Neg(Unsigned(x)) else Unsigned(x)
  }

  /** a == b q + r with the remainder below the divisor and on the side of the dividend. */
  ghost predicate Truncates(a: int, b: int, q: int, r: int) {
    a == b * q + r && (if b < 0 then b < r < -b else -b < r < b) && (a >= 0 ==> r >= 0) && (a <= 0 ==> r <= 0)
  }

  lemma SignsOfProduct(x: int, y: int)
    ensures x * -y == -(x * y) && -x * y == -(x * y) && -x * -y == x * y && x * y == y * x
  {
  }

  lemma SignsRestored(a: int, b: int, q: int, r: int)
    requires b != 0
    requires (if a < 0 then -a else a) == q * (if b < 0 then -b else b) + r && 0 <= r < (if b < 0 then -b else b)
    ensures Truncates(a, b, if (a < 0) != (b < 0) then -q else q, if a < 0 then -r else r)
  {
    SignsOfProduct(q, b);
    SignsOfProduct(b, q);
  }

  lemma QuotientMagnitude(n: int, q: int, v: int, r: int)
    requires 0 <= n <= M / 2 && n == q * v + r && 0 <= r < v && q >= 0
    ensures q <= M / 2 && (q == M / 2 ==> n == M / 2 && v == 1)
  {
    MulMonotone(1, v, q);
    if v > 1 {
      MulMonotone(2, v, q);
    }
  }

  /** Signed division truncates toward zero, but for the one quotient that does not fit. */
  method SDiv(l: S128, r: S128) returns (q: S128)
    requires SVal(r) != 0
    ensures !(SVal(l) == -(M / 2) && SVal(r) == -1) ==> Truncates(SVal(l), SVal(r), SVal(q), SVal(l) - SVal(r) * SVal(q))
    ensures SVal(l) == -(M / 2) && SVal(r) == -1 ==> SVal(q) == -(M / 2)
  {
    assert (l.hi < 0 <==> SVal(l) < 0) && (r.hi < 0 <==> SVal(r) < 0);
    hide SVal, Val;
    var quotient, remainder := DivMod(UnsignedAbsoluteValue(l), UnsignedAbsoluteValue(r));
    ghost var n, v := Val(UnsignedAbsoluteValue(l)), Val(UnsignedAbsoluteValue(r));
    ghost var m := Val(quotient);
    SignsRestored(SVal(l), SVal(r), m, Val(remainder));
    QuotientMagnitude(n, m, v, Val(remainder));
    if (l.hi < 0) != (r.hi < 0) {
      quotient := Neg(quotient);
    }
    q := ToSigned(quotient);
  }

  /** The remainder takes the sign of the dividend, for every nonzero divisor. */
  method SMod(l: S128, r: S128) returns (rem: S128)
    requires SVal(r) != 0
    ensures exists q: int :: Truncates(SVal(l), SVal(r), q, SVal(rem))
  {
    ghost var a, b := SVal(l), SVal(r);
    var quotient, remainder := DivMod(UnsignedAbsoluteValue(l), UnsignedAbsoluteValue(r));
    ghost var m: int, n: int := Val(quotient), Val(remainder);
    SignsRestored(a, b, m, n);
    rem := SignedRemainder(remainder, l.hi < 0);
    assert Truncates(a, b, if (a < 0) != (b < 0) then -m else m, SVal(rem));
  }

  function SignedRemainder(remainder: U128, negative: bool): (rem: S128)
    ensures Val(remainder) < M / 2 ==> SVal(rem) == (if negative then -1 else 1) * Val(remainder)
  {
    ToSigned(if negative then Neg(remainder) else remainder)
  }

  // ----- signed right shift

  /** Floor division by a power of two. */
  function SShr64(x: s64, k: nat): (r: s64)
  {
    FloorBound(x, Pow2(k));
    x / Pow2(k)
  }

  lemma FloorBound(x: s64, p: nat)
    requires p >= 1
    ensures -0x8000_0000_0000_0000 <= x / p < 0x8000_0000_0000_0000
  {
    var a, b := x / p, x % p;
    assert x == a * p + b;
    if x >= 0 {
      QuotientAtMost(x, p);
    } else {
      if a < x {
        MulMonotone(a, x - 1, p);
        MulMonotone(1, p, -(x - 1));
        assert (x - 1) * p == -(-(x - 1) * p);
      }
      if a > 0 {
        MulMonotone(1, a, p);
      }
    }
  }

  function SShr(x: S128, k: nat): S128
    requires k < 128
  {
    if k < 64 then
      if k != 0 then S128(SShr64(x.hi, k), Or64(Shr64(x.lo, k), Shl64(Wrap(x.hi), 64 - k))) else x
    else S128(0, Wrap(SShr64(x.hi, k - 64)))
  }

  lemma SShrSmallLimbs(x: S128, k: nat)
    requires 0 < k < 64
    ensures SShr(x, k).hi == x.hi / Pow2(k)
    ensures SShr(x, k).lo == (x.hi % Pow2(k)) * Pow2(64 - k) + x.lo / Pow2(k)
  {
    var p, q := Pow2(k), Pow2(64 - k);
    ShiftSplits(Wrap(x.hi), 64 - k);
    ShiftSplits(x.lo, 64 - k);
    assert Wrap(x.hi) % p == x.hi % p by {
      MulAssociates(x.hi / B, q, p);
      assert B == q * p;
      assert Wrap(x.hi) == x.hi + (-(x.hi / B) * q) * p by {
        SignsOfProduct(x.hi / B, q);
        SignsOfProduct((x.hi / B) * q, p);
      }
      ModShift(x.hi, -(x.hi / B) * q, p);
    }
    var a, d := x.lo / p, x.hi % p;
    OrDisjoint(d, 64 - k, a);
    OrCommutes(a, d * q);
  }

  lemma SShrSmall(x: S128, k: nat)
    requires 0 < k < 64
    ensures SVal(SShr(x, k)) == SVal(x) / Pow2(k)
  {
    SShrSmallLimbs(x, k);
    var p, q := Pow2(k), Pow2(64 - k);
    assert q * p == B by {
      Pow2Values();
      Pow2Add(64 - k, k);
    }
    ShrLimbs(x.hi, x.lo, p, q);
  }

  lemma SShrLarge(x: S128, k: nat)
    requires 64 <= k < 128
    ensures SVal(SShr(x, k)) == SVal(x) / Pow2(k) <==> SVal(x) >= 0
  {
    Pow2Values();
    Pow2Add(k - 64, 64);
    ShrHighLimb(x.hi, x.lo, Pow2(k - 64));
    NegativeQuotient(x.hi, Pow2(k - 64));
    WrapIsIdentity(SShr64(x.hi, k - 64));
  }

  lemma WrapIsIdentity(x: s64)
    ensures Wrap(x) == x <==> x >= 0
  {
  }

  /**
   * The signed shift divides by a power of two and rounds down, for amounts below 64. From 64 on
   * it does so exactly for operands that are not negative, because the high limb becomes zero.
   */
  lemma SShrCorrect(x: S128, k: nat)
    requires k < 128
    ensures SVal(SShr(x, k)) == SVal(x) / Pow2(k) <==> k < 64 || SVal(x) >= 0
  {
    if k == 0 {
    } else if k < 64 {
      SShrSmall(x, k);
    } else {
      SShrLarge(x, k);
    }
  }

  lemma NegativeQuotient(x: int, p: int)
    requires p >= 1
    ensures x / p < 0 <==> x < 0
  {
    var a, b := x / p, x % p;
    assert x == a * p + b;
    MulMonotone(0, a, p);
    MulMonotone(a, -1, p);
  }
}

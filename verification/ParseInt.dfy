/**
 * Parsing an integer of any type in any base, with a test that stops before the value gets too
 * large for its type.
 */
module ParseInt {
  import Powers
  import opened Utf8

  datatype ParseStatus = Success | Exhausted | Invalid | TooManyDigits

  datatype ParseResult = ParseResult(value: int, status: ParseStatus, rest: seq<Byte>)

  datatype Options = Options(
    parseSign: bool,
    allowPlusSign: bool,
    lookForBasePrefix: bool,
    bail: bool,
    returnLimit: bool,
    maxDigits: int)

  const NOT_A_DIGIT := 255

  /** 0 to 9, and letters of either case from 10 on. */
  function ByteToDigit(b: Byte): nat {
    if '0' as int <= b <= '9' as int then b - '0' as int
    else if 'a' as int <= b <= 'z' as int then b - 'a' as int + 10
    else if 'A' as int <= b <= 'Z' as int then b - 'A' as int + 10
    else NOT_A_DIGIT
  }

  predicate IsDigit(b: Byte, base: nat) {
    ByteToDigit(b) < base
  }

  // ----- numbers and their digits

  /** The number that digits stand for, the highest digit first. */
  function NumberOf(digits: seq<Byte>, base: nat): nat {
    if digits == [] then 0 else NumberOf(digits[..|digits| - 1], base) * base + ByteToDigit(digits[|digits| - 1])
  }

  /** How many digits stand at the front. */
  function DigitRun(s: seq<Byte>, base: nat): (n: nat)
    ensures n <= |s| && (forall i :: 0 <= i < n ==> IsDigit(s[i], base)) && (n < |s| ==> !IsDigit(s[n], base))
  {
    if s == [] || !IsDigit(s[0], base) then 0 else 1 + DigitRun(s[1..], base)
  }

  /** How many digits there are to parse, when no more than maxDigits may be (-1 for any number). */
  function DigitsToParse(s: seq<Byte>, base: nat, maxDigits: int): (n: nat)
    requires maxDigits == -1 || maxDigits > 0
    ensures n <= |s|
  {
    var run := DigitRun(s, base);
    if maxDigits == -1 || run <= maxDigits then run else maxDigits
  }

  lemma NumberOfNext(s: seq<Byte>, i: nat, base: nat)
    requires i < |s|
    ensures NumberOf(s[..i + 1], base) == NumberOf(s[..i], base) * base + ByteToDigit(s[i])
  {
    assert s[..i + 1][..i] == s[..i];
  }

  lemma ProductGrows(a: nat, base: nat, d: nat)
    requires base >= 1
    ensures a <= a * base + d
  {
  }

  /** More digits never make a number less. */
  lemma {:induction false} NumberOfMonotone(s: seq<Byte>, i: nat, j: nat, base: nat)
    requires i <= j <= |s| && base >= 1
    ensures NumberOf(s[..i], base) <= NumberOf(s[..j], base)
    decreases j
  {
    if i < j {
      NumberOfMonotone(s, i, j - 1, base);
      NumberOfNext(s, j - 1, base);
      ProductGrows(NumberOf(s[..j - 1], base), base, ByteToDigit(s[j - 1]));
    }
  }

  // ----- which digits, and what they are worth

  const DIGITS := "0123456789abcdefghijklmnopqrstuvwxyz"
  const CAPITALS := "0123456789ABCDEFGHIJKLMNOPQRSTUVWXYZ"

  /** The byte stands at place d in one of the two lists of digits. */
  predicate IsDigitOf(b: Byte, d: nat) {
    d < 36 && (b == DIGITS[d] as int || b == CAPITALS[d] as int)
  }

  lemma DigitsInOrder(d: nat)
    requires d < 36
    ensures DIGITS[d] as int == if d < 10 then 48 + d else 87 + d
  {
  }

  lemma CapitalsInOrder(d: nat)
    requires d < 36
    ensures CAPITALS[d] as int == if d < 10 then 48 + d else 55 + d
  {
  }

  /** A byte is a digit exactly when it is in one of the lists, and is worth the place it has there. */
  lemma DigitsExactly(b: Byte, base: nat)
    requires base <= 36
    ensures IsDigit(b, base) <==> exists d: nat :: d < base && IsDigitOf(b, d)
    ensures forall d: nat :: IsDigitOf(b, d) ==> ByteToDigit(b) == d
  {
    forall d: nat
      ensures IsDigitOf(b, d) <==> d < 36 && ByteToDigit(b) == d
    {
      if d < 36 {
        DigitsInOrder(d);
        CapitalsInOrder(d);
      }
    }
    assert IsDigit(b, base) ==> IsDigitOf(b, ByteToDigit(b));
  }

  /** The first of n + 1 digits is worth base^n times itself. */
  lemma {:induction false} FirstDigit(digits: seq<Byte>, base: nat)
    requires digits != []
    ensures NumberOf(digits, base) == ByteToDigit(digits[0]) * PowerOf(base, |digits| - 1) + NumberOf(digits[1..], base)
  {
    var n := |digits| - 1;
    if n == 0 {
      assert digits[..0] == digits[1..] == [];
    } else {
      FirstDigit(digits[..n], base);
      assert digits[..n][1..] == digits[1..][..n - 1];
      Powers.Distribute(ByteToDigit(digits[0]) * PowerOf(base, n - 1), NumberOf(digits[1..][..n - 1], base), base);
      Powers.MulAssociates(ByteToDigit(digits[0]), PowerOf(base, n - 1), base);
    }
  }

  function PowerOf(base: nat, k: nat): nat {
    if k == 0 then 1 else PowerOf(base, k - 1) * base
  }

  // ----- integer types

  datatype IntType = Unsigned(bits: nat) | Signed(bits: nat)

  predicate IsWidth(bits: nat) {
    bits == 8 || bits == 16 || bits == 32 || bits == 64
  }

  /** What the type keeps of a number. */
  function Stored(x: int, t: IntType): int {
    var m := Powers.Pow2(t.bits);
    if t.Signed? && x % m >= m / 2 then x % m - m else x % m
  }

  /** The magnitude of the least number of a signed type. */
  function LimitOf(bits: nat): nat
    requires bits > 0
  {
    Powers.Pow2(bits - 1)
  }

  /** The largest magnitude of the numbers of one sign; unsigned types wrap the negative ones. */
  function MaxOf(t: IntType, negative: bool): nat
    requires t.bits > 0
  {
    if t.Unsigned? then Powers.Pow2(t.bits) - 1
    else if negative then LimitOf(t.bits)
    else LimitOf(t.bits) - 1
  }

  lemma TypeLimits()
    ensures MaxOf(Unsigned(8), false) == 0xff && MaxOf(Unsigned(16), false) == 0xffff
    ensures MaxOf(Unsigned(32), false) == 0xffff_ffff && MaxOf(Unsigned(64), false) == 0xffff_ffff_ffff_ffff
    ensures MaxOf(Signed(8), false) == 0x7f && MaxOf(Signed(16), false) == 0x7fff
    ensures MaxOf(Signed(32), false) == 0x7fff_ffff && MaxOf(Signed(64), false) == 0x7fff_ffff_ffff_ffff
    ensures MaxOf(Signed(8), true) == 0x80 && MaxOf(Signed(16), true) == 0x8000
    ensures MaxOf(Signed(32), true) == 0x8000_0000 && MaxOf(Signed(64), true) == 0x8000_0000_0000_0000
    ensures forall bits: nat :: bits > 0 ==> MaxOf(Unsigned(bits), true) == MaxOf(Unsigned(bits), false)
  {
    Powers.Pow2Values();
    EightBits();
    Powers.Pow2Square(8, 0x100);
    hide Powers.Pow2;
    HalfPower(8);
    HalfPower(16);
    HalfPower(32);
    HalfPower(64);
  }

  lemma HalfPower(k: nat)
    requires k > 0
    ensures Powers.Pow2(k) == 2 * Powers.Pow2(k - 1)
  {
  }

  /** A number with its sign, as the type gives it back. */
  function Given(x: int, negative: bool, t: IntType): int {
    Stored(if negative then -x else x, t)
  }

  lemma StoredShift(x: int, t: IntType) returns (k: int)
    ensures Stored(x, t) == x + k * Powers.Pow2(t.bits)
  {
    var m := Powers.Pow2(t.bits);
    k := if Stored(x, t) == x % m then -(x / m) else -(x / m) - 1;
    Powers.Distribute(-(x / m), 1, m);
    assert x == x / m * m + x % m;
  }

  lemma SameStored(x: int, k: int, t: IntType)
    ensures Stored(x + k * Powers.Pow2(t.bits), t) == Stored(x, t)
  {
    Powers.ModShift(x, k, Powers.Pow2(t.bits));
  }

  /** Storing on the way to the next digit makes no difference, and neither does it before negating. */
  lemma StoredNext(x: int, base: nat, digit: nat, t: IntType)
    ensures Stored(Stored(x, t) * base + digit, t) == Stored(x * base + digit, t)
  {
    var k := StoredShift(x, t);
    ShiftTimes(x, k, Powers.Pow2(t.bits), base);
    SameStored(x * base + digit, k * base, t);
    hide Stored;
    assert Stored(x, t) * base + digit == (x * base + digit) + (k * base) * Powers.Pow2(t.bits);
  }

  lemma ShiftTimes(x: int, k: int, m: int, base: int)
    ensures (x + k * m) * base == x * base + (k * base) * m
  {
    Powers.Distribute(x, k * m, base);
    Powers.MulAssociates(k, m, base);
  }

  lemma GivenStored(x: int, negative: bool, t: IntType)
    ensures Given(Stored(x, t), negative, t) == Given(x, negative, t)
  {
    var m := Powers.Pow2(t.bits);
    var k := StoredShift(x, t);
    assert -(x + k * m) == -x + -k * m;
    SameStored(-x, -k, t);
    SameStored(x, k, t);
  }

  /** Which numbers a type keeps as they are. */
  lemma StoredIsSame(x: int, t: IntType)
    requires t.bits > 0
    ensures 0 <= x <= MaxOf(t, false) ==> Stored(x, t) == x
    ensures t.Signed? && x == LimitOf(t.bits) ==> Stored(x, t) == -x
    ensures t.Signed? && 0 <= x <= LimitOf(t.bits) ==> Stored(-x, t) == -x
  {
    var m := Powers.Pow2(t.bits);
    assert m == 2 * LimitOf(t.bits) by {
      hide Stored;
    }
    if 0 <= x < m {
      Powers.DivModUnique(x, m, 0, x);
      if x > 0 {
        Powers.DivModUnique(-x, m, -1, m - x);
      }
    }
  }

  // ----- the test for one digit too many

  /** The test that is made before a digit is added. */
  predicate PassesCutOff(value: int, digit: nat, cutOff: int, cutLim: int) {
    value > cutOff || (value == cutOff && digit > cutLim)
  }

  /** The test says exactly when value * base + digit exceeds the maximum. */
  lemma CutOffIsExact(value: nat, digit: nat, base: nat, max: nat)
    requires base >= 1 && digit < base
    ensures PassesCutOff(value, digit, max / base, max % base) <==> value * base + digit > max
  {
    Powers.StepsApart(value, max / base, base);
    Powers.StepsApart(max / base, value, base);
    assert max == max / base * base + max % base;
  }

  /**
   * The quotient that is compared with for a negative number. The base is an unsigned number of 32
   * bits, so the least number of a smaller type is divided as a number of 32 bits, and the type
   * keeps of the quotient, and of its negation, what fits.
   */
  function NegativeCutOff(bits: nat, base: nat): int
    requires 0 < bits && 2 <= base
  {
    if bits == 64 then LimitOf(bits) / base
    else
      var q := Stored((0x1_0000_0000 - LimitOf(bits)) / base, Signed(bits));
      if q < 0 then Stored(-q, Signed(bits)) else q
  }

  /** For a negative number of a signed type the remainder is taken of the negative minimum. */
  function CutOff(t: IntType, negative: bool, base: nat): int
    requires 0 < t.bits && 2 <= base
  {
    if t.Signed? && negative then NegativeCutOff(t.bits, base) else MaxOf(t, negative) / base
  }

  function CutLim(t: IntType, negative: bool, base: nat): int
    requires 0 < t.bits && 2 <= base
  {
    var r := MaxOf(t, negative) % base;
    if t.Signed? && negative then -r else r
  }

  /** The parser stops at this digit, when what it holds is what the type keeps of the number so far. */
  predicate Stops(number: nat, digit: nat, t: IntType, negative: bool, base: nat)
    requires 0 < t.bits && 2 <= base
  {
    PassesCutOff(Stored(number, t), digit, CutOff(t, negative, base), CutLim(t, negative, base))
  }

  /** It is right to do so or not to do so. */
  predicate StopsRightly(number: nat, digit: nat, t: IntType, negative: bool, base: nat)
    requires 0 < t.bits && 2 <= base
  {
    Stops(number, digit, t, negative, base) <==> number * base + digit > MaxOf(t, negative)
  }

  /** The test is exact for unsigned types and for numbers that are not negative. */
  lemma NonNegativeStopsRightly(number: nat, digit: nat, t: IntType, negative: bool, base: nat)
    requires IsWidth(t.bits) && 2 <= base <= 36 && digit < base
    requires (t.Unsigned? || !negative) && number <= MaxOf(t, negative)
    ensures StopsRightly(number, digit, t, negative, base)
  {
    StoredIsSame(number, t);
    CutOffIsExact(number, digit, base, MaxOf(t, negative));
  }

  /** Where the test is wrong, by the quotient it compares with and the one that is meant. */
  predicate Misjudged(value: nat, digit: nat, base: nat, limit: nat, cutOff: int)
    requires base > 0
  {
    var q, r := limit / base, limit % base;
    if value == limit then cutOff + limit != 0 || (r == 0 && digit == 0)
    else if cutOff == q then value == q && r != 0 && digit <= r
    else if cutOff > q then
      q < value < cutOff || (value == q && digit > r) || (value == cutOff && r == 0 && digit == 0)
    else
      cutOff < value < q || (value == cutOff && (r != 0 || digit != 0)) || (value == q && digit <= r)
  }

  /**
   * Exactly when the test is right for a negative number of a signed type. Where the quotient is
   * the one that is meant, as it is for 32 and 64 bits, it is right unless the number so far is the
   * quotient, the remainder is not zero and the digit does not exceed it, or the number so far is
   * the limit: the type holds that as a negative number, which the test lets pass.
   */
  lemma NegativeStopsRightlyExactly(number: nat, digit: nat, bits: nat, base: nat)
    requires IsWidth(bits) && 2 <= base <= 36 && digit < base && number <= LimitOf(bits)
    ensures StopsRightly(number, digit, Signed(bits), true, base) <==>
      !Misjudged(number, digit, base, LimitOf(bits), NegativeCutOff(bits, base))
    ensures bits >= 32 ==> NegativeCutOff(bits, base) == LimitOf(bits) / base
    ensures NegativeCutOff(bits, base) == LimitOf(bits) / base ==>
      var limit := LimitOf(bits);
      StopsRightly(number, digit, Signed(bits), true, base) <==>
        !(number == limit / base && limit % base != 0 && digit <= limit % base) && number != limit
  {
    var limit := LimitOf(bits);
    StoredIsSame(number, Signed(bits));
    HalfAtMost(limit, base);
    Powers.MulMonotone(2, base, limit);
    if bits == 32 {
      CutOffOf32(base);
    }
    hide NegativeCutOff, Stored, LimitOf;
    if number < limit {
      MisjudgedExactly(number, digit, base, limit, NegativeCutOff(bits, base));
    }
  }

  lemma MisjudgedExactly(value: nat, digit: nat, base: nat, limit: nat, cutOff: int)
    requires base > 0 && digit < base && value < limit
    ensures (PassesCutOff(value, digit, cutOff, -(limit % base)) <==> value * base + digit > limit) <==>
      !Misjudged(value, digit, base, limit, cutOff)
  {
    CutOffIsExact(value, digit, base, limit);
  }

  lemma CutOffOf32(base: nat)
    requires 2 <= base <= 36
    ensures NegativeCutOff(32, base) == LimitOf(32) / base
  {
    Powers.Pow2Values();
    assert LimitOf(32) == 0x8000_0000;
    Powers.QuotientAtMost(0x8000_0000, base);
    HalfAtMost(0x8000_0000, base);
  }

  lemma HalfAtMost(x: nat, base: nat)
    requires base >= 2
    ensures 0 <= 2 * (x / base) <= x
  {
    var q, r := x / base, x % base;
    assert x == q * base + r;
    Powers.MulMonotone(2, base, q);
  }

  // ----- parsing

  /** What is left to parse after the sign and the prefix. */
  datatype Front = Digits(negative: bool, base: nat, digits: seq<Byte>)

  /** The number of the first k digits. */
  function Number(f: Front, k: nat): nat
    requires k <= |f.digits|
  {
    NumberOf(f.digits[..k], f.base)
  }

  /** There is something to parse. */
  predicate IsInput(f: Front, t: IntType, o: Options) {
    && f.digits != [] && 2 <= f.base <= 36
    && IsWidth(t.bits) && (o.maxDigits == -1 || o.maxDigits > 0)
  }

  function Count(f: Front, o: Options): (n: nat)
    requires (o.maxDigits == -1 || o.maxDigits > 0)
    ensures n <= |f.digits|
  {
    DigitsToParse(f.digits, f.base, o.maxDigits)
  }

  function NoDigits(f: Front, o: Options): ParseResult
    requires f.digits != []
  {
    if !o.lookForBasePrefix then ParseResult(0, Invalid, f.digits[1..])
    else ParseResult(0, if f.base == 8 then Success else Invalid, f.digits)
  }

  /** What is given when digit i is one too many. */
  function Overflow(f: Front, t: IntType, o: Options, i: nat): ParseResult
    requires i < |f.digits| && t.bits > 0
  {
    var value := if o.returnLimit then MaxOf(t, f.negative) else Number(f, i);
    ParseResult(Given(value, f.negative, t), TooManyDigits, f.digits[i + 1..])
  }

  function Whole(f: Front, t: IntType, n: nat): ParseResult
    requires n <= |f.digits|
  {
    ParseResult(Given(Number(f, n), f.negative, t), Success, f.digits[n..])
  }

  /** A number that is not too large with its sign; unsigned types have the negative ones modulo their size. */
  function Meant(number: int, negative: bool, t: IntType): int {
    if !negative then number
    else if t.Signed? then -number
    else if number == 0 then 0
    else Powers.Pow2(t.bits) - number
  }

  /** What is given instead of a number that is too large. */
  function LimitMeant(negative: bool, t: IntType): int
    requires t.bits > 0
  {
    var size: int := Powers.Pow2(t.bits);
    if t.Unsigned? then if negative then 1 else size - 1
    else if negative then -(size / 2)
    else size / 2 - 1
  }

  /** A number of the type that differs from another number by a multiple of its size. */
  ghost predicate IsCongruent(value: int, number: int, t: IntType)
    requires t.bits > 0
  {
    var size: int := Powers.Pow2(t.bits);
    && (if t.Signed? then -(size / 2) <= value < size / 2 else 0 <= value < size)
    && (value - number) % size == 0
  }

  /**
   * What parsing digits is meant to give: their number, or what the type keeps of it when the test
   * is switched off. When the number is too large, it ends behind the first digit that makes it so,
   * with the limit of the type or the number so far.
   */
  ghost predicate IsResult(r: ParseResult, f: Front, t: IntType, o: Options)
    requires IsInput(f, t, o)
  {
    var n, max := Count(f, o), MaxOf(t, f.negative);
    if n == 0 then IsNoNumber(r, f, o)
    else if !o.bail then IsWhole(r, f, t, n)
    else if Number(f, n) <= max then
      r == ParseResult(Meant(Number(f, n), f.negative, t), Success, f.digits[n..])
    else
      exists i | 0 <= i < n :: IsTooMany(f, t, i) && r.status == TooManyDigits && r.rest == f.digits[i + 1..]
        && r.value == if o.returnLimit then LimitMeant(f.negative, t) else Meant(Number(f, i), f.negative, t)
  }

  /** The same in terms of what the type stores. */
  ghost predicate IsStoredResult(r: ParseResult, f: Front, t: IntType, o: Options)
    requires IsInput(f, t, o)
  {
    var n := Count(f, o);
    if n == 0 then r == NoDigits(f, o)
    else if !o.bail || Number(f, n) <= MaxOf(t, f.negative) then r == Whole(f, t, n)
    else exists i | 0 <= i < n :: IsTooMany(f, t, i) && r == Overflow(f, t, o, i)
  }

  lemma GivenIsMeant(number: nat, negative: bool, t: IntType)
    requires t.bits > 0 && number <= MaxOf(t, negative)
    ensures Given(number, negative, t) == Meant(number, negative, t)
  {
    var m := Powers.Pow2(t.bits);
    assert m == 2 * LimitOf(t.bits);
    StoredIsSame(number, t);
    if negative && t.Unsigned? && number > 0 {
      Powers.DivModUnique(0 - number as int, m, -1, m - number);
    }
  }

  lemma GivenLimit(negative: bool, t: IntType)
    requires t.bits > 0
    ensures Given(MaxOf(t, negative), negative, t) == LimitMeant(negative, t)
  {
    assert Powers.Pow2(t.bits) == 2 * Powers.Pow2(t.bits - 1);
    GivenIsMeant(MaxOf(t, negative), negative, t);
  }

  /** There is one number of the type only that is congruent to a number. */
  lemma CongruentIsStored(value: int, number: int, t: IntType)
    requires t.bits > 0
    ensures IsCongruent(value, number, t) <==> value == Stored(number, t)
  {
    var m: int := Powers.Pow2(t.bits);
    assert m == 2 * Powers.Pow2(t.bits - 1);
    var j := StoredShift(number, t);
    Powers.DivModUnique(j * m, m, j, 0);
    var stored := Stored(number, t);
    assert IsCongruent(stored, number, t);
    if IsCongruent(value, number, t) {
      assert value - number == (value - number) / m * m;
      hide Powers.Pow2, Stored;
      SameMultiple((value - number) / m, j, m);
    }
  }

  lemma SameMultiple(j: int, k: int, m: int)
    requires m > 0 && -m < k * m - j * m < m
    ensures j == k
  {
    Powers.StepsApart(j, k, m);
    Powers.StepsApart(k, j, m);
  }

  lemma ResultIsStored(r: ParseResult, f: Front, t: IntType, o: Options)
    requires IsInput(f, t, o)
    ensures IsResult(r, f, t, o) <==> IsStoredResult(r, f, t, o)
  {
    hide Number, Given, Meant, MaxOf, LimitMeant, IsWhole;
    var n := Count(f, o);
    if n > 0 && !o.bail {
      WholeIsStored(r, f, t, n);
    } else if n > 0 {
      forall i | 0 <= i <= n && Number(f, i) <= MaxOf(t, f.negative)
        ensures Given(Number(f, i), f.negative, t) == Meant(Number(f, i), f.negative, t)
      {
        GivenIsMeant(Number(f, i), f.negative, t);
      }
      GivenLimit(f.negative, t);
    }
  }

  predicate IsTooMany(f: Front, t: IntType, i: nat)
    requires i < |f.digits| && t.bits > 0
  {
    Number(f, i) <= MaxOf(t, f.negative) < Number(f, i + 1)
  }

  predicate StopsAt(f: Front, t: IntType, i: nat)
    requires i < |f.digits| && t.bits > 0 && f.base >= 2
  {
    Stops(Number(f, i), ByteToDigit(f.digits[i]), t, f.negative, f.base)
  }

  /** The first of n digits at which the test stops, or n. */
  ghost predicate IsStop(f: Front, t: IntType, i: nat, n: nat)
    requires i <= n <= |f.digits| && t.bits > 0 && f.base >= 2
  {
    (forall j :: 0 <= j < i ==> !StopsAt(f, t, j)) && (i < n ==> StopsAt(f, t, i))
  }

  /** What it gives: it ends at the first digit at which the test says so, with what the type keeps of a number. */
  ghost predicate IsOutcome(r: ParseResult, f: Front, t: IntType, o: Options)
    requires IsInput(f, t, o)
  {
    var n := Count(f, o);
    if n == 0 then IsNoNumber(r, f, o)
    else if !o.bail then IsWhole(r, f, t, n)
    else exists i | 0 <= i <= n :: IsStop(f, t, i, n) && if i < n then IsCutShort(r, f, t, o, i) else IsWhole(r, f, t, n)
  }

  predicate IsNoNumber(r: ParseResult, f: Front, o: Options)
    requires f.digits != []
  {
    && r.value == 0
    && (if o.lookForBasePrefix then r.rest == f.digits && r.status == (if f.base == 8 then Success else Invalid)
        else r.rest == f.digits[1..] && r.status == Invalid)
  }

  ghost predicate IsWhole(r: ParseResult, f: Front, t: IntType, n: nat)
    requires n <= |f.digits| && t.bits > 0
  {
    && r.status == Success && r.rest == f.digits[n..]
    && var number: int := Number(f, n); IsCongruent(r.value, if f.negative then -number else number, t)
  }

  ghost predicate IsCutShort(r: ParseResult, f: Front, t: IntType, o: Options, i: nat)
    requires i < |f.digits| && t.bits > 0
  {
    && r.status == TooManyDigits && r.rest == f.digits[i + 1..]
    && var number: int := Number(f, i);
       if o.returnLimit then r.value == LimitMeant(f.negative, t)
       else IsCongruent(r.value, if f.negative then -number else number, t)
  }

  /** The same in terms of what the type stores. */
  ghost predicate IsStoredOutcome(r: ParseResult, f: Front, t: IntType, o: Options)
    requires IsInput(f, t, o)
  {
    var n := Count(f, o);
    if n == 0 then r == NoDigits(f, o)
    else if !o.bail then r == Whole(f, t, n)
    else exists i | 0 <= i <= n :: IsStop(f, t, i, n) && r == if i < n then Overflow(f, t, o, i) else Whole(f, t, n)
  }

  lemma OutcomeIsStored(r: ParseResult, f: Front, t: IntType, o: Options)
    requires IsInput(f, t, o)
    ensures IsOutcome(r, f, t, o) <==> IsStoredOutcome(r, f, t, o)
  {
    hide IsStop, IsWhole, IsCutShort, Whole, Overflow;
    WholeIsStored(r, f, t, Count(f, o));
    forall i | 0 <= i < Count(f, o)
      ensures IsCutShort(r, f, t, o, i) <==> r == Overflow(f, t, o, i)
    {
      CutShortIsStored(r, f, t, o, i);
    }
  }

  lemma WholeIsStored(r: ParseResult, f: Front, t: IntType, n: nat)
    requires n <= |f.digits| && t.bits > 0
    ensures IsWhole(r, f, t, n) <==> r == Whole(f, t, n)
  {
    hide IsCongruent, Stored, Number;
    var number: int := Number(f, n);
    CongruentIsStored(r.value, if f.negative then -number else number, t);
  }

  lemma CutShortIsStored(r: ParseResult, f: Front, t: IntType, o: Options, i: nat)
    requires i < |f.digits| && t.bits > 0
    ensures IsCutShort(r, f, t, o, i) <==> r == Overflow(f, t, o, i)
  {
    hide IsCongruent, Stored, Number, LimitMeant, MaxOf;
    var number: int := Number(f, i);
    CongruentIsStored(r.value, if f.negative then -number else number, t);
    GivenLimit(f.negative, t);
  }

  /** As long as the number is not too large, the test is right at the i-th digit. */
  predicate RightAt(f: Front, t: IntType, i: nat)
    requires i < |f.digits| && t.bits > 0 && f.base >= 2
  {
    Number(f, i) <= MaxOf(t, f.negative) ==>
      StopsRightly(Number(f, i), ByteToDigit(f.digits[i]), t, f.negative, f.base)
  }

  ghost predicate AlwaysRight(f: Front, t: IntType, o: Options)
    requires IsInput(f, t, o)
  {
    o.bail ==> forall i :: 0 <= i < Count(f, o) ==> RightAt(f, t, i)
  }

  // ----- what it gives is what is meant exactly when the test is always right

  lemma NumberMonotone(f: Front, i: nat, k: nat)
    requires i <= k <= |f.digits| && f.base >= 1
    ensures Number(f, i) <= Number(f, k)
  {
    NumberOfMonotone(f.digits, i, k, f.base);
  }

  lemma NumberNext(f: Front, i: nat)
    requires i < |f.digits|
    ensures Number(f, i + 1) == Number(f, i) * f.base + ByteToDigit(f.digits[i])
  {
    NumberOfNext(f.digits, i, f.base);
  }

  /** Digits after which the test never stopped and was always right. */
  lemma {:induction false} NotTooManyYet(f: Front, t: IntType, o: Options, i: nat)
    requires IsInput(f, t, o) && o.bail && AlwaysRight(f, t, o) && i <= Count(f, o)
    requires forall j :: 0 <= j < i ==> !StopsAt(f, t, j)
    ensures Number(f, i) <= MaxOf(t, f.negative)
  {
    if i > 0 {
      NotTooManyYet(f, t, o, i - 1);
      assert RightAt(f, t, i - 1);
      assert !StopsAt(f, t, i - 1);
      NumberNext(f, i - 1);
    }
  }

  /** A result that ends early ends behind the digit that is one too many. */
  lemma ResultEnds(r: ParseResult, f: Front, t: IntType, o: Options, i: nat)
    requires IsInput(f, t, o) && o.bail && IsStoredResult(r, f, t, o) && i < Count(f, o) && r == Overflow(f, t, o, i)
    ensures IsTooMany(f, t, i)
  {
    var k :| 0 <= k < Count(f, o) && IsTooMany(f, t, k) && r == Overflow(f, t, o, k);
    assert |f.digits[k + 1..]| == |f.digits[i + 1..]|;
  }

  lemma ResultOverflows(r: ParseResult, f: Front, t: IntType, o: Options, i: nat)
    requires IsInput(f, t, o) && o.bail && i < Count(f, o) && IsTooMany(f, t, i)
    ensures IsStoredResult(r, f, t, o) <==> r == Overflow(f, t, o, i)
  {
    hide Overflow, Number, Whole, NoDigits, MaxOf;
    NumberMonotone(f, i + 1, Count(f, o));
    if IsStoredResult(r, f, t, o) {
      var k :| 0 <= k < Count(f, o) && IsTooMany(f, t, k) && r == Overflow(f, t, o, k);
      if k < i {
        NumberMonotone(f, k + 1, i);
        assert false;
      } else if i < k {
        NumberMonotone(f, i + 1, k);
        assert false;
      }
    }
  }

  lemma OutcomeIsResult(r: ParseResult, f: Front, t: IntType, o: Options)
    requires IsInput(f, t, o) && IsOutcome(r, f, t, o)
    ensures IsResult(r, f, t, o) <==> AlwaysRight(f, t, o)
  {
    ResultIsStored(r, f, t, o);
    OutcomeIsStored(r, f, t, o);
    hide IsResult, IsOutcome;
    var n := Count(f, o);
    if n > 0 && o.bail {
      var i :| 0 <= i <= n && IsStop(f, t, i, n) && r == if i < n then Overflow(f, t, o, i) else Whole(f, t, n);
      if AlwaysRight(f, t, o) {
        RightOutcome(r, f, t, o, i);
      } else {
        var m :| 0 <= m < n && !RightAt(f, t, m);
        WrongOutcome(r, f, t, o, i, m);
      }
    }
  }

  lemma RightOutcome(r: ParseResult, f: Front, t: IntType, o: Options, i: nat)
    requires IsInput(f, t, o) && o.bail && 0 < Count(f, o) && i <= Count(f, o)
    requires IsStop(f, t, i, Count(f, o)) && AlwaysRight(f, t, o)
    requires r == if i < Count(f, o) then Overflow(f, t, o, i) else Whole(f, t, Count(f, o))
    ensures IsStoredResult(r, f, t, o)
  {
    NotTooManyYet(f, t, o, i);
    if i < Count(f, o) {
      assert RightAt(f, t, i);
      NumberNext(f, i);
      ResultOverflows(r, f, t, o, i);
    }
  }

  lemma WrongOutcome(r: ParseResult, f: Front, t: IntType, o: Options, i: nat, m: nat)
    requires IsInput(f, t, o) && o.bail && i <= Count(f, o) && m < Count(f, o)
    requires IsStop(f, t, i, Count(f, o)) && !RightAt(f, t, m)
    requires r == if i < Count(f, o) then Overflow(f, t, o, i) else Whole(f, t, Count(f, o))
    ensures !IsStoredResult(r, f, t, o)
  {
    NumberNext(f, m);
    if i <= m {
      NumberMonotone(f, i + 1, if i < m then m else m + 1);
      if IsStoredResult(r, f, t, o) {
        ResultEnds(r, f, t, o, i);
        assert false;
      }
    } else {
      assert !StopsAt(f, t, m);
      ResultOverflows(r, f, t, o, m);
      assert i < Count(f, o) ==> |f.digits[i + 1..]| != |f.digits[m + 1..]|;
    }
  }

  /** For unsigned types, for numbers that are not negative and without the test it always is. */
  lemma AlwaysRightUnlessNegative(f: Front, t: IntType, o: Options)
    requires IsInput(f, t, o) && (t.Unsigned? || !f.negative || !o.bail)
    ensures AlwaysRight(f, t, o)
  {
    forall i | 0 <= i < Count(f, o) && o.bail
      ensures RightAt(f, t, i)
    {
      DigitAt(f, o, i);
      if Number(f, i) <= MaxOf(t, f.negative) {
        NonNegativeStopsRightly(Number(f, i), ByteToDigit(f.digits[i]), t, f.negative, f.base);
      }
    }
  }

  lemma DigitAt(f: Front, o: Options, i: nat)
    requires (o.maxDigits == -1 || o.maxDigits > 0) && i < Count(f, o)
    ensures ByteToDigit(f.digits[i]) < f.base
  {
    assert IsDigit(f.digits[i], f.base);
  }

  /** The first k digits stand for one of the numbers from the last multiple of the base to the limit. */
  predicate NearLimit(f: Front, bits: nat, k: nat)
    requires k <= |f.digits| && bits > 0 && f.base > 0
  {
    LimitOf(bits) - LimitOf(bits) % f.base <= Number(f, k) <= LimitOf(bits)
  }

  /**
   * For negative numbers it is right exactly unless some digit is misjudged. Where the quotient is
   * the one that is meant, as it is for 32 and 64 bits, it is right exactly unless some digits from
   * the front stand for a number next to the limit; all the digits may when the base divides it.
   */
  lemma NegativeRightExactly(f: Front, bits: nat, o: Options)
    requires IsInput(f, Signed(bits), o) && f.negative && o.bail
    ensures AlwaysRight(f, Signed(bits), o) <==> forall i :: 0 <= i < Count(f, o) ==> !IsMisjudged(f, bits, i)
    ensures bits >= 32 ==> NegativeCutOff(bits, f.base) == LimitOf(bits) / f.base
    ensures NegativeCutOff(bits, f.base) == LimitOf(bits) / f.base ==>
      (AlwaysRight(f, Signed(bits), o) <==>
        forall k :: 0 <= k <= Count(f, o) && NearLimit(f, bits, k) ==> k == Count(f, o) && LimitOf(bits) % f.base == 0)
  {
    forall i | 0 <= i < Count(f, o)
      ensures RightAt(f, Signed(bits), i) <==> !IsMisjudged(f, bits, i)
    {
      DigitAt(f, o, i);
      if Number(f, i) <= LimitOf(bits) {
        NegativeStopsRightlyExactly(Number(f, i), ByteToDigit(f.digits[i]), bits, f.base);
      }
    }
    NothingNearLimit(f, bits);
    NegativeStopsRightlyExactly(0, 0, bits, f.base);
    if NegativeCutOff(bits, f.base) == LimitOf(bits) / f.base {
      NegativeRightByLimit(f, bits, o);
    }
  }

  /** The test is wrong at the i-th digit of a negative number. */
  predicate IsMisjudged(f: Front, bits: nat, i: nat)
    requires i < |f.digits| && bits > 0 && f.base >= 2
  {
    && Number(f, i) <= LimitOf(bits)
    && Misjudged(Number(f, i), ByteToDigit(f.digits[i]), f.base, LimitOf(bits), NegativeCutOff(bits, f.base))
  }

  lemma NegativeRightByLimit(f: Front, bits: nat, o: Options)
    requires IsInput(f, Signed(bits), o) && f.negative && o.bail && NegativeCutOff(bits, f.base) == LimitOf(bits) / f.base
    ensures AlwaysRight(f, Signed(bits), o) <==>
      forall k :: 0 <= k <= Count(f, o) && NearLimit(f, bits, k) ==> k == Count(f, o) && LimitOf(bits) % f.base == 0
  {
    var t, n, limit := Signed(bits), Count(f, o), LimitOf(bits);
    forall i | 0 <= i < n
      ensures RightAt(f, t, i) <==> !(i > 0 && Number(f, i) == limit) && !(limit % f.base != 0 && NearLimit(f, bits, i + 1))
    {
      NegativeRightAt(f, bits, o, i);
    }
    NothingNearLimit(f, bits);
    if AlwaysRight(f, t, o) {
      forall k | 0 < k <= n && NearLimit(f, bits, k)
        ensures k == n && limit % f.base == 0
      {
        assert RightAt(f, t, k - 1);
      }
    } else {
      var i :| 0 <= i < n && !RightAt(f, t, i);
      assert NearLimit(f, bits, i) || NearLimit(f, bits, i + 1);
    }
  }

  lemma NothingNearLimit(f: Front, bits: nat)
    requires IsWidth(bits) && 2 <= f.base <= 36
    ensures !NearLimit(f, bits, 0) && LimitOf(bits) > 0
  {
    assert f.digits[..0] == [];
    Powers.Pow2Monotone(7, bits - 1);
    assert Powers.Pow2(7) == 128;
  }

  lemma NegativeRightAt(f: Front, bits: nat, o: Options, i: nat)
    requires IsInput(f, Signed(bits), o) && f.negative && i < Count(f, o) && NegativeCutOff(bits, f.base) == LimitOf(bits) / f.base
    ensures RightAt(f, Signed(bits), i) <==>
      !(i > 0 && Number(f, i) == LimitOf(bits)) && !(LimitOf(bits) % f.base != 0 && NearLimit(f, bits, i + 1))
  {
    var limit, number, digit := LimitOf(bits), Number(f, i), ByteToDigit(f.digits[i]);
    DigitAt(f, o, i);
    NumberNext(f, i);
    NothingNearLimit(f, bits);
    NextNearLimit(number, digit, f.base, limit);
    if number <= limit {
      NegativeStopsRightlyExactly(number, digit, bits, f.base);
    }
  }

  lemma NextNearLimit(number: nat, digit: nat, base: nat, limit: nat)
    requires base >= 1 && digit < base
    ensures limit - limit % base <= number * base + digit <= limit <==> number == limit / base && digit <= limit % base
    ensures number > limit ==> number * base + digit > limit
  {
    var q := limit / base;
    assert limit == q * base + limit % base;
    Powers.StepsApart(number, q, base);
    Powers.StepsApart(q, number, base);
    Powers.MulMonotone(1, base, number);
  }

  // ----- the method

  /** The loop over the digits. */
  method ParseDigits(f: Front, t: IntType, o: Options) returns (r: ParseResult)
    requires IsInput(f, t, o)
    ensures IsStoredOutcome(r, f, t, o)
  {
    hide NumberOf, DigitRun, ByteToDigit, Stored, MaxOf, PassesCutOff, CutOff, CutLim;
    var digits, base := f.digits, f.base;
    var max, cutOff, cutLim := MaxOf(t, f.negative), CutOff(t, f.negative, base), CutLim(t, f.negative, base);
    ghost var n := Count(f, o);
    var value, i, left := 0, 0, o.maxDigits;
    NothingStored(f, t);
    while true
      invariant i <= n && left == (if o.maxDigits == -1 then -1 else o.maxDigits - i)
      invariant value == Stored(Number(f, i), t)
      invariant o.bail ==> forall j :: 0 <= j < i ==> !StopsAt(f, t, j)
      decreases |digits| - i
    {
      if left == 0 {
        break;
      }
      if left > 0 {
        left := left - 1;
      }
      var digit := if i < |digits| then ByteToDigit(digits[i]) else NOT_A_DIGIT;
      if digit >= base {
        if i == 0 {
          if o.lookForBasePrefix {
            return ParseResult(0, if base == 8 then Success else Invalid, digits);
          }
          return ParseResult(0, Invalid, digits[1..]);
        }
        break;
      }
      if o.bail && PassesCutOff(value, digit, cutOff, cutLim) {
        assert StopsAt(f, t, i);
        GivenStored(Number(f, i), f.negative, t);
        GivenStored(max, f.negative, t);
        value := if o.returnLimit then Stored(max, t) else value;
        r := ParseResult(Given(value, f.negative, t), TooManyDigits, digits[i + 1..]);
        assert IsStop(f, t, i, n) && r == Overflow(f, t, o, i);
        return;
      }
      NumberNext(f, i);
      StoredNext(Number(f, i), base, digit, t);
      value := Stored(value * base + digit, t);
      i := i + 1;
    }
    GivenStored(Number(f, n), f.negative, t);
    assert o.bail ==> IsStop(f, t, n, n);
    return ParseResult(Given(value, f.negative, t), Success, digits[i..]);
  }

  lemma NothingStored(f: Front, t: IntType)
    requires t.bits > 0
    ensures Stored(Number(f, 0), t) == 0
  {
    assert f.digits[..0] == [];
  }

  /** What follows sign and prefix is parsed; there must be something, or the whole buffer is given back. */
  ghost predicate IsParsed(r: ParseResult, buffer: seq<Byte>, negative: bool, base: nat, digits: seq<Byte>, t: IntType, o: Options)
    requires 2 <= base <= 36 && IsWidth(t.bits) && (o.maxDigits == -1 || o.maxDigits > 0)
  {
    if digits == [] then r == ParseResult(0, Exhausted, buffer)
    else
      var f := Digits(negative, base, digits);
      IsOutcome(r, f, t, o) && (IsResult(r, f, t, o) <==> AlwaysRight(f, t, o))
  }

  /**
   * Parses an integer of any type: sign, prefix, digits. The result is the one that is meant
   * exactly when the test for one digit too many is right at every digit.
   */
  method Parse(buffer: seq<Byte>, base: nat, t: IntType, o: Options) returns (r: ParseResult)
    requires 2 <= base <= 36 && IsWidth(t.bits) && (o.maxDigits == -1 || o.maxDigits > 0)
    // nothing there, or a sign that is not allowed
    ensures buffer == [] ==> r == ParseResult(0, Exhausted, [])
    ensures buffer != [] && o.parseSign && buffer[0] == '+' as int && !o.allowPlusSign ==>
      r == ParseResult(0, Invalid, buffer[1..])
    // a sign, a prefix, and what is left of the digits
    ensures buffer != [] && !(o.parseSign && buffer[0] == '+' as int && !o.allowPlusSign) ==>
      var negative := o.parseSign && buffer[0] == '-' as int;
      var p := if o.parseSign && (buffer[0] == '+' as int || buffer[0] == '-' as int) then buffer[1..] else buffer;
      if p == [] then r == ParseResult(0, Exhausted, buffer)
      else if o.lookForBasePrefix && p[0] == '0' as int then
        if |p| > 1 && (p[1] == 'x' as int || p[1] == 'X' as int)
        then IsParsed(r, buffer, negative, 16, p[2..], t, o)
        else IsParsed(r, buffer, negative, 8, p[1..], t, o)
      else IsParsed(r, buffer, negative, base, p, t, o)
  {
    hide IsResult, IsOutcome, IsStoredOutcome, AlwaysRight;
    if |buffer| == 0 {
      return ParseResult(0, Exhausted, buffer);
    }
    var p, negative, usedBase := buffer, false, base;
    if o.parseSign {
      if p[0] == '+' as int {
        p := p[1..];
        if !o.allowPlusSign {
          return ParseResult(0, Invalid, p);
        }
      } else if p[0] == '-' as int {
        negative := true;
        p := p[1..];
      }
      if |p| == 0 {
        return ParseResult(0, Exhausted, buffer);
      }
    }
    if o.lookForBasePrefix {
      if p[0] == '0' as int {
        if |p| - 1 != 0 && (p[1] == 'x' as int || p[1] == 'X' as int) {
          usedBase := 16;
          p := p[2..];
        } else {
          usedBase := 8;
          p := p[1..];
        }
      }
      if |p| == 0 {
        return ParseResult(0, Exhausted, buffer);
      }
    }
    r := ParseDigits(Digits(negative, usedBase, p), t, o);
    OutcomeIsStored(r, Digits(negative, usedBase, p), t, o);
    OutcomeIsResult(r, Digits(negative, usedBase, p), t, o);
  }

  /** With the test switched on, too many digits are reported exactly when the number is too large. */
  lemma TooManyDigitsExactly(r: ParseResult, f: Front, t: IntType, o: Options)
    requires IsInput(f, t, o) && o.bail && IsResult(r, f, t, o)
    ensures r.status == TooManyDigits <==> Count(f, o) > 0 && Number(f, Count(f, o)) > MaxOf(t, f.negative)
  {
  }

  // ----- two inputs

  const WITH_SIGN := Options(true, false, false, true, true, -1)

  lemma ThreeDigits(f: Front, d0: nat, d1: nat, d2: nat)
    requires |f.digits| == 3 && ByteToDigit(f.digits[0]) == d0 && ByteToDigit(f.digits[1]) == d1
    requires ByteToDigit(f.digits[2]) == d2 && d0 < f.base && d1 < f.base && d2 < f.base
    ensures Number(f, 0) == 0 && Number(f, 1) == d0 && Number(f, 2) == d0 * f.base + d1
    ensures Number(f, 3) == (d0 * f.base + d1) * f.base + d2
    ensures DigitsToParse(f.digits, f.base, -1) == 3
  {
    assert f.digits[..0] == [];
    NumberNext(f, 0);
    NumberNext(f, 1);
    NumberNext(f, 2);
  }

  /** "-801" in base 16 and eight bits: after two digits the number is the limit, and the third one wraps it. */
  method ParsesWrappedNumber() returns (r: ParseResult)
    ensures r == ParseResult(-1, Success, [])
  {
    hide Number, DigitRun, IsResult, IsOutcome, AlwaysRight, StopsAt, Given;
    var digits: seq<Byte> := ['8' as int, '0' as int, '1' as int];
    var buffer: seq<Byte> := ['-' as int] + digits;
    assert buffer[1..] == digits;
    r := Parse(buffer, 16, Signed(8), WITH_SIGN);
    var f := Digits(true, 16, digits);
    ThreeDigits(f, 8, 0, 1);
    StopsInEightBits(f, 0, 0, 8);
    StopsInEightBits(f, 1, 8, 0);
    StopsInEightBits(f, 2, 128, 1);
    NeverStops(r, f);
    GivenInEightBits(2049);
  }

  /** "-129" in base 10 and eight bits: the test compares with 116 instead of 12. */
  method ParsesTooLargeNumber() returns (r: ParseResult)
    ensures r == ParseResult(127, Success, [])
  {
    hide Number, DigitRun, IsResult, IsOutcome, AlwaysRight, StopsAt, Given;
    var digits: seq<Byte> := ['1' as int, '2' as int, '9' as int];
    var buffer: seq<Byte> := ['-' as int] + digits;
    assert buffer[1..] == digits;
    r := Parse(buffer, 10, Signed(8), WITH_SIGN);
    var f := Digits(true, 10, digits);
    ThreeDigits(f, 1, 2, 9);
    StopsInEightBits(f, 0, 0, 1);
    StopsInEightBits(f, 1, 1, 2);
    StopsInEightBits(f, 2, 12, 9);
    NeverStops(r, f);
    GivenInEightBits(129);
  }

  lemma NeverStops(r: ParseResult, f: Front)
    requires IsInput(f, Signed(8), WITH_SIGN) && IsOutcome(r, f, Signed(8), WITH_SIGN)
    requires |f.digits| == 3 == Count(f, WITH_SIGN) && forall i :: 0 <= i < 3 ==> !StopsAt(f, Signed(8), i)
    ensures r == ParseResult(Given(Number(f, 3), f.negative, Signed(8)), Success, [])
  {
    OutcomeIsStored(r, f, Signed(8), WITH_SIGN);
    hide StopsAt, Number, Given, Overflow;
  }

  lemma StopsInEightBits(f: Front, i: nat, number: nat, digit: nat)
    requires f.negative && (f.base == 10 || f.base == 16) && i < |f.digits|
    requires Number(f, i) == number <= 128 && ByteToDigit(f.digits[i]) == digit
    ensures StopsAt(f, Signed(8), i) <==>
      number != 128 && PassesCutOff(number, digit, if f.base == 10 then 116 else 8, if f.base == 10 then -8 else 0)
  {
    hide Powers.Pow2, Number, ByteToDigit, Stored, NegativeCutOff;
    EightBits();
    CutOffsInEightBits();
    StoredIsSame(number, Signed(8));
  }

  lemma CutOffsInEightBits()
    ensures NegativeCutOff(8, 10) == 116 && NegativeCutOff(8, 16) == 8
  {
    hide Powers.Pow2;
    EightBits();
    assert (0x1_0000_0000 - 128) / 10 == 429496716 && (0x1_0000_0000 - 128) / 16 == 268435448;
  }

  lemma GivenInEightBits(x: nat)
    ensures x == 2049 ==> Given(x, true, Signed(8)) == -1
    ensures x == 129 ==> Given(x, true, Signed(8)) == 127
  {
    hide Powers.Pow2;
    EightBits();
  }

  lemma EightBits()
    ensures Powers.Pow2(7) == 128 && Powers.Pow2(8) == 256
  {
    assert Powers.Pow2(3) == 8 && Powers.Pow2(4) == 16;
    Powers.Pow2Add(3, 4);
    Powers.Pow2Add(4, 4);
  }
}

/**
 * The signed operators of 128-bit integers over the unsigned negation and division as they are
 * written: what they compute, and for which operands it is right all the same.
 */
module Int128AsWritten {
  import opened Powers
  import opened Int128

  /** The complement, and a carry into the high limb when the low limb was all ones. */
  lemma NegAsWrittenValue(x: U128)
    ensures x.lo != B - 1 ==> Val(NegAsWritten(x)) == M - 1 - Val(x)
    ensures x.lo == B - 1 ==> Val(NegAsWritten(x)) == if x.hi == 0 then 0 else M - x.hi * B
  {
  }

  function UnsignedAbsoluteValueAsWritten(x: S128): U128 {
    if x.hi < 0 then NegAsWritten(Unsigned(x)) else Unsigned(x)
  }

  /** One too small for negative numbers, and 2^64 too large on top of that when the low limb is all ones. */
  lemma AbsoluteValueAsWritten(x: S128)
    ensures Val(UnsignedAbsoluteValueAsWritten(x)) ==
      if SVal(x) >= 0 then SVal(x) else -SVal(x) - 1 + if x.lo == B - 1 then B else 0
  {
    if x.hi < 0 {
      NegAsWrittenValue(Unsigned(x));
      assert Unsigned(x) == U128(x.hi + B, x.lo);
    }
  }

  lemma AbsoluteValueExactly(x: S128)
    ensures Val(UnsignedAbsoluteValueAsWritten(x)) == (if SVal(x) < 0 then -SVal(x) else SVal(x)) <==> SVal(x) >= 0
  {
    AbsoluteValueAsWritten(x);
  }

  // ----- truncated division

  function Magnitude(x: int): nat {
    if x < 0 then -x else x
  }

  /** A product with a factor that is not zero is no smaller than the other one. */
  lemma ProductMagnitude(b: int, q: int)
    requires b != 0 && q != 0
    ensures Magnitude(b * q) >= Magnitude(q) && Magnitude(b * q) >= Magnitude(b)
    ensures b * q < 0 <==> (b < 0) != (q < 0)
  {
    var x, y := Magnitude(b), Magnitude(q);
    SignsOfProduct(b, q);
    SignsOfProduct(x, y);
    MulMonotone(1, x, y);
    MulMonotone(1, y, x);
  }

  predicate WrongSign(a: int, b: int, q: int) {
    a != 0 && q != 0 && (q < 0) != ((a < 0) != (b < 0))
  }

  /** The quotient q leaves a remainder that truncated division may leave. */
  ghost predicate IsTruncatedQuotient(a: int, b: int, q: int) {
    Truncates(a, b, q, a - b * q)
  }

  /** A quotient larger than the dividend, or on the wrong side of zero, is not the truncated one. */
  lemma NotTruncated(a: int, b: int, q: int)
    requires b != 0 && (Magnitude(q) > Magnitude(a) || WrongSign(a, b, q))
    ensures !IsTruncatedQuotient(a, b, q)
  {
    ProductMagnitude(b, q);
  }

  // ----- quotients of all ones

  /** Four times the leading power of two of n, which is at least 1. */
  ghost predicate Leads(n: nat, x: int) {
    2 * n < x <= 4 * n && x % 2 == 0
  }

  /** Such a power is below 2^64, or 2^64, 2^65, between them and 2^127, or 2^128 or 2^129. */
  ghost predicate Sized(x: int) {
    x < B || x == B || x == 2 * B || (4 * B <= x <= M / 2 && x % B == 0) || x == M || x == 2 * M
  }

  lemma LeadingPower(n: nat)
    requires 0 < n < M
    ensures Msb(n) >= 0
    ensures Leads(n, Pow2(Msb(n) + 2)) && Sized(Pow2(Msb(n) + 2))
    ensures LowOnes(Msb(n) + 2) == (Pow2(Msb(n) + 2) - 1) % M
    ensures Pow2(Msb(n) + 2) == B <==> Msb(n) == 62
  {
    MsbBelow128(n);
    var k := Msb(n);
    FourTimes(k);
    LeadsFrom(n, Pow2(k));
    PowerSizes(k + 2);
  }

  lemma FourTimes(k: nat)
    ensures Pow2(k + 2) == 4 * Pow2(k)
  {
    assert Pow2(k + 2) == 2 * Pow2(k + 1) && Pow2(k + 1) == 2 * Pow2(k);
  }

  lemma LeadsFrom(n: nat, p: nat)
    requires p <= n < 2 * p
    ensures Leads(n, 4 * p)
  {
  }

  lemma PowerSizes(k: nat)
    requires 2 <= k <= 129
    ensures Sized(Pow2(k)) && (Pow2(k) == B <==> k == 64)
  {
    Pow2Values();
    assert Pow2(65) == 2 * Pow2(64) && Pow2(66) == 2 * Pow2(65);
    assert Pow2(128) == 2 * Pow2(127) && Pow2(129) == 2 * Pow2(128);
    assert Pow2(64) == 2 * Pow2(63);
    if k < 64 {
      Pow2Monotone(k, 63);
    } else if 66 <= k <= 127 {
      Pow2Monotone(66, k);
      Pow2Monotone(k, 127);
      Pow2Add(k - 64, 64);
      DivModUnique(Pow2(k), B, Pow2(k - 64), 0);
    }
  }

  /** The quotient as a signed number, and what negating it as written makes of it. */
  lemma QuotientReadings(m: U128, x: int)
    requires Sized(x) && x >= 2 && Val(m) == (x - 1) % M
    ensures x <= M / 2 ==> SVal(ToSigned(m)) == x - 1
    ensures x > M / 2 ==> SVal(ToSigned(m)) == -1
    ensures SVal(ToSigned(NegAsWritten(m))) == if x < B then -x else if x <= M / 2 then B - x else B
  {
    NegAsWrittenValue(m);
    if x < B {
      LimbsOf(m, 0, x - 1);
    } else if x <= M / 2 {
      var y := x / B;
      assert x == y * B;
      LimbsOf(m, y - 1, B - 1);
    } else {
      OnesModulo(x);
      LimbsOf(m, B - 1, B - 1);
    }
  }

  lemma OnesModulo(x: nat)
    requires x == M || x == 2 * M
    ensures (x - 1) % M == M - 1
  {
  }

  lemma LimbsOf(m: U128, hi: nat, lo: nat)
    requires Val(m) == hi * B + lo && lo < B
    ensures m.hi == hi && m.lo == lo
  {
    DivModUnique(Val(m), B, m.hi, m.lo);
    DivModUnique(Val(m), B, hi, lo);
  }

  // ----- the operators

  /** When the signed quotient comes out right: negated to zero where zero is right, or 2^64 by chance. */
  predicate LuckyQuotient(a: int, b: int, n: nat) {
    (a < 0) != (b < 0) && n > 0 && ((Msb(n) == 62 && Magnitude(a) < Magnitude(b)) || (a == -B && b == 1))
  }

  lemma QuotientExactly(a: int, b: int, n: nat, m: U128, q: int)
    requires b != 0 && -(M / 2) <= a < M / 2 && n < M
    requires Magnitude(a) <= n + 1 && (a >= 0 ==> n == a) && !(a < 0 && n == 0)
    requires a == -B ==> n == B - 1
    requires Val(m) == if n == 0 then 1 else LowOnes(Msb(n) + 2)
    requires q == if (a < 0) != (b < 0) then SVal(ToSigned(NegAsWritten(m))) else SVal(ToSigned(m))
    ensures IsTruncatedQuotient(a, b, q) <==> LuckyQuotient(a, b, n)
  {
    if n == 0 {
      NegAsWrittenValue(m);
      LimbsOf(m, 0, 1);
      NotTruncated(a, b, q);
    } else {
      LeadingPower(n);
      var x := Pow2(Msb(n) + 2);
      QuotientReadings(m, x);
      QuotientCases(a, b, n, x, q);
    }
  }

  lemma QuotientCases(a: int, b: int, n: nat, x: int, q: int)
    requires b != 0 && 0 < n && Magnitude(a) <= n + 1 && a != 0 && Leads(n, x) && Sized(x)
    requires (a == -B ==> n == B - 1) && (a > 0 ==> n == a)
    requires (x == B <==> Msb(n) == 62)
    requires q == if (a < 0) == (b < 0) then (if x <= M / 2 then x - 1 else -1)
                  else if x < B then -x else if x <= M / 2 then B - x else B
    ensures IsTruncatedQuotient(a, b, q) <==> LuckyQuotient(a, b, n)
  {
    if (a < 0) == (b < 0) || x < B || x > 2 * B {
      NotTruncated(a, b, q);
    } else if x == B {
      assert b * q == 0;
    } else {
      if Magnitude(a) < B || a > 0 {
        NotTruncated(a, b, q);
      } else {
        MultipleOfNegative(b);
      }
    }
  }

  /** Minus 2^64 divided by b > 0 is minus 2^64 exactly for b == 1. */
  lemma MultipleOfNegative(b: int)
    requires b > 0
    ensures IsTruncatedQuotient(-B, b, -B) <==> b == 1
  {
    assert -B - b * -B == (b - 1) * B;
  }

  /** The dividend that is divided, against the one that is meant. */
  lemma DividendBounds(l: S128, n: nat)
    requires n == Val(UnsignedAbsoluteValueAsWritten(l))
    ensures var a := SVal(l);
      && Magnitude(a) <= n + 1 && (a >= 0 ==> n == a) && !(a < 0 && n == 0)
      && (a == -B ==> n == B - 1)
  {
    AbsoluteValueAsWritten(l);
    if SVal(l) == -B {
      DivModUnique(-B, B, l.hi, l.lo);
      DivModUnique(-B, B, -1, 0);
    }
  }

  // ----- the quotient in constant evaluation

  /** A quotient is the truncated one exactly when its sign is right and its magnitude is the greatest that fits. */
  lemma TruncatedExactly(a: int, b: int, q: int)
    requires b != 0
    ensures IsTruncatedQuotient(a, b, q) <==>
      && (q == 0 || (a != 0 && (q < 0) == ((a < 0) != (b < 0))))
      && Magnitude(b) * Magnitude(q) <= Magnitude(a) < Magnitude(b) * Magnitude(q) + Magnitude(b)
  {
    SignsOfProduct(b, q);
    SignsOfProduct(Magnitude(b), Magnitude(q));
    SignsOfProduct(Magnitude(b), q);
    SignsOfProduct(b, Magnitude(q));
    if q != 0 {
      ProductMagnitude(b, q);
    }
  }

  /** What is known of the quotient by the magnitude of the divisor. */
  ghost predicate DecidedBySize(a: int, b: int, q: int) {
    && (Magnitude(b) == 1 ==>
      (IsTruncatedQuotient(a, b, q) <==> Magnitude(q) == Magnitude(a) && (q == 0 || (q < 0) == ((a < 0) != (b < 0)))))
    && (Magnitude(b) == 2 ==>
      (IsTruncatedQuotient(a, b, q) <==>
        2 * Magnitude(q) <= Magnitude(a) < 2 * Magnitude(q) + 2 && (q == 0 || (q < 0) == ((a < 0) != (b < 0)))))
    && (Magnitude(b) > 2 && IsTruncatedQuotient(a, b, q) ==> 3 * Magnitude(q) <= Magnitude(a))
    && (q == 0 ==> (IsTruncatedQuotient(a, b, q) <==> Magnitude(a) < Magnitude(b)))
    && (IsTruncatedQuotient(a, b, q) ==> q == 0 || (q < 0) == ((a < 0) != (b < 0)))
  }

  /** What that means for divisors of magnitude one, two, and more. */
  lemma TruncatedBySize(a: int, b: int, q: int)
    requires b != 0
    ensures DecidedBySize(a, b, q)
  {
    hide IsTruncatedQuotient, DecidedBySize;
    TruncatedExactly(a, b, q);
    ProductBySize(Magnitude(b), Magnitude(q));
    DecidedByProduct(a, b, q, Magnitude(b) * Magnitude(q));
  }

  lemma ProductBySize(b: nat, q: nat)
    ensures (b == 1 ==> b * q == q) && (b == 2 ==> b * q == 2 * q) && (q == 0 ==> b * q == 0)
    ensures b > 2 ==> b * q >= 3 * q
  {
    MulMonotone(3, b, q);
  }

  lemma DecidedByProduct(a: int, b: int, q: int, p: nat)
    requires b != 0
    requires IsTruncatedQuotient(a, b, q) <==>
      && (q == 0 || (a != 0 && (q < 0) == ((a < 0) != (b < 0))))
      && p <= Magnitude(a) < p + Magnitude(b)
    requires (Magnitude(b) == 1 ==> p == Magnitude(q)) && (Magnitude(b) == 2 ==> p == 2 * Magnitude(q))
    requires (q == 0 ==> p == 0) && (Magnitude(b) > 2 ==> p >= 3 * Magnitude(q))
    ensures DecidedBySize(a, b, q)
  {
    hide IsTruncatedQuotient;
  }

  /** The dividend by its low limb: the complement of a negative number, and one limb more when it carries. */
  predicate IsDividendOf(n: nat, a: int) {
    if a >= 0 then n == a else n == -a - 1 || (n == -a - 1 + B && (-a - 1) % B == 0)
  }

  lemma DividendOf(l: S128)
    ensures IsDividendOf(Val(UnsignedAbsoluteValueAsWritten(l)), SVal(l))
  {
    AbsoluteValueAsWritten(l);
    if SVal(l) < 0 && l.lo == B - 1 {
      var hi: int := l.hi;
      DivModUnique(-SVal(l) - 1, B, -hi - 1, 0);
    }
  }

  /** The leading power of two of n, doubled. */
  lemma NextPower(n: nat)
    requires 0 < n < M
    ensures var x := Pow2(Msb(n) + 1);
      && n < x <= 2 * n && Sized(x) && 2 <= x <= M && LowOnes(Msb(n) + 1) == (x - 1) % M
  {
    MsbBelow128(n);
    Pow2Values();
    if Msb(n) > 0 {
      PowerSizes(Msb(n) + 1);
    }
    Pow2Monotone(Msb(n) + 1, 128);
    assert Pow2(Msb(n) + 1) == 2 * Pow2(Msb(n));
  }

  /**
   * When the signed quotient comes out right in constant evaluation: the quotient is x - 1, where x
   * is the least power of two above the dividend. Negated it is -x below 2^64, 0 at 2^64, and
   * 2^64 - x above.
   */
  predicate LuckyConstantQuotient(a: int, b: int, x: int) {
    if (a < 0) == (b < 0) then (Magnitude(b) == 1 && Magnitude(a) == x - 1) || (a == -2 && b == -2)
    else if x < B then b == 1 && a == -x
    else if x == B then Magnitude(a) < Magnitude(b)
    else (Magnitude(b) == 1 && Magnitude(a) == x - B) || (a == -2 * B && b == 2)
  }

  lemma ConstantQuotientExactly(a: int, b: int, n: nat, m: U128, q: int)
    requires b != 0 && -(M / 2) <= a < M / 2 && n < M && IsDividendOf(n, a) && !(a < 0 && n == 0)
    requires Val(m) == if n == 0 then 1 else LowOnes(Msb(n) + 1)
    requires q == if (a < 0) != (b < 0) then SVal(ToSigned(NegAsWritten(m))) else SVal(ToSigned(m))
    ensures IsTruncatedQuotient(a, b, q) <==> n > 0 && LuckyConstantQuotient(a, b, Pow2(Msb(n) + 1))
  {
    if n == 0 {
      NegAsWrittenValue(m);
      LimbsOf(m, 0, 1);
      NotTruncated(a, b, q);
    } else {
      NextPower(n);
      var x := Pow2(Msb(n) + 1);
      QuotientReadings(m, x);
      TruncatedBySize(a, b, q);
      if (a < 0) == (b < 0) {
        SameSigns(a, b, n, x, q);
      } else if x <= B {
        SmallOppositeSigns(a, b, n, x, q);
      } else {
        LargeOppositeSigns(a, b, n, x, q);
      }
    }
  }

  lemma SameSigns(a: int, b: int, n: nat, x: int, q: int)
    requires b != 0 && a != 0 && -(M / 2) <= a < M / 2 && 0 < n && IsDividendOf(n, a) && (a < 0) == (b < 0)
    requires n < x <= 2 * n && Sized(x) && 2 <= x <= M && DecidedBySize(a, b, q)
    requires q == if x <= M / 2 then x - 1 else -1
    ensures IsTruncatedQuotient(a, b, q) <==> LuckyConstantQuotient(a, b, x)
  {
    hide IsTruncatedQuotient;
  }

  lemma SmallOppositeSigns(a: int, b: int, n: nat, x: int, q: int)
    requires b != 0 && a != 0 && 0 < n && IsDividendOf(n, a) && (a < 0) != (b < 0)
    requires n < x <= 2 * n && 2 <= x <= B && DecidedBySize(a, b, q)
    requires q == if x < B then -x else 0
    ensures IsTruncatedQuotient(a, b, q) <==> LuckyConstantQuotient(a, b, x)
  {
    hide IsTruncatedQuotient;
  }

  lemma LargeOppositeSigns(a: int, b: int, n: nat, x: int, q: int)
    requires b != 0 && a != 0 && -(M / 2) <= a < M / 2 && 0 < n && IsDividendOf(n, a) && (a < 0) != (b < 0)
    requires n < x <= 2 * n && Sized(x) && B < x <= M && DecidedBySize(a, b, q)
    requires q == if x <= M / 2 then B - x else B
    ensures IsTruncatedQuotient(a, b, q) <==> LuckyConstantQuotient(a, b, x)
  {
    hide IsTruncatedQuotient;
  }

  /**
   * The quotient as written is the truncated one exactly for a few operands: at run time of
   * different signs, in constant evaluation others.
   */
  method SDivAsWritten(l: S128, r: S128, constant: bool) returns (q: S128)
    requires SVal(r) != 0
    ensures !constant ==>
      (IsTruncatedQuotient(SVal(l), SVal(r), SVal(q)) <==>
        LuckyQuotient(SVal(l), SVal(r), Val(UnsignedAbsoluteValueAsWritten(l))))
    ensures constant ==>
      (IsTruncatedQuotient(SVal(l), SVal(r), SVal(q)) <==>
        var n := Val(UnsignedAbsoluteValueAsWritten(l));
        n > 0 && LuckyConstantQuotient(SVal(l), SVal(r), Pow2(Msb(n) + 1)))
  {
    hide NegAsWritten, UnsignedAbsoluteValueAsWritten, LuckyQuotient, LuckyConstantQuotient, IsTruncatedQuotient, LowOnes, Magnitude;
    var dividend := UnsignedAbsoluteValueAsWritten(l);
    var quotient, remainder := DivModAsWritten(dividend, UnsignedAbsoluteValueAsWritten(r), constant);
    DividendBounds(l, Val(dividend));
    ghost var m := quotient;
    if (l.hi < 0) != (r.hi < 0) {
      quotient := NegAsWritten(quotient);
    }
    q := ToSigned(quotient);
    if constant {
      DividendOf(l);
      ConstantQuotientExactly(SVal(l), SVal(r), Val(dividend), m, SVal(q));
    } else {
      QuotientExactly(SVal(l), SVal(r), Val(dividend), m, SVal(q));
    }
  }

  /** The remainder as written: the dividend, moved by 2^64 when it is negative and its low limb is 0 or all ones. */
  function RemainderAsWritten(l: S128): S128 {
    var dividend := UnsignedAbsoluteValueAsWritten(l);
    ToSigned(if l.hi < 0 then NegAsWritten(dividend) else dividend)
  }

  lemma RemainderValue(l: S128)
    ensures SVal(l) >= 0 || (l.lo != 0 && l.lo != B - 1) ==> SVal(RemainderAsWritten(l)) == SVal(l)
    ensures SVal(l) < 0 && l.lo == 0 ==> SVal(RemainderAsWritten(l)) == SVal(l) + B
    ensures SVal(l) < 0 && l.lo == B - 1 ==>
      SVal(RemainderAsWritten(l)) == SVal(l) - B || SVal(RemainderAsWritten(l)) > 0
  {
    if l.hi < 0 {
      NegatedTwice(l, l.hi, l.lo);
    }
  }

  /** Complementing a negative number twice, with the two carries. */
  lemma NegatedTwice(l: S128, hi: int, lo: int)
    requires hi == l.hi < 0 && lo == l.lo
    ensures NegAsWritten(NegAsWritten(Unsigned(l))) ==
      if lo == B - 1 then U128(B - 1 + hi, B - 1)
      else if lo == 0 then U128(if hi == -1 then 0 else B + hi + 1, 0)
      else U128(B + hi, lo)
  {
    assert Unsigned(l) == U128(B + hi, lo);
    if lo == B - 1 {
      assert NegAsWritten(U128(B + hi, lo)) == U128(-hi, 0);
    } else {
      assert NegAsWritten(U128(B + hi, lo)) == U128(-1 - hi, B - 1 - lo);
    }
  }

  ghost predicate Divides(d: int, n: int) {
    exists q: int :: d * q == n
  }

  ghost predicate IsTruncatedRemainder(a: int, b: int, rem: int) {
    exists q: int :: Truncates(a, b, q, rem)
  }

  /** When the remainder comes out right. */
  ghost predicate LuckyRemainder(l: S128, b: int) {
    if SVal(l) < 0 && l.lo == 0 then SVal(l) == -B && Divides(b, -B)
    else !(SVal(l) < 0 && l.lo == B - 1) && Magnitude(SVal(l)) < Magnitude(b)
  }

  lemma OwnRemainder(a: int, b: int)
    requires b != 0
    ensures IsTruncatedRemainder(a, b, a) <==> Magnitude(a) < Magnitude(b)
  {
    if Magnitude(a) < Magnitude(b) {
      assert b * 0 == 0;
      assert Truncates(a, b, 0, a);
    }
  }

  /** A remainder that is off by 2^64 is right only for minus 2^64. */
  lemma OffByLimb(a: int, b: int)
    requires b != 0 && a <= -B && (a == -B || a <= -2 * B)
    ensures IsTruncatedRemainder(a, b, a + B) <==> a == -B && Divides(b, -B)
  {
    if IsTruncatedRemainder(a, b, a + B) {
      var q: int :| Truncates(a, b, q, a + B);
      assert b * q == -B;
      ProductMagnitude(b, q);
    }
    if a == -B && Divides(b, -B) {
      var q: int :| b * q == -B;
      assert Truncates(a, b, q, 0);
    }
  }

  lemma OffTheOtherWay(a: int, b: int, rem: int)
    requires b != 0 && a < 0 && (rem == a - B || rem > 0)
    ensures !IsTruncatedRemainder(a, b, rem)
  {
  }

  lemma MultipleOfLimb(l: S128)
    requires SVal(l) < 0 && l.lo == 0
    ensures SVal(l) == -B || SVal(l) <= -2 * B
  {
  }

  /** The remainder as written is right exactly for the operands that LuckyRemainder names, at any time. */
  method SModAsWritten(l: S128, r: S128, constant: bool) returns (rem: S128)
    requires SVal(r) != 0
    ensures IsTruncatedRemainder(SVal(l), SVal(r), SVal(rem)) <==> LuckyRemainder(l, SVal(r))
  {
    hide NegAsWritten, IsTruncatedRemainder, LowOnes, Divides;
    var dividend := UnsignedAbsoluteValueAsWritten(l);
    var quotient, remainder := DivModAsWritten(dividend, UnsignedAbsoluteValueAsWritten(r), constant);
    ValInjective(remainder, dividend);
    if l.hi < 0 {
      remainder := NegAsWritten(remainder);
    }
    rem := ToSigned(remainder);
    RemainderValue(l);
    if SVal(l) < 0 && l.lo == 0 {
      MultipleOfLimb(l);
      OffByLimb(SVal(l), SVal(r));
    } else if SVal(l) < 0 && l.lo == B - 1 {
      OffTheOtherWay(SVal(l), SVal(r), SVal(rem));
    } else {
      OwnRemainder(SVal(l), SVal(r));
    }
  }
}

/** Powers of two, remainders and bitwise or on natural numbers. */
module Powers {

  function Pow2(k: nat): (p: nat)
    ensures p >= 1
  {
    if k == 0 then 1 else 2 * Pow2(k - 1)
  }

  lemma {:induction false} Pow2Add(a: nat, b: nat)
    ensures Pow2(a + b) == Pow2(a) * Pow2(b)
  {
    if a > 0 {
      Pow2Add(a - 1, b);
      DoubleProduct(Pow2(a - 1), Pow2(b));
    }
  }

  lemma DoubleProduct(x: int, y: int)
    ensures (2 * x) * y == 2 * (x * y)
  {
  }

  lemma {:induction false} Pow2Monotone(a: nat, b: nat)
    requires a <= b
    ensures Pow2(a) <= Pow2(b)
  {
    if a < b {
      Pow2Monotone(a, b - 1);
    }
  }

  lemma Pow2Square(k: nat, p: nat)
    requires Pow2(k) == p
    ensures Pow2(2 * k) == p * p
  {
    Pow2Add(k, k);
  }

  lemma Pow2Values()
    ensures Pow2(32) == 0x1_0000_0000
    ensures Pow2(64) == 0x1_0000_0000_0000_0000
    ensures Pow2(128) == 0x1_0000_0000_0000_0000_0000_0000_0000_0000
  {
    assert Pow2(4) == 0x10;
    Pow2Square(4, 0x10);
    Pow2Square(8, 0x100);
    Pow2Square(16, 0x1_0000);
    Pow2Square(32, 0x1_0000_0000);
    Pow2Square(64, 0x1_0000_0000_0000_0000);
  }

  /** Quotient and remainder are the only pair of their kind. */
  lemma DivModUnique(x: int, m: int, q: int, r: int)
    requires m > 0 && x == q * m + r && 0 <= r < m
    ensures x / m == q && x % m == r
  {
    var q', r' := x / m, x % m;
    assert x == q' * m + r';
    StepsApart(q, q', m);
    StepsApart(q', q, m);
  }

  lemma StepsApart(p: int, q: int, m: int)
    requires m > 0
    ensures p < q ==> p * m + m <= q * m
  {
    if p < q {
      MulMonotone(p + 1, q, m);
      Distribute(p, 1, m);
    }
  }

  lemma MulMonotone(a: int, b: int, m: int)
    requires m >= 0
    ensures a <= b ==> a * m <= b * m
  {
    assert a <= b ==> (b - a) * m >= 0;
  }

  lemma MulAssociates(a: int, b: int, c: int)
    ensures (a * b) * c == a * (b * c)
    ensures (a * b) * c == (a * c) * b
  {
  }

  /** x below p q has a quotient by q below p. */
  lemma QuotientBelow(x: int, p: int, q: int)
    requires q > 0 && 0 <= x < p * q
    ensures 0 <= x / q < p
  {
    var a, b := x / q, x % q;
    assert x == a * q + b;
    MulMonotone(p, a, q);
  }

  lemma QuotientAtMost(x: int, p: int)
    requires x >= 0 && p >= 1
    ensures 0 <= x / p <= x
  {
    var a, b := x / p, x % p;
    assert x == a * p + b;
    MulMonotone(1, p, a);
  }

  lemma ModShift(x: int, k: int, m: int)
    requires m > 0
    ensures (x + k * m) % m == x % m
  {
    assert x + k * m == (x / m + k) * m + x % m by {
      Distribute(x / m, k, m);
    }
    DivModUnique(x + k * m, m, x / m + k, x % m);
  }

  lemma Distribute(a: int, b: int, m: int)
    ensures (a + b) * m == a * m + b * m
    ensures (a - b) * m == a * m - b * m
  {
  }

  lemma ModAddLeft(x: int, y: int, m: int)
    requires m > 0
    ensures (x % m + y) % m == (x + y) % m
  {
    ModShift(x % m + y, x / m, m);
  }

  /** Bitwise or. */
  function Or(x: nat, y: nat): nat {
    if x == 0 && y == 0 then 0
    else 2 * Or(x / 2, y / 2) + (if x % 2 == 1 || y % 2 == 1 then 1 else 0)
  }

  lemma {:induction false} OrZero(y: nat)
    ensures Or(0, y) == y
  {
    if y > 0 {
      OrZero(y / 2);
    }
  }

  /** Or of numbers without a common bit is their sum. */
  lemma {:induction false} OrDisjoint(x: nat, k: nat, y: nat)
    requires y < Pow2(k)
    ensures Or(x * Pow2(k), y) == x * Pow2(k) + y
  {
    if k == 0 {
      OrWithZero(x);
    } else {
      var p := Pow2(k - 1);
      assert x * Pow2(k) == 2 * (x * p);
      var z := x * p;
      assert x * Pow2(k) / 2 == z && x * Pow2(k) % 2 == 0;
      OrDisjoint(x, k - 1, y / 2);
    }
  }

  lemma {:induction false} OrWithZero(x: nat)
    ensures Or(x, 0) == x
  {
    if x > 0 {
      OrWithZero(x / 2);
    }
  }

  lemma {:induction false} OrCommutes(x: nat, y: nat)
    ensures Or(x, y) == Or(y, x)
  {
    if x > 0 || y > 0 {
      OrCommutes(x / 2, y / 2);
    }
  }

  lemma {:induction false} OrBound(x: nat, y: nat, k: nat)
    requires x < Pow2(k) && y < Pow2(k)
    ensures Or(x, y) < Pow2(k)
  {
    if k > 0 && (x > 0 || y > 0) {
      OrBound(x / 2, y / 2, k - 1);
    }
  }
}

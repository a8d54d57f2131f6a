/** Rounding up to a power of two. */
module PowersOfTwo {

  predicate IsPow2(n: nat) {
    n == 1 || (n > 0 && n % 2 == 0 && IsPow2(n / 2))
  }

  /** The least power of two that is at least x. */
  function CeilPow2(x: nat): (r: nat)
    ensures IsPow2(r) && x <= r && (r == 1 || r < 2 * x)
  {
    if x <= 1 then 1 else 2 * CeilPow2((x + 1) / 2)
  }

  lemma {:induction false} PowersApart(a: nat, b: nat)
    requires IsPow2(a) && IsPow2(b) && a < b
    ensures 2 * a <= b
  {
    if a > 1 {
      PowersApart(a / 2, b / 2);
    }
  }

  /** No smaller power of two will do. */
  lemma CeilPow2IsLeast(x: nat, p: nat)
    requires IsPow2(p) && x <= p
    ensures CeilPow2(x) <= p
  {
    if p < CeilPow2(x) {
      PowersApart(p, CeilPow2(x));
    }
  }

  /** The least power of two that is at least x. */
  ghost predicate IsLeastPow2(power: nat, x: nat) {
    IsPow2(power) && x <= power && forall p :: IsPow2(p) && x <= p ==> power <= p
  }

  lemma CeilPow2IsLeastPow2(x: nat)
    ensures IsLeastPow2(CeilPow2(x), x)
  {
    forall p | IsPow2(p) && x <= p
      ensures CeilPow2(x) <= p
    {
      CeilPow2IsLeast(x, p);
    }
  }

  lemma CeilPow2Unique(x: nat, p: nat)
    requires IsPow2(p) && x <= p && (p == 1 || p < 2 * x)
    ensures p == CeilPow2(x)
  {
    CeilPow2IsLeast(x, p);
    if CeilPow2(x) < p {
      PowersApart(CeilPow2(x), p);
    }
  }

  /** The loop that computes it, one bit at a time. */
  method CeilPow2Loop(x: nat) returns (power: nat)
    ensures power == CeilPow2(x) && IsLeastPow2(power, x)
  {
    CeilPow2IsLeastPow2(x);
    if x <= 1 {
      return 1;
    }
    power := 2;
    var y: nat := (x - 1) / 2;
    while y != 0
      invariant power * CeilPow2(y + 1) == CeilPow2(x)
    {
      assert (y + 2) / 2 == y / 2 + 1;
      MoveFactor(power, CeilPow2(y / 2 + 1));
      power := 2 * power;
      y := y / 2;
    }
  }

  lemma MoveFactor(p: int, c: int)
    ensures p * (2 * c) == (2 * p) * c
  {
  }
}

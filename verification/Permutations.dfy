/** Permutations as sequences, and their sign by counting inversions. */
module Permutations {

  ghost predicate IsPermutation(p: seq<int>) {
    && (forall i :: 0 <= i < |p| ==> 0 <= p[i] < |p|)
    && (forall i, k :: 0 <= i < k < |p| ==> p[i] != p[k])
    && (forall r :: 0 <= r < |p| ==> r in p)
  }

  ghost function Swapped<T>(s: seq<T>, a: nat, b: nat): (r: seq<T>)
    requires a < |s| && b < |s|
    ensures |r| == |s|
  {
    s[a := s[b]][b := s[a]]
  }

  lemma SwappedIsPermutation(p: seq<int>, a: nat, b: nat)
    requires a < |p| && b < |p| && IsPermutation(p)
    ensures IsPermutation(Swapped(p, a, b))
  {
    var q := Swapped(p, a, b);
    forall r | 0 <= r < |q|
      ensures r in q
    {
      assert r in p;
      var k :| 0 <= k < |p| && p[k] == r;
      assert q[if k == a then b else if k == b then a else k] == r;
    }
  }

  /** How many elements of s are smaller than x. */
  ghost function Smaller(s: seq<int>, x: int): nat {
    if s == [] then 0 else (if s[0] < x then 1 else 0) + Smaller(s[1..], x)
  }

  /** The number of pairs of positions whose values are out of order. */
  ghost function Inversions(s: seq<int>): nat {
    if s == [] then 0 else Smaller(s[1..], s[0]) + Inversions(s[1..])
  }

  /** The sign of a permutation: 1 when the number of inversions is even, -1 when it is odd. */
  ghost function Sign(s: seq<int>): int {
    if Inversions(s) % 2 == 0 then 1 else -1
  }

  lemma {:induction false} SmallerSwap(s: seq<int>, a: nat, x: int)
    requires a + 1 < |s|
    ensures Smaller(Swapped(s, a, a + 1), x) == Smaller(s, x)
  {
    var t := Swapped(s, a, a + 1);
    if a == 0 {
      assert s[1..][1..] == t[1..][1..];
    } else {
      assert t[1..] == Swapped(s[1..], a - 1, a);
      SmallerSwap(s[1..], a - 1, x);
    }
  }

  /** Exchanging two neighbours turns exactly one pair around. */
  lemma {:induction false} NeighbourSwapInversions(s: seq<int>, a: nat)
    requires a + 1 < |s| && s[a] != s[a + 1]
    ensures Inversions(Swapped(s, a, a + 1)) == Inversions(s) + if s[a] < s[a + 1] then 1 else -1
  {
    var t := Swapped(s, a, a + 1);
    if a == 0 {
      var rest := s[2..];
      assert s[1..][1..] == rest && t[1..][1..] == rest;
      assert Smaller(s[1..], s[0]) == (if s[1] < s[0] then 1 else 0) + Smaller(rest, s[0]);
      assert Smaller(t[1..], s[1]) == (if s[0] < s[1] then 1 else 0) + Smaller(rest, s[1]);
      assert Inversions(s) == Smaller(s[1..], s[0]) + Smaller(rest, s[1]) + Inversions(rest);
      assert Inversions(t) == Smaller(t[1..], s[1]) + Smaller(rest, s[0]) + Inversions(rest);
    } else {
      assert t[1..] == Swapped(s[1..], a - 1, a);
      NeighbourSwapInversions(s[1..], a - 1);
      SmallerSwap(s[1..], a - 1, s[0]);
    }
  }

  lemma NeighbourSwapFlips(s: seq<int>, a: nat)
    requires a + 1 < |s| && s[a] != s[a + 1]
    ensures Sign(Swapped(s, a, a + 1)) == -Sign(s)
  {
    hide Inversions, Swapped;
    NeighbourSwapInversions(s, a);
  }

  /** Exchanging any two positions of a permutation flips its sign. */
  lemma {:induction false} SwapFlips(s: seq<int>, a: nat, b: nat)
    requires a < b < |s|
    requires forall i, k :: 0 <= i < k < |s| ==> s[i] != s[k]
    ensures Sign(Swapped(s, a, b)) == -Sign(s)
    decreases b - a
  {
    NeighbourSwapFlips(s, a);
    if a + 1 < b {
      var s1 := Swapped(s, a, a + 1);
      SwapFlips(s1, a + 1, b);
      var s2 := Swapped(s1, a + 1, b);
      NeighbourSwapFlips(s2, a);
      assert Swapped(s2, a, a + 1) == Swapped(s, a, b);
    }
  }

  lemma {:induction false} SmallerNone(s: seq<int>, x: int)
    requires forall i :: 0 <= i < |s| ==> x <= s[i]
    ensures Smaller(s, x) == 0
  {
    if s != [] {
      SmallerNone(s[1..], x);
    }
  }

  lemma {:induction false} IncreasingHasNoInversions(s: seq<int>)
    requires forall i, k :: 0 <= i < k < |s| ==> s[i] < s[k]
    ensures Inversions(s) == 0
  {
    if s != [] {
      SmallerNone(s[1..], s[0]);
      IncreasingHasNoInversions(s[1..]);
    }
  }
}

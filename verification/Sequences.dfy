/** Sums of sequences, and sequences whose elements all differ. */
module Sequences {

  function Sum(xs: seq<nat>): nat {
    if xs == [] then 0 else Sum(xs[..|xs| - 1]) + xs[|xs| - 1]
  }

  lemma SumNext(xs: seq<nat>, size: nat)
    ensures Sum(xs + [size]) == Sum(xs) + size
  {
    assert (xs + [size])[..|xs|] == xs;
  }

  lemma {:induction false} SumAppend(a: seq<nat>, b: seq<nat>)
    ensures Sum(a + b) == Sum(a) + Sum(b)
  {
    if b == [] {
      assert a + b == a;
    } else {
      assert (a + b)[..|a + b| - 1] == a + b[..|b| - 1];
      SumAppend(a, b[..|b| - 1]);
    }
  }

  lemma SumAround(xs: seq<nat>, i: nat)
    requires i < |xs|
    ensures Sum(xs) == Sum(xs[..i]) + xs[i] + Sum(xs[i + 1..])
  {
    assert xs == xs[..i] + [xs[i]] + xs[i + 1..];
    SumAppend(xs[..i] + [xs[i]], xs[i + 1..]);
    SumNext(xs[..i], xs[i]);
  }

  lemma SumUpdated(xs: seq<nat>, i: nat, size: nat)
    requires i < |xs|
    ensures Sum(xs[i := size]) == Sum(xs) - xs[i] + size
  {
    SumAround(xs, i);
    SumAround(xs[i := size], i);
  }

  lemma SumWithout(xs: seq<nat>, i: nat)
    requires i < |xs|
    ensures Sum(xs[..i] + xs[i + 1..]) == Sum(xs) - xs[i]
  {
    SumAround(xs, i);
    SumAppend(xs[..i], xs[i + 1..]);
  }

  lemma {:induction false} SumOfZeros(xs: seq<nat>)
    requires forall i :: 0 <= i < |xs| ==> xs[i] == 0
    ensures Sum(xs) == 0
  {
    if xs != [] {
      SumOfZeros(xs[..|xs| - 1]);
    }
  }

  lemma {:induction false} SumOfBits(xs: seq<nat>)
    requires forall i :: 0 <= i < |xs| ==> xs[i] <= 1
    ensures Sum(xs) <= |xs|
    ensures (exists i :: 0 <= i < |xs| && xs[i] == 0) ==> Sum(xs) < |xs|
  {
    if xs != [] {
      var rest := xs[..|xs| - 1];
      SumOfBits(rest);
      if i :| 0 <= i < |xs| && xs[i] == 0 {
        if i < |rest| {
          assert rest[i] == 0;
        }
      }
    }
  }

  predicate Distinct<T(==)>(s: seq<T>) {
    forall i, j :: 0 <= i < j < |s| ==> s[i] != s[j]
  }

  lemma SameIndex<T>(s: seq<T>, i: nat, j: nat)
    requires Distinct(s) && i < |s| && j < |s|
    ensures s[i] == s[j] <==> i == j
  {
    if i < j {
      assert s[i] != s[j];
    } else if j < i {
      assert s[j] != s[i];
    }
  }

  function Without<T>(s: seq<T>, i: nat): (r: seq<T>)
    requires i < |s|
    ensures |r| == |s| - 1
    ensures forall k :: 0 <= k < i ==> r[k] == s[k]
    ensures forall k :: i <= k < |r| ==> r[k] == s[k + 1]
  {
    s[..i] + s[i + 1..]
  }

  lemma WithoutIsDistinct<T>(s: seq<T>, i: nat)
    requires Distinct(s) && i < |s|
    ensures Distinct(Without(s, i)) && s[i] !in Without(s, i)
    ensures forall x :: x in Without(s, i) ==> x in s
  {
    var r := Without(s, i);
    forall j, k | 0 <= j < k < |r|
      ensures r[j] != r[k]
    {
      SameIndex(s, if j < i then j else j + 1, if k < i then k else k + 1);
    }
    forall k | 0 <= k < |r|
      ensures r[k] != s[i] && r[k] in s
    {
      SameIndex(s, if k < i then k else k + 1, i);
    }
  }
}

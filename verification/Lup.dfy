/** LU decomposition with partial pivoting, overwriting one matrix in place. */
module Lup {
  import opened Matrices
  import opened Permutations

  function Abs(x: real): (r: real)
    ensures r >= 0.0 && (r == x || r == -x)
  {
    if x < 0.0 then -x else x
  }

  function Min(a: nat, b: nat): nat {
    if a < b then a else b
  }

  /** The rows of a two-dimensional array. */
  ghost function Rows(a: array2<real>): (m: Matrix)
    reads a
    ensures IsMatrix(m, a.Length0, a.Length1)
    ensures forall i, k :: 0 <= i < a.Length0 && 0 <= k < a.Length1 ==> m[i][k] == a[i, k]
  {
    seq(a.Length0, i requires 0 <= i < a.Length0 reads a =>
      seq(a.Length1, k requires 0 <= k < a.Length1 reads a => a[i, k]))
  }

  ghost predicate UnitLower(l: Matrix, n: nat)
    requires IsMatrix(l, n, n)
  {
    forall i, k :: 0 <= i < n && 0 <= k < n && i <= k ==> l[i][k] == if i == k then 1.0 else 0.0
  }

  ghost predicate BoundedByOne(l: Matrix, n: nat)
    requires IsMatrix(l, n, n)
  {
    forall i, k :: 0 <= i < n && 0 <= k < n ==> Abs(l[i][k]) <= 1.0
  }

  ghost predicate Upper(u: Matrix, n: nat)
    requires IsMatrix(u, n, n)
  {
    forall i, k :: 0 <= i < n && 0 <= k < n && k < i ==> u[i][k] == 0.0
  }

  ghost predicate NoZeroPivot(u: Matrix, n: nat)
    requires IsMatrix(u, n, n)
  {
    forall i :: 0 <= i < n ==> u[i][i] != 0.0
  }

  /** What the decomposition promises: row i of l u is row p[i] of a. */
  ghost predicate IsLup(a: Matrix, l: Matrix, u: Matrix, p: seq<int>, n: nat) {
    && IsMatrix(a, n, n) && IsMatrix(l, n, n) && IsMatrix(u, n, n)
    && |p| == n && IsPermutation(p)
    && UnitLower(l, n) && BoundedByOne(l, n) && Upper(u, n)
    && forall i, k :: 0 <= i < n && 0 <= k < n ==> Product(l, u, n)[i][k] == a[p[i]][k]
  }

  /** Entry (i, k) of the array that holds both factors, after columns 0..j-1 are finished. */
  ghost predicate InPlaceAt(a: Matrix, w: Matrix, p: seq<int>, n: nat, j: nat, i: nat, k: nat)
    requires IsMatrix(a, n, n) && IsMatrix(w, n, n) && |p| == n && IsPermutation(p)
    requires i < n && k < n
  {
    a[p[i]][k] == Entry(w, w, i, k, Min(j, Min(i, k + 1))) + (if k < j && k < i then 0.0 else w[i][k])
  }

  ghost predicate InPlace(a: Matrix, w: Matrix, p: seq<int>, n: nat, j: nat) {
    && IsMatrix(a, n, n) && IsMatrix(w, n, n) && |p| == n && IsPermutation(p)
    && (forall i, k :: 0 <= i < n && 0 <= k < n ==> InPlaceAt(a, w, p, n, j, i, k))
    && (forall i, k :: 0 <= i < n && 0 <= k < n && k < j && k < i ==> Abs(w[i][k]) <= 1.0)
  }

  lemma StartInPlace(a: Matrix, p: seq<int>, n: nat)
    requires IsMatrix(a, n, n) && |p| == n
    requires forall i :: 0 <= i < n ==> p[i] == i
    ensures InPlace(a, a, p, n, 0)
    ensures Sign(p) == 1
  {
    forall r | 0 <= r < n
      ensures r in p
    {
      assert p[r] == r;
    }
    IncreasingHasNoInversions(p);
  }

  /** Swapping two unfinished rows, together with their permutation entries, keeps the invariant. */
  lemma SwapKeepsInPlace(a: Matrix, w: Matrix, p: seq<int>, n: nat, j: nat, l: nat)
    requires j <= l < n && InPlace(a, w, p, n, j)
    ensures InPlace(a, Swapped(w, j, l), Swapped(p, j, l), n, j)
  {
    var w', p' := Swapped(w, j, l), Swapped(p, j, l);
    SwappedIsPermutation(p, j, l);
    forall i, k | 0 <= i < n && 0 <= k < n
      ensures InPlaceAt(a, w', p', n, j, i, k)
    {
      var i0 := if i == j then l else if i == l then j else i;
      assert InPlaceAt(a, w, p, n, j, i0, k);
      EntryFrame(w, w, w', w', i0, i, k, Min(j, Min(i, k + 1)));
    }
  }

  /** A column without a nonzero candidate is already finished. */
  lemma SkipKeepsInPlace(a: Matrix, w: Matrix, p: seq<int>, n: nat, j: nat)
    requires j < n && InPlace(a, w, p, n, j)
    requires forall i :: j <= i < n ==> w[i][j] == 0.0
    ensures InPlace(a, w, p, n, j + 1)
  {
    hide IsPermutation, InPlaceAt;
    var next := j + 1;
    forall i, k | 0 <= i < n && 0 <= k < n
      ensures InPlaceAt(a, w, p, n, next, i, k)
    {
      assert InPlaceAt(a, w, p, n, j, i, k);
      SkipAt(a, w, p, n, j, i, k);
    }
  }

  lemma SkipAt(a: Matrix, w: Matrix, p: seq<int>, n: nat, j: nat, i: nat, k: nat)
    requires IsMatrix(a, n, n) && IsMatrix(w, n, n) && |p| == n && IsPermutation(p)
    requires j < n && i < n && k < n && InPlaceAt(a, w, p, n, j, i, k)
    requires forall r :: j <= r < n ==> w[r][j] == 0.0
    ensures InPlaceAt(a, w, p, n, j + 1, i, k)
  {
    hide IsPermutation;
    if i > j && k >= j {
      ZeroFactor(w[i][j], w[j][k]);
      assert Entry(w, w, i, k, j + 1) == Entry(w, w, i, k, j) + w[i][j] * w[j][k];
    }
  }

  /** Entry (r, c) before (w) and after (v) eliminating below the pivot (j, j). */
  ghost predicate EliminatedAt(w: Matrix, v: Matrix, n: nat, j: nat, r: nat, c: nat)
    requires IsMatrix(w, n, n) && IsMatrix(v, n, n) && j < n && r < n && c < n && w[j][j] != 0.0
  {
    v[r][c] ==
    if r <= j || c < j then w[r][c]
    else if c == j then w[r][j] / w[j][j]
    else w[r][c] - v[r][j] * w[j][c]
  }

  ghost predicate Eliminated(w: Matrix, v: Matrix, n: nat, j: nat) {
    && IsMatrix(w, n, n) && IsMatrix(v, n, n) && j < n && w[j][j] != 0.0
    && forall r, c :: 0 <= r < n && 0 <= c < n ==> EliminatedAt(w, v, n, j, r, c)
  }

  lemma QuotientBounded(x: real, y: real)
    requires y != 0.0 && Abs(x) <= Abs(y)
    ensures Abs(x / y) <= 1.0
  {
    if y > 0.0 {
      BoundedByPositive(x, y);
    } else {
      BoundedByNegative(x, y);
    }
  }

  lemma BoundedByPositive(x: real, y: real)
    requires y > 0.0 && -y <= x <= y
    ensures -1.0 <= x / y <= 1.0
  {
  }

  lemma BoundedByNegative(x: real, y: real)
    requires y < 0.0 && y <= x <= -y
    ensures -1.0 <= x / y <= 1.0
  {
  }

  /** The entries that elimination changes still account for the same row of the input. */
  lemma EliminationAt(a: Matrix, w: Matrix, v: Matrix, p: seq<int>, n: nat, j: nat, i: nat, k: nat)
    requires IsMatrix(a, n, n) && IsMatrix(w, n, n) && IsMatrix(v, n, n) && |p| == n && IsPermutation(p)
    requires j < i < n && j <= k < n && w[j][j] != 0.0
    requires InPlaceAt(a, w, p, n, j, i, k)
    requires Entry(v, v, i, k, j) == Entry(w, w, i, k, j)
    requires v[j][k] == w[j][k]
    requires v[i][j] == w[i][j] / w[j][j]
    requires k > j ==> v[i][k] == w[i][k] - v[i][j] * w[j][k]
    ensures InPlaceAt(a, v, p, n, j + 1, i, k)
  {
    assert v[i][j] * w[j][j] == w[i][j];
    assert Entry(v, v, i, k, j + 1) == Entry(v, v, i, k, j) + v[i][j] * w[j][k];
  }

  lemma EliminationKeepsInPlace(a: Matrix, w: Matrix, v: Matrix, p: seq<int>, n: nat, j: nat)
    requires InPlace(a, w, p, n, j) && Eliminated(w, v, n, j)
    requires forall i :: j <= i < n ==> Abs(w[i][j]) <= Abs(w[j][j])
    ensures InPlace(a, v, p, n, j + 1)
  {
    var next := j + 1;
    forall i, k | 0 <= i < n && 0 <= k < n
      ensures InPlaceAt(a, v, p, n, next, i, k)
    {
      assert InPlaceAt(a, w, p, n, j, i, k);
      assert EliminatedAt(w, v, n, j, i, k);
      var c := Min(j, Min(i, k + 1));
      forall t | 0 <= t < c
        ensures v[i][t] == w[i][t] && v[t][k] == w[t][k]
      {
        assert EliminatedAt(w, v, n, j, i, t) && EliminatedAt(w, v, n, j, t, k);
      }
      EntryFrame(w, w, v, v, i, i, k, c);
      if i > j && k >= j {
        assert EliminatedAt(w, v, n, j, i, j) && EliminatedAt(w, v, n, j, j, k);
        EliminationAt(a, w, v, p, n, j, i, k);
      }
    }
    forall i, k | 0 <= i < n && 0 <= k < n && k < next && k < i
      ensures Abs(v[i][k]) <= 1.0
    {
      assert EliminatedAt(w, v, n, j, i, k);
      if k == j {
        QuotientBounded(w[i][j], w[j][j]);
      }
    }
  }

  /** Reading the two factors out of the finished array. */
  lemma SplitIsLup(a: Matrix, w: Matrix, l: Matrix, u: Matrix, p: seq<int>, n: nat)
    requires InPlace(a, w, p, n, n) && IsMatrix(l, n, n) && IsMatrix(u, n, n)
    requires forall i, k :: 0 <= i < n && 0 <= k < n ==>
      l[i][k] == if i == k then 1.0 else if k < i then w[i][k] else 0.0
    requires forall i, k :: 0 <= i < n && 0 <= k < n ==> u[i][k] == if k < i then 0.0 else w[i][k]
    ensures IsLup(a, l, u, p, n)
  {
    forall i, k | 0 <= i < n && 0 <= k < n
      ensures Product(l, u, n)[i][k] == a[p[i]][k]
    {
      assert InPlaceAt(a, w, p, n, n, i, k);
      var c := Min(i, k + 1);
      EntryFrame(w, w, l, u, i, i, k, c);
      if i <= k {
        EntryTail(l, u, i, k, i + 1, n);
      } else {
        EntryTail(l, u, i, k, k + 1, n);
      }
    }
  }

  /**
   * Gaussian elimination with the largest remaining candidate of each column as pivot. Columns
   * whose candidates are all zero are skipped. The source leaves `largest` unset until a
   * candidate is found; it is never read before that.
   */
  method DecomposeLup(m: array2<real>) returns (l: array2<real>, u: array2<real>, p: array<int>, parity: int)
    requires m.Length0 == m.Length1
    ensures fresh(l) && fresh(u) && fresh(p)
    ensures l.Length0 == l.Length1 == u.Length0 == u.Length1 == p.Length == m.Length0
    ensures IsLup(Rows(m), Rows(l), Rows(u), p[..], m.Length0)
    ensures parity == Sign(p[..])
  {
    var n := m.Length0;
    ghost var a := Rows(m);
    l := new real[n, n];
    u := new real[n, n]((i, k) requires 0 <= i < m.Length0 && 0 <= k < m.Length1 reads m => m[i, k]);
    p := new int[n](i => i);
    parity := 1;
    assert forall i :: 0 <= i < n ==> Rows(u)[i] == a[i];
    StartInPlace(a, p[..], n);

    for j := 0 to n
      invariant InPlace(a, Rows(u), p[..], n, j)
      invariant parity == Sign(p[..])
    {
      parity := FinishColumn(a, u, p, j, parity);
    }

    ghost var w := Rows(u);
    CopyFactors(l, u);
    SplitIsLup(a, w, Rows(l), Rows(u), p[..], n);
  }

  /** One pass of the outer loop: pivoting, then elimination below the pivot. */
  method FinishColumn(ghost a: Matrix, u: array2<real>, p: array<int>, j: nat, oldParity: int) returns (parity: int)
    requires j < u.Length0 == u.Length1 == p.Length
    requires InPlace(a, Rows(u), p[..], p.Length, j)
    requires oldParity == Sign(p[..])
    modifies u, p
    ensures InPlace(a, Rows(u), p[..], p.Length, j + 1)
    ensures parity == Sign(p[..])
  {
    var n := u.Length0;
    var pivot, largest := FindPivot(u, j);
    if pivot == 0.0 {
      SkipKeepsInPlace(a, Rows(u), p[..], n, j);
      return oldParity;
    }
    ghost var w, q := Rows(u), p[..];
    SwapKeepsInPlace(a, w, q, n, j, largest);
    if j != largest {
      SwapFlips(q, j, largest);
    } else {
      assert Swapped(q, j, j) == q;
    }
    p[j], p[largest] := p[largest], p[j];
    assert p[..] == Swapped(q, j, largest);
    parity := oldParity * (if j != largest then -1 else 1);
    SwapRows(u, j, largest);
    PivotOnTop(w, n, j, largest);
    w := Rows(u);
    EliminateBelow(u, j);
    EliminationKeepsInPlace(a, w, Rows(u), p[..], n, j);
  }

  lemma PivotOnTop(w: Matrix, n: nat, j: nat, largest: nat)
    requires IsMatrix(w, n, n) && j <= largest < n && w[largest][j] != 0.0
    requires forall i :: j <= i < n ==> Abs(w[i][j]) <= Abs(w[largest][j])
    ensures var s := Swapped(w, j, largest);
      s[j][j] != 0.0 && forall i :: j <= i < n ==> Abs(s[i][j]) <= Abs(s[j][j])
  {
  }

  /** The search for the pivot of column j. A zero pivot means every candidate is zero. */
  method FindPivot(u: array2<real>, j: nat) returns (pivot: real, largest: nat)
    requires j < u.Length0 == u.Length1
    ensures forall i :: j <= i < u.Length0 ==> Abs(u[i, j]) <= pivot
    ensures pivot >= 0.0
    ensures pivot > 0.0 ==> j <= largest < u.Length0 && Abs(u[largest, j]) == pivot
  {
    pivot := 0.0;
    largest := j;
    for i := j to u.Length0
      invariant pivot >= 0.0
      invariant forall r :: j <= r < i ==> Abs(u[r, j]) <= pivot
      invariant pivot > 0.0 ==> j <= largest < i && Abs(u[largest, j]) == pivot
    {
      if Abs(u[i, j]) > pivot {
        largest := i;
        pivot := Abs(u[i, j]);
      }
    }
  }

  method SwapRows(u: array2<real>, a: nat, b: nat)
    requires a < u.Length0 && b < u.Length0
    modifies u
    ensures Rows(u) == Swapped(old(Rows(u)), a, b)
  {
    ghost var w := Rows(u);
    for k := 0 to u.Length1
      invariant forall i, c :: 0 <= i < u.Length0 && 0 <= c < u.Length1 ==>
        u[i, c] == if c < k then Swapped(w, a, b)[i][c] else w[i][c]
    {
      u[a, k], u[b, k] := u[b, k], u[a, k];
    }
    assert forall i :: 0 <= i < u.Length0 ==> Rows(u)[i] == Swapped(w, a, b)[i];
  }

  method EliminateBelow(u: array2<real>, j: nat)
    requires j < u.Length0 == u.Length1 && u[j, j] != 0.0
    modifies u
    ensures Eliminated(old(Rows(u)), Rows(u), u.Length0, j)
  {
    var n := u.Length0;
    ghost var w := Rows(u);
    for i := j + 1 to n
      invariant forall r, c :: i <= r < n && 0 <= c < n ==> u[r, c] == w[r][c]
      invariant forall r, c :: 0 <= r < i && 0 <= c < n ==> EliminatedAt(w, Rows(u), n, j, r, c)
    {
      EliminateRow(u, w, j, i);
    }
  }

  /** The elimination of one row below the pivot. */
  method EliminateRow(u: array2<real>, ghost w: Matrix, j: nat, i: nat)
    requires j < i < u.Length0 == u.Length1 && IsMatrix(w, u.Length0, u.Length0) && w[j][j] != 0.0
    requires forall r, c :: i <= r < u.Length0 && 0 <= c < u.Length0 ==> u[r, c] == w[r][c]
    requires forall r, c :: 0 <= r < i && 0 <= c < u.Length0 ==> EliminatedAt(w, Rows(u), u.Length0, j, r, c)
    modifies u
    ensures forall r, c :: i < r < u.Length0 && 0 <= c < u.Length0 ==> u[r, c] == w[r][c]
    ensures forall r, c :: 0 <= r <= i && 0 <= c < u.Length0 ==> EliminatedAt(w, Rows(u), u.Length0, j, r, c)
  {
    var n := u.Length0;
    ghost var before := Rows(u);
    forall c | 0 <= c < n
      ensures u[j, c] == w[j][c]
    {
      assert EliminatedAt(w, before, n, j, j, c);
    }
    SubtractRow(u, j, i);
    forall r, c | 0 <= r <= i && 0 <= c < n
      ensures EliminatedAt(w, Rows(u), n, j, r, c)
    {
      if r < i {
        assert EliminatedAt(w, before, n, j, r, c);
      }
    }
  }

  /** Keeps the factor in the column of the pivot and takes that many pivot rows from the rest. */
  method SubtractRow(u: array2<real>, j: nat, i: nat)
    requires j < i < u.Length0 == u.Length1 && u[j, j] != 0.0
    modifies u
    ensures forall r, c :: 0 <= r < u.Length0 && 0 <= c < u.Length0 && (r != i || c < j) ==> u[r, c] == old(u[r, c])
    ensures u[i, j] == old(u[i, j]) / old(u[j, j])
    ensures forall c :: j < c < u.Length0 ==> u[i, c] == old(u[i, c]) - u[i, j] * old(u[j, c])
  {
    u[i, j] := u[i, j] / u[j, j];
    for k := j + 1 to u.Length0
      invariant forall r, c :: 0 <= r < u.Length0 && 0 <= c < u.Length0 && (r != i || k <= c || c < j) ==> u[r, c] == old(u[r, c])
      invariant u[i, j] == old(u[i, j]) / old(u[j, j])
      invariant forall c :: j < c < k ==> u[i, c] == old(u[i, c]) - u[i, j] * old(u[j, c])
    {
      u[i, k] := u[i, k] - u[i, j] * u[j, k];
    }
  }

  method CopyFactors(l: array2<real>, u: array2<real>)
    requires l != u && l.Length0 == l.Length1 == u.Length0 == u.Length1
    modifies l, u
    ensures forall i, k :: 0 <= i < u.Length0 && 0 <= k < u.Length0 ==>
      l[i, k] == if i == k then 1.0 else if k < i then old(u[i, k]) else 0.0
    ensures forall i, k :: 0 <= i < u.Length0 && 0 <= k < u.Length0 ==>
      u[i, k] == if k < i then 0.0 else old(u[i, k])
  {
    var n := u.Length0;
    for j := 0 to n
      invariant forall i, k :: 0 <= i < n && 0 <= k < n && i != k && Min(i, k) < j ==>
        l[i, k] == if k < i then old(u[i, k]) else 0.0
      invariant forall i, k :: 0 <= i < n && 0 <= k < n ==>
        u[i, k] == if k < i && k < j then 0.0 else old(u[i, k])
    {
      for i := j + 1 to n
        invariant forall r, k :: 0 <= r < n && 0 <= k < n && r != k && (Min(r, k) < j || (Min(r, k) == j && r < i && k < i)) ==>
          l[r, k] == if k < r then old(u[r, k]) else 0.0
        invariant forall r, k :: 0 <= r < n && 0 <= k < n ==>
          u[r, k] == if k < r && (k < j || (k == j && r < i)) then 0.0 else old(u[r, k])
      {
        l[i, j] := u[i, j];
        u[i, j] := 0.0;
        l[j, i] := 0.0;
      }
    }
    for i := 0 to n
      invariant forall r, k :: 0 <= r < n && 0 <= k < n && (r != k || r < i) ==>
        l[r, k] == if r == k then 1.0 else if k < r then old(u[r, k]) else 0.0
      invariant forall r, k :: 0 <= r < n && 0 <= k < n ==> u[r, k] == if k < r then 0.0 else old(u[r, k])
    {
      l[i, i] := 1.0;
    }
  }
}

/** The determinant by expansion along the first column, and what row operations do to it. */
module Determinants {
  import opened Matrices
  import opened Permutations
  import opened Lup

  /** Rows of length n; as many of their last columns count as there are rows. */
  ghost predicate AreRows(s: Matrix, n: nat) {
    |s| <= n && forall i :: 0 <= i < |s| ==> |s[i]| == n
  }

  ghost function DropRow(s: Matrix, i: nat): (r: Matrix)
    requires i < |s|
    ensures |r| == |s| - 1
    ensures forall k :: 0 <= k < |r| ==> r[k] == s[if k < i then k else k + 1]
  {
    s[..i] + s[i + 1..]
  }

  function Alternate(i: nat): real {
    if i % 2 == 0 then 1.0 else -1.0
  }

  /** The determinant of the last |s| columns of these rows. */
  ghost function Det(s: Matrix, n: nat): real
    requires AreRows(s, n)
    decreases |s|, |s| + 1
  {
    if s == [] then 1.0 else Expand(s, n, |s|)
  }

  /** The first k terms of the expansion along the first column that counts. */
  ghost function Expand(s: Matrix, n: nat, k: nat): real
    requires AreRows(s, n) && k <= |s|
    decreases |s|, k
  {
    if k == 0 then 0.0 else Expand(s, n, k - 1) + Term(s, n, k - 1)
  }

  ghost function Term(s: Matrix, n: nat, i: nat): real
    requires AreRows(s, n) && i < |s|
    decreases |s|, i, 0
  {
    Weighted(Alternate(i), s[i][n - |s|], Det(DropRow(s, i), n))
  }

  function Weighted(sign: real, entry: real, minor: real): real {
    sign * (entry * minor)
  }

  // ----- exchanging rows

  lemma AlternateNext(i: nat, x: real, y: real)
    ensures Weighted(Alternate(i + 1), x, y) == -Weighted(Alternate(i), x, y)
  {
  }

  /** Exchanging two neighbours flips the sign. */
  lemma {:induction false} NeighbourSwapNegates(s: Matrix, n: nat, a: nat)
    requires AreRows(s, n) && a + 1 < |s|
    ensures AreRows(Swapped(s, a, a + 1), n) && Det(Swapped(s, a, a + 1), n) == -Det(s, n)
    decreases |s|, |s| + 1
  {
    NeighbourSwapExpand(s, n, a, |s|);
  }

  lemma {:induction false} NeighbourSwapExpand(s: Matrix, n: nat, a: nat, k: nat)
    requires AreRows(s, n) && a + 1 < |s| && k <= |s| && k != a + 1
    ensures AreRows(Swapped(s, a, a + 1), n) && Expand(Swapped(s, a, a + 1), n, k) == -Expand(s, n, k)
    decreases |s|, k
  {
    hide Term, Alternate;
    var t := Swapped(s, a, a + 1);
    if k == a + 2 {
      NeighbourSwapExpand(s, n, a, a);
      NeighbourSwapPair(s, n, a);
      assert Expand(s, n, a + 2) == Expand(s, n, a) + Term(s, n, a) + Term(s, n, a + 1);
      assert Expand(t, n, a + 2) == Expand(t, n, a) + Term(t, n, a) + Term(t, n, a + 1);
    } else if k > 0 {
      NeighbourSwapExpand(s, n, a, k - 1);
      NeighbourSwapTerm(s, n, a, k - 1);
    }
  }

  /** The terms of the two rows change places, and signs with them. */
  lemma NeighbourSwapPair(s: Matrix, n: nat, a: nat)
    requires AreRows(s, n) && a + 1 < |s|
    ensures var t := Swapped(s, a, a + 1);
      Term(t, n, a) == -Term(s, n, a + 1) && Term(t, n, a + 1) == -Term(s, n, a)
    decreases |s|, 0
  {
    hide Det, Alternate, Weighted;
    var t := Swapped(s, a, a + 1);
    assert DropRow(t, a) == DropRow(s, a + 1);
    assert DropRow(t, a + 1) == DropRow(s, a);
    AlternateNext(a, s[a + 1][n - |s|], Det(DropRow(s, a + 1), n));
    AlternateNext(a, s[a][n - |s|], Det(DropRow(s, a), n));
  }

  lemma NeighbourSwapTerm(s: Matrix, n: nat, a: nat, i: nat)
    requires AreRows(s, n) && a + 1 < |s| && i < |s| && i != a && i != a + 1
    ensures Term(Swapped(s, a, a + 1), n, i) == -Term(s, n, i)
    decreases |s|, 0
  {
    hide Det, Alternate, Weighted;
    var t := Swapped(s, a, a + 1);
    var b := if i < a then a - 1 else a;
    assert DropRow(t, i) == Swapped(DropRow(s, i), b, b + 1);
    NeighbourSwapNegates(DropRow(s, i), n, b);
    NegatedFactor(Alternate(i), s[i][n - |s|], Det(DropRow(s, i), n));
  }

  lemma NegatedFactor(x: real, y: real, z: real)
    ensures Weighted(x, y, -z) == -Weighted(x, y, z)
  {
  }

  /** Exchanging any two rows flips the sign. */
  lemma {:induction false} SwapNegates(s: Matrix, n: nat, a: nat, b: nat)
    requires AreRows(s, n) && a < b < |s|
    ensures AreRows(Swapped(s, a, b), n) && Det(Swapped(s, a, b), n) == -Det(s, n)
    decreases b - a
  {
    hide Det;
    NeighbourSwapNegates(s, n, a);
    if a + 1 < b {
      var s1 := Swapped(s, a, a + 1);
      SwapNegates(s1, n, a + 1, b);
      var s2 := Swapped(s1, a + 1, b);
      NeighbourSwapNegates(s2, n, a);
      assert Swapped(s2, a, a + 1) == Swapped(s, a, b);
    }
  }

  /** Two equal rows make the determinant zero. */
  lemma EqualRows(s: Matrix, n: nat, a: nat, b: nat)
    requires AreRows(s, n) && a < b < |s| && s[a] == s[b]
    ensures Det(s, n) == 0.0
  {
    hide Det;
    SwapNegates(s, n, a, b);
    assert Swapped(s, a, b) == s;
  }

  // ----- adding rows

  function Combined(x: real, f: real, y: real): real {
    x + f * y
  }

  /** The determinant is linear in every row. */
  lemma {:induction false} RowLinear(s: Matrix, n: nat, r: nat, x: Vector, y: Vector, w: Vector, f: real)
    requires AreRows(s, n) && r < |s| && |x| == |y| == |w| == n
    requires forall j :: 0 <= j < n ==> w[j] == x[j] + f * y[j]
    ensures Det(s[r := w], n) == Combined(Det(s[r := x], n), f, Det(s[r := y], n))
    decreases |s|, |s| + 1
  {
    hide Combined;
    RowLinearExpand(s, n, r, x, y, w, f, |s|);
  }

  lemma {:induction false} RowLinearExpand(s: Matrix, n: nat, r: nat, x: Vector, y: Vector, w: Vector, f: real, k: nat)
    requires AreRows(s, n) && r < |s| && |x| == |y| == |w| == n && k <= |s|
    requires forall j :: 0 <= j < n ==> w[j] == x[j] + f * y[j]
    ensures Expand(s[r := w], n, k) == Combined(Expand(s[r := x], n, k), f, Expand(s[r := y], n, k))
    decreases |s|, k
  {
    hide Term, Combined;
    var sw, sx, sy := s[r := w], s[r := x], s[r := y];
    if k == 0 {
      NothingCombined(f);
    } else {
      RowLinearExpand(s, n, r, x, y, w, f, k - 1);
      RowLinearTerm(s, n, r, x, y, w, f, k - 1);
      SumsCombined(Expand(sx, n, k - 1), Term(sx, n, k - 1), Expand(sy, n, k - 1), Term(sy, n, k - 1), f);
    }
  }

  lemma NothingCombined(f: real)
    ensures Combined(0.0, f, 0.0) == 0.0
  {
  }

  lemma SumsCombined(x: real, x': real, y: real, y': real, f: real)
    ensures Combined(x, f, y) + Combined(x', f, y') == Combined(x + x', f, y + y')
  {
  }

  lemma RowLinearTerm(s: Matrix, n: nat, r: nat, x: Vector, y: Vector, w: Vector, f: real, i: nat)
    requires AreRows(s, n) && r < |s| && |x| == |y| == |w| == n && i < |s|
    requires forall j :: 0 <= j < n ==> w[j] == x[j] + f * y[j]
    ensures Term(s[r := w], n, i) == Combined(Term(s[r := x], n, i), f, Term(s[r := y], n, i))
    decreases |s|, 0
  {
    hide Det, Alternate, Combined, Weighted;
    var c, rest := n - |s|, DropRow(s, i);
    if i == r {
      assert DropRow(s[r := w], i) == rest && DropRow(s[r := x], i) == rest && DropRow(s[r := y], i) == rest;
      LinearFactor(Alternate(i), x[c], y[c], w[c], Det(rest, n), f);
    } else {
      var q := if r < i then r else r - 1;
      assert DropRow(s[r := w], i) == rest[q := w];
      assert DropRow(s[r := x], i) == rest[q := x];
      assert DropRow(s[r := y], i) == rest[q := y];
      RowLinear(rest, n, q, x, y, w, f);
      LinearCofactor(Alternate(i), s[i][c], Det(rest[q := x], n), Det(rest[q := y], n), f);
    }
  }

  lemma LinearFactor(g: real, x: real, y: real, w: real, d: real, f: real)
    requires w == x + f * y
    ensures Weighted(g, w, d) == Combined(Weighted(g, x, d), f, Weighted(g, y, d))
  {
    assert w * d == x * d + f * (y * d);
    ProductLinear(g, x * d, y * d, f);
  }

  lemma LinearCofactor(g: real, e: real, x: real, y: real, f: real)
    ensures Weighted(g, e, Combined(x, f, y)) == Combined(Weighted(g, e, x), f, Weighted(g, e, y))
  {
    ProductLinear(e, x, y, f);
    ProductLinear(g, e * x, e * y, f);
  }

  lemma ProductLinear(e: real, x: real, y: real, f: real)
    ensures e * (x + f * y) == e * x + f * (e * y)
  {
  }

  // ----- the factors of a decomposition

  ghost function DiagonalProduct(u: Matrix, n: nat, c: nat): real
    requires IsMatrix(u, n, n) && c <= n
  {
    if c == 0 then 1.0 else DiagonalProduct(u, n, c - 1) * u[c - 1][c - 1]
  }

  /** Below the diagonal there is nothing to expand along. */
  lemma {:induction false} ExpandUpper(u: Matrix, n: nat, r: nat, k: nat)
    requires IsMatrix(u, n, n) && Upper(u, n) && r < n && 1 <= k <= n - r
    ensures Expand(u[r..], n, k) == u[r][r] * Det(u[r + 1..], n)
    decreases k
  {
    hide Weighted;
    var s := u[r..];
    ExpandNext(s, n, k);
    if k == 1 {
      assert DropRow(s, 0) == u[r + 1..];
      FirstWeight(s[0][r], Det(u[r + 1..], n));
    } else {
      ExpandUpper(u, n, r, k - 1);
      assert s[k - 1][r] == 0.0;
      NoWeight(Alternate(k - 1), Det(DropRow(s, k - 1), n));
    }
  }

  lemma FirstWeight(x: real, y: real)
    ensures Weighted(Alternate(0), x, y) == x * y
  {
  }

  lemma NoWeight(x: real, y: real)
    ensures Weighted(x, 0.0, y) == 0.0
  {
  }

  lemma ExpandNext(s: Matrix, n: nat, k: nat)
    requires AreRows(s, n) && 0 < k <= |s|
    ensures Expand(s, n, k) == Expand(s, n, k - 1) + Term(s, n, k - 1)
  {
  }

  /** The determinant of an upper factor is the product of its diagonal. */
  lemma {:induction false} DetUpper(u: Matrix, n: nat, r: nat)
    requires IsMatrix(u, n, n) && Upper(u, n) && r <= n
    ensures DiagonalProduct(u, n, r) * Det(u[r..], n) == DiagonalProduct(u, n, n)
    decreases n - r
  {
    if r == n {
      assert u[n..] == [];
    } else {
      DetNext(u[r..], n);
      DiagonalNext(u, n, r);
      hide Det, Expand, DiagonalProduct;
      DetUpper(u, n, r + 1);
      ExpandUpper(u, n, r, n - r);
      ProductAssociates(DiagonalProduct(u, n, r), u[r][r], Det(u[r + 1..], n));
    }
  }

  lemma DetNext(s: Matrix, n: nat)
    requires AreRows(s, n) && s != []
    ensures Det(s, n) == Expand(s, n, |s|)
  {
  }

  lemma DiagonalNext(u: Matrix, n: nat, r: nat)
    requires IsMatrix(u, n, n) && r < n
    ensures DiagonalProduct(u, n, r + 1) == DiagonalProduct(u, n, r) * u[r][r]
  {
  }

  lemma ProductAssociates(x: real, y: real, z: real)
    ensures (x * y) * z == x * (y * z)
  {
  }

  /** Row k of u, with the first c rows of u added as often as l says. */
  ghost function PartialRow(l: Matrix, u: Matrix, n: nat, k: nat, c: nat): (r: Vector)
    requires IsMatrix(l, n, n) && IsMatrix(u, n, n) && c <= k < n
    ensures |r| == n
  {
    seq(n, j requires 0 <= j < n => u[k][j] + Entry(l, u, k, j, c))
  }

  /** Adding multiples of the rows above to a row changes nothing. */
  lemma {:induction false} RowsAdded(l: Matrix, u: Matrix, n: nat, m: Matrix, k: nat, c: nat)
    requires IsMatrix(l, n, n) && IsMatrix(u, n, n) && IsMatrix(m, n, n) && c <= k < n
    requires forall t :: 0 <= t < k ==> m[t] == u[t]
    ensures Det(m[k := PartialRow(l, u, n, k, c)], n) == Det(m[k := u[k]], n)
    decreases c
  {
    hide Det, Combined;
    if c == 0 {
      assert PartialRow(l, u, n, k, 0) == u[k];
    } else {
      RowsAdded(l, u, n, m, k, c - 1);
      var f := l[k][c - 1];
      RowLinear(m, n, k, PartialRow(l, u, n, k, c - 1), u[c - 1], PartialRow(l, u, n, k, c), f);
      EqualRows(m[k := u[c - 1]], n, c - 1, k);
      AddingNothing(Det(m[k := PartialRow(l, u, n, k, c - 1)], n), f);
    }
  }

  lemma AddingNothing(x: real, f: real)
    ensures Combined(x, f, 0.0) == x
  {
  }

  /** Row k of the product with a unit lower factor. */
  lemma LastPartialRow(l: Matrix, u: Matrix, n: nat, k: nat)
    requires IsMatrix(l, n, n) && IsMatrix(u, n, n) && UnitLower(l, n) && k < n
    ensures PartialRow(l, u, n, k, k) == Product(l, u, n)[k]
  {
    forall j | 0 <= j < n
      ensures PartialRow(l, u, n, k, k)[j] == Product(l, u, n)[k][j]
    {
      EntryTail(l, u, k, j, k + 1, n);
      assert Entry(l, u, k, j, k + 1) == Entry(l, u, k, j, k) + l[k][k] * u[k][j];
    }
  }

  /** A unit lower factor does not change the determinant. */
  lemma {:induction false} DetUnitLower(l: Matrix, u: Matrix, n: nat, k: nat)
    requires IsMatrix(l, n, n) && IsMatrix(u, n, n) && UnitLower(l, n) && k <= n
    ensures Det(u[..k] + Product(l, u, n)[k..], n) == Det(u, n)
    decreases n - k
  {
    hide Det;
    var lu := Product(l, u, n);
    if k == n {
      assert u[..n] + lu[n..] == u;
    } else {
      DetUnitLower(l, u, n, k + 1);
      var m := u[..k + 1] + lu[k + 1..];
      LastPartialRow(l, u, n, k);
      RowsAdded(l, u, n, m, k, k);
      assert m[k := lu[k]] == u[..k] + lu[k..];
      assert m[k := u[k]] == m;
    }
  }

  function Signed(sign: int, d: real): real {
    sign as real * d
  }

  ghost function PermutedRows(a: Matrix, p: seq<int>, n: nat): (r: Matrix)
    requires IsMatrix(a, n, n) && |p| == n && IsPermutation(p)
    ensures IsMatrix(r, n, n)
  {
    seq(n, i requires 0 <= i < n => a[p[i]])
  }

  /** Permuting the rows multiplies the determinant with the sign of the permutation. */
  lemma {:induction false} DetPermuted(a: Matrix, p: seq<int>, n: nat, m: nat)
    requires IsMatrix(a, n, n) && |p| == n && IsPermutation(p) && m <= n
    requires forall i :: m <= i < n ==> p[i] == i
    ensures Det(PermutedRows(a, p, n), n) == Signed(Sign(p), Det(a, n))
    decreases m
  {
    hide Det, Sign, Signed;
    if m == 0 {
      IdentitySign(p);
      PlusSigned(Det(a, n));
      assert PermutedRows(a, p, n) == a;
    } else {
      var j := PlaceOf(p, n, m);
      if j == m - 1 {
        DetPermuted(a, p, n, m - 1);
      } else {
        hide IsPermutation, PermutedRows, Swapped;
        var q := Swapped(p, j, m - 1);
        DetPermuted(a, q, n, m - 1);
        SwapFlips(p, j, m - 1);
        SwapNegates(PermutedRows(a, p, n), n, j, m - 1);
        SwapPermutedRows(a, p, n, j, m - 1);
        NegatedSign(Sign(p), Det(a, n));
      }
    }
  }

  /** Where the last number that is out of place stands; a swap puts it in its place. */
  lemma PlaceOf(p: seq<int>, n: nat, m: nat) returns (j: nat)
    requires |p| == n && IsPermutation(p) && 0 < m <= n && forall i :: m <= i < n ==> p[i] == i
    ensures j < n && p[j] == m - 1 && IsPermutation(Swapped(p, j, m - 1))
    ensures var q := Swapped(p, j, m - 1); forall i :: m - 1 <= i < n ==> q[i] == i
  {
    assert m - 1 in p;
    j :| 0 <= j < n && p[j] == m - 1;
    SwappedIsPermutation(p, j, m - 1);
  }

  lemma SwapPermutedRows(a: Matrix, p: seq<int>, n: nat, j: nat, k: nat)
    requires IsMatrix(a, n, n) && |p| == n && IsPermutation(p) && j < n && k < n && IsPermutation(Swapped(p, j, k))
    ensures Swapped(PermutedRows(a, p, n), j, k) == PermutedRows(a, Swapped(p, j, k), n)
  {
  }

  lemma IdentitySign(p: seq<int>)
    requires forall i :: 0 <= i < |p| ==> p[i] == i
    ensures Sign(p) == 1
  {
    IncreasingHasNoInversions(p);
  }

  lemma NegatedSign(sign: int, d: real)
    ensures -Signed(-sign, d) == Signed(sign, d)
  {
  }

  lemma PlusSigned(d: real)
    ensures Signed(1, d) == d
  {
  }

  /** Every pivoted decomposition of a matrix gives its determinant. */
  lemma DeterminantOfLup(a: Matrix, l: Matrix, u: Matrix, p: seq<int>, n: nat)
    requires IsLup(a, l, u, p, n)
    ensures Det(a, n) == Signed(Sign(p), DiagonalProduct(u, n, n))
  {
    hide Det, DiagonalProduct, Signed, Sign;
    var lu := Product(l, u, n);
    DetUnitLower(l, u, n, 0);
    assert u[..0] + lu[0..] == lu;
    DiagonalOfUpper(u, n);
    DetPermuted(a, p, n, n);
    SameEntries(PermutedRows(a, p, n), lu, n, n);
    SignSquared(p, Det(a, n));
  }

  lemma DiagonalOfUpper(u: Matrix, n: nat)
    requires IsMatrix(u, n, n) && Upper(u, n)
    ensures Det(u, n) == DiagonalProduct(u, n, n)
  {
    hide Det;
    DetUpper(u, n, 0);
    assert u[0..] == u;
  }

  lemma SignSquared(p: seq<int>, d: real)
    ensures Signed(Sign(p), Signed(Sign(p), d)) == d
  {
  }
}

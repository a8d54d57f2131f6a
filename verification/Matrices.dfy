/** Real matrices as sequences of rows, products and linear systems. */
module Matrices {

  type Vector = seq<real>
  type Matrix = seq<seq<real>>

  ghost predicate IsMatrix(m: Matrix, rows: nat, cols: nat) {
    |m| == rows && forall i :: 0 <= i < rows ==> |m[i]| == cols
  }

  /** The first c terms of the scalar product of x and y. */
  ghost function Dot(x: Vector, y: Vector, c: nat): real
    requires c <= |x| && c <= |y|
  {
    if c == 0 then 0.0 else Dot(x, y, c - 1) + x[c - 1] * y[c - 1]
  }

  /** The first c terms of entry (i, k) of the product of x and y. */
  ghost function Entry(x: Matrix, y: Matrix, i: nat, k: nat, c: nat): real
    requires i < |x| && c <= |x[i]| && c <= |y|
    requires forall t :: 0 <= t < c ==> k < |y[t]|
  {
    if c == 0 then 0.0 else Entry(x, y, i, k, c - 1) + x[i][c - 1] * y[c - 1][k]
  }

  /** The product of a square matrix and a vector. */
  ghost function Apply(m: Matrix, y: Vector): (r: Vector)
    requires IsMatrix(m, |y|, |y|)
    ensures |r| == |y|
  {
    seq(|y|, i requires 0 <= i < |y| => Dot(m[i], y, |y|))
  }

  /** The product of two square matrices. */
  ghost function Product(x: Matrix, y: Matrix, n: nat): (r: Matrix)
    requires IsMatrix(x, n, n) && IsMatrix(y, n, n)
    ensures IsMatrix(r, n, n)
  {
    seq(n, i requires 0 <= i < n => seq(n, k requires 0 <= k < n => Entry(x, y, i, k, n)))
  }

  ghost function Identity(n: nat): (r: Matrix)
    ensures IsMatrix(r, n, n)
  {
    seq(n, i => seq(n, k => if i == k then 1.0 else 0.0))
  }

  ghost function Unit(n: nat, k: nat): (r: Vector)
    ensures |r| == n
  {
    seq(n, i => if i == k then 1.0 else 0.0)
  }

  ghost function Zeros(n: nat): (r: Vector)
    ensures |r| == n
  {
    seq(n, i => 0.0)
  }

  ghost function Column(m: Matrix, k: nat): (r: Vector)
    requires forall i :: 0 <= i < |m| ==> k < |m[i]|
    ensures |r| == |m|
  {
    seq(|m|, i requires 0 <= i < |m| => m[i][k])
  }

  /** A matrix is singular when it sends some nonzero vector to zero. */
  ghost predicate Singular(m: Matrix, n: nat)
    requires IsMatrix(m, n, n)
  {
    exists y: Vector {:trigger Apply(m, y)} :: |y| == n && y != Zeros(n) && Apply(m, y) == Zeros(n)
  }

  lemma ZeroFactor(x: real, y: real)
    requires x == 0.0 || y == 0.0
    ensures x * y == 0.0
  {
  }

  lemma {:induction false} EntryFrame(x: Matrix, y: Matrix, x': Matrix, y': Matrix, i: nat, i': nat, k: nat, c: nat)
    requires i < |x| && c <= |x[i]| && c <= |y| && i' < |x'| && c <= |x'[i']| && c <= |y'|
    requires forall t :: 0 <= t < c ==> k < |y[t]| && k < |y'[t]|
    requires forall t :: 0 <= t < c ==> x[i][t] == x'[i'][t] && y[t][k] == y'[t][k]
    ensures Entry(x, y, i, k, c) == Entry(x', y', i', k, c)
  {
    if c > 0 {
      EntryFrame(x, y, x', y', i, i', k, c - 1);
    }
  }

  /** Terms with a zero factor add nothing. */
  lemma {:induction false} EntryTail(x: Matrix, y: Matrix, i: nat, k: nat, from: nat, c: nat)
    requires i < |x| && from <= c <= |x[i]| && c <= |y|
    requires forall t :: 0 <= t < c ==> k < |y[t]|
    requires forall t :: from <= t < c ==> x[i][t] == 0.0 || y[t][k] == 0.0
    ensures Entry(x, y, i, k, c) == Entry(x, y, i, k, from)
  {
    if from < c {
      EntryTail(x, y, i, k, from, c - 1);
      ZeroFactor(x[i][c - 1], y[c - 1][k]);
    }
  }

  /** Entry (i, k) of a product is a scalar product with a column. */
  lemma {:induction false} EntryIsDot(x: Matrix, y: Matrix, i: nat, k: nat, c: nat)
    requires i < |x| && c <= |x[i]| && c <= |y|
    requires forall t :: 0 <= t < |y| ==> k < |y[t]|
    ensures Entry(x, y, i, k, c) == Dot(x[i], Column(y, k), c)
  {
    if c > 0 {
      EntryIsDot(x, y, i, k, c - 1);
    }
  }

  lemma {:induction false} DotLinear(x: Vector, y: Vector, z: Vector, w: Vector, a: real, c: nat)
    requires c <= |x| && c <= |y| && c <= |z| && c <= |w|
    requires forall t :: 0 <= t < c ==> w[t] == y[t] + a * z[t]
    ensures Dot(x, w, c) == Dot(x, y, c) + a * Dot(x, z, c)
    ensures Dot(w, x, c) == Dot(y, x, c) + a * Dot(z, x, c)
  {
    if c > 0 {
      DotLinear(x, y, z, w, a, c - 1);
      ScaledTerm(x[c - 1], y[c - 1], z[c - 1], a);
    }
  }

  lemma ScaledTerm(x: real, y: real, z: real, a: real)
    ensures x * (y + a * z) == x * y + a * (x * z)
    ensures (y + a * z) * x == y * x + a * (z * x)
  {
  }

  lemma {:induction false} DotZero(x: Vector, y: Vector, c: nat)
    requires c <= |x| && c <= |y|
    requires forall t :: 0 <= t < c ==> x[t] == 0.0 || y[t] == 0.0
    ensures Dot(x, y, c) == 0.0
  {
    if c > 0 {
      DotZero(x, y, c - 1);
      ZeroFactor(x[c - 1], y[c - 1]);
    }
  }

  /** A row that is zero except at p only sees component p. */
  lemma {:induction false} DotSingle(x: Vector, y: Vector, c: nat, p: nat)
    requires p < c <= |x| && c <= |y|
    requires forall t :: 0 <= t < c && t != p ==> x[t] == 0.0 || y[t] == 0.0
    ensures Dot(x, y, c) == x[p] * y[p]
  {
    if p < c - 1 {
      DotSingle(x, y, c - 1, p);
      ZeroFactor(x[c - 1], y[c - 1]);
    } else {
      DotZero(x, y, c - 1);
    }
  }

  /** Applying a product is applying one factor after the other: (x y) v = x (y v). */
  lemma {:induction false} ApplyProductRow(x: Matrix, y: Matrix, v: Vector, i: nat, n: nat, row: Vector, yv: Vector, c: nat)
    requires i < n && n == |v| && IsMatrix(x, n, n) && IsMatrix(y, n, n) && c <= n
    requires |row| == n && forall k :: 0 <= k < n ==> row[k] == Entry(x, y, i, k, c)
    requires yv == Apply(y, v)
    ensures Dot(row, v, n) == Dot(x[i], yv, c)
    decreases c
  {
    if c == 0 {
      DotZero(row, v, n);
    } else {
      var before := seq(n, k requires 0 <= k < n => Entry(x, y, i, k, c - 1));
      ApplyProductRow(x, y, v, i, n, before, yv, c - 1);
      DotLinear(v, before, y[c - 1], row, x[i][c - 1], n);
    }
  }

  lemma ApplyProduct(x: Matrix, y: Matrix, v: Vector)
    requires IsMatrix(x, |v|, |v|) && IsMatrix(y, |v|, |v|)
    ensures Apply(Product(x, y, |v|), v) == Apply(x, Apply(y, v))
  {
    var n := |v|;
    var xy := Product(x, y, n);
    var yv := Apply(y, v);
    forall i | 0 <= i < n
      ensures Apply(xy, v)[i] == Apply(x, yv)[i]
    {
      ApplyProductRow(x, y, v, i, n, xy[i], yv, n);
    }
  }

  /** The columns of a product are the images of the columns of its right factor. */
  lemma ProductColumn(x: Matrix, y: Matrix, n: nat, k: nat)
    requires k < n && IsMatrix(x, n, n) && IsMatrix(y, n, n)
    ensures Column(Product(x, y, n), k) == Apply(x, Column(y, k))
  {
    forall i | 0 <= i < n
      ensures Column(Product(x, y, n), k)[i] == Apply(x, Column(y, k))[i]
    {
      EntryIsDot(x, y, i, k, n);
    }
  }

  lemma ApplyLinear(m: Matrix, y: Vector, z: Vector, w: Vector, a: real)
    requires IsMatrix(m, |y|, |y|) && |z| == |w| == |y|
    requires forall t :: 0 <= t < |y| ==> w[t] == y[t] + a * z[t]
    ensures forall i :: 0 <= i < |y| ==> Apply(m, w)[i] == Apply(m, y)[i] + a * Apply(m, z)[i]
  {
    forall i | 0 <= i < |y|
      ensures Apply(m, w)[i] == Apply(m, y)[i] + a * Apply(m, z)[i]
    {
      DotLinear(m[i], y, z, w, a, |y|);
    }
  }

  lemma SameEntries(x: Matrix, y: Matrix, rows: nat, cols: nat)
    requires IsMatrix(x, rows, cols) && IsMatrix(y, rows, cols)
    requires forall i, k :: 0 <= i < rows && 0 <= k < cols ==> x[i][k] == y[i][k]
    ensures x == y
  {
    forall i | 0 <= i < rows
      ensures x[i] == y[i]
    {
    }
  }

  lemma SameColumns(x: Matrix, y: Matrix, n: nat)
    requires IsMatrix(x, n, n) && IsMatrix(y, n, n)
    requires forall k :: 0 <= k < n ==> Column(x, k) == Column(y, k)
    ensures x == y
  {
    forall i, k | 0 <= i < n && 0 <= k < n
      ensures x[i][k] == y[i][k]
    {
      assert Column(x, k)[i] == Column(y, k)[i];
    }
    SameEntries(x, y, n, n);
  }
}

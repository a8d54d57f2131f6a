/** Singularity, inverse and determinant, computed through the pivoted decomposition. */
module MatrixFunctions {
  import opened Determinants
  import opened Matrices
  import opened Permutations
  import opened Lup
  import opened LinearSolver

  // ----- a zero on the diagonal of u means a singular matrix, and only then

  /** A lower factor without a zero on its diagonal sends only zero to zero. */
  lemma {:induction false} LowerKernel(l: Matrix, z: Vector, n: nat, i: nat)
    requires |z| == n && IsMatrix(l, n, n) && Apply(l, z) == Zeros(n)
    requires forall r, k :: 0 <= r < k < n ==> l[r][k] == 0.0
    requires NoZeroPivot(l, n) && i <= n
    ensures forall r :: 0 <= r < i ==> z[r] == 0.0
  {
    if i > 0 {
      LowerKernel(l, z, n, i - 1);
      assert Apply(l, z)[i - 1] == 0.0;
      DotSingle(l[i - 1], z, n, i - 1);
      NonzeroFactor(l[i - 1][i - 1], z[i - 1]);
    }
  }

  /** An upper factor without a zero on its diagonal sends only zero to zero. */
  lemma {:induction false} UpperKernel(u: Matrix, z: Vector, n: nat, i: nat)
    requires |z| == n && IsMatrix(u, n, n) && Upper(u, n) && NoZeroPivot(u, n) && Apply(u, z) == Zeros(n)
    requires i <= n
    ensures forall r :: i <= r < n ==> z[r] == 0.0
    decreases n - i
  {
    if i < n {
      UpperKernel(u, z, n, i + 1);
      assert Apply(u, z)[i] == 0.0;
      DotSingle(u[i], z, n, i);
      NonzeroFactor(u[i][i], z[i]);
    }
  }

  lemma NonzeroFactor(x: real, y: real)
    requires x != 0.0 && x * y == 0.0
    ensures y == 0.0
  {
  }

  /** Components below j filled in by back substitution, component j one, the rest zero. */
  ghost function KernelVector(u: Matrix, n: nat, j: nat, i: nat): (z: Vector)
    requires IsMatrix(u, n, n) && i <= j < n
    ensures |z| == n
    decreases j - i
  {
    if i == j then Unit(n, j)
    else
      var z := KernelVector(u, n, j, i + 1);
      z[i := Quotient(-Dot(u[i], z, n), u[i][i])]
  }

  lemma {:induction false} KernelVectorSolves(u: Matrix, n: nat, j: nat, i: nat)
    requires IsMatrix(u, n, n) && Upper(u, n) && i <= j < n && u[j][j] == 0.0
    requires forall r :: 0 <= r < j ==> u[r][r] != 0.0
    ensures var z := KernelVector(u, n, j, i);
      && z[j] == 1.0 && (forall r :: 0 <= r < i ==> z[r] == 0.0)
      && forall r :: i <= r < n ==> Dot(u[r], z, n) == 0.0
    decreases j - i
  {
    var z := KernelVector(u, n, j, i);
    if i == j {
      forall r | j <= r < n
        ensures Dot(u[r], z, n) == 0.0
      {
        DotZero(u[r], z, n);
      }
    } else {
      KernelVectorSolves(u, n, j, i + 1);
      var before := KernelVector(u, n, j, i + 1);
      forall r | i <= r < n
        ensures Dot(u[r], z, n) == 0.0
      {
        DotUpdate(u[r], before, n, i, z[i]);
        if r > i {
          ZeroFactor(u[r][i], z[i]);
        }
      }
    }
  }

  lemma {:induction false} DotUpdate(x: Vector, y: Vector, c: nat, i: nat, v: real)
    requires c <= |x| && c <= |y| && i < |y| && i < |x| && y[i] == 0.0
    ensures Dot(x, y[i := v], c) == Dot(x, y, c) + if i < c then x[i] * v else 0.0
  {
    if c > 0 {
      DotUpdate(x, y, c - 1, i, v);
      ZeroFactor(x[i], y[i]);
    }
  }

  /** Applying a to z is zero exactly when applying the two factors is. */
  lemma KernelOfFactors(a: Matrix, l: Matrix, u: Matrix, p: seq<int>, z: Vector)
    requires IsLup(a, l, u, p, |z|)
    ensures Apply(a, z) == Zeros(|z|) <==> Apply(u, z) == Zeros(|z|)
  {
    var n := |z|;
    LupPermutesRows(a, l, u, p, n);
    PermutedSystem(a, Product(l, u, n), p, Zeros(n), Zeros(n), z);
    ApplyProduct(l, u, z);
    var w := Apply(u, z);
    if Apply(l, w) == Zeros(n) {
      LowerKernel(l, w, n, n);
    }
    if w == Zeros(n) {
      forall i | 0 <= i < n
        ensures Apply(l, w)[i] == 0.0
      {
        DotZero(l[i], w, n);
      }
      assert Apply(l, w) == Zeros(n);
    }
  }

  /** The first index at or after i where u has a zero on its diagonal. */
  lemma FirstZeroPivot(u: Matrix, n: nat, i: nat) returns (j: nat)
    requires IsMatrix(u, n, n) && i <= n
    requires forall r :: 0 <= r < i ==> u[r][r] != 0.0
    requires !NoZeroPivot(u, n)
    ensures j < n && u[j][j] == 0.0 && forall r :: 0 <= r < j ==> u[r][r] != 0.0
    decreases n - i
  {
    if i < n && u[i][i] == 0.0 {
      j := i;
    } else {
      j := FirstZeroPivot(u, n, i + 1);
    }
  }

  /** The decomposition tells singular matrices by a zero on the diagonal of u. */
  lemma SingularIffZeroPivot(a: Matrix, l: Matrix, u: Matrix, p: seq<int>, n: nat)
    requires IsLup(a, l, u, p, n)
    ensures Singular(a, n) <==> !NoZeroPivot(u, n)
  {
    if NoZeroPivot(u, n) {
      forall z: Vector | |z| == n && Apply(a, z) == Zeros(n)
        ensures z == Zeros(n)
      {
        KernelOfFactors(a, l, u, p, z);
        UpperKernel(u, z, n, 0);
      }
    } else {
      var j := FirstZeroPivot(u, n, 0);
      KernelVectorSolves(u, n, j, 0);
      var z := KernelVector(u, n, j, 0);
      assert z[j] != Zeros(n)[j];
      assert Apply(u, z) == Zeros(n);
      KernelOfFactors(a, l, u, p, z);
    }
  }

  // ----- inverse

  /** Column by column solutions of a x = e_k make a right inverse. */
  lemma RightInverse(a: Matrix, inv: Matrix, n: nat)
    requires IsMatrix(a, n, n) && IsMatrix(inv, n, n)
    requires forall k :: 0 <= k < n ==> Apply(a, Column(inv, k)) == Unit(n, k)
    ensures Product(a, inv, n) == Identity(n)
  {
    forall k | 0 <= k < n
      ensures Column(Product(a, inv, n), k) == Column(Identity(n), k)
    {
      ProductColumn(a, inv, n, k);
    }
    SameColumns(Product(a, inv, n), Identity(n), n);
  }

  lemma ApplyIdentity(v: Vector)
    ensures Apply(Identity(|v|), v) == v
  {
    forall i | 0 <= i < |v|
      ensures Apply(Identity(|v|), v)[i] == v[i]
    {
      DotSingle(Identity(|v|)[i], v, |v|, i);
    }
  }

  /** A nonsingular matrix sends different vectors to different vectors. */
  lemma NonsingularInjective(a: Matrix, y: Vector, z: Vector)
    requires |y| == |z| && IsMatrix(a, |y|, |y|) && !Singular(a, |y|) && Apply(a, y) == Apply(a, z)
    ensures y == z
  {
    var n := |y|;
    var w := seq(n, t requires 0 <= t < n => y[t] - z[t]);
    ApplyLinear(a, y, z, w, -1.0);
    forall i | 0 <= i < n
      ensures Apply(a, w)[i] == Zeros(n)[i]
    {
      assert Apply(a, y)[i] == Apply(a, z)[i];
    }
    assert Apply(a, w) == Zeros(n);
    assert w == Zeros(n);
    forall t | 0 <= t < n
      ensures y[t] == z[t]
    {
      assert w[t] == 0.0;
    }
  }

  /** For a nonsingular matrix a right inverse is a left inverse too. */
  lemma RightInverseIsLeft(a: Matrix, inv: Matrix, n: nat)
    requires IsMatrix(a, n, n) && IsMatrix(inv, n, n) && !Singular(a, n)
    requires Product(a, inv, n) == Identity(n)
    ensures Product(inv, a, n) == Identity(n)
  {
    forall k | 0 <= k < n
      ensures Column(Product(inv, a, n), k) == Column(Identity(n), k)
    {
      var y := Column(Product(inv, a, n), k);
      var v := Column(a, k);
      ProductColumn(inv, a, n, k);
      ApplyProduct(a, inv, v);
      ApplyIdentity(v);
      var e := Column(Identity(n), k);
      forall i | 0 <= i < n
        ensures Apply(a, e)[i] == v[i]
      {
        DotSingle(a[i], e, n, k);
      }
      NonsingularInjective(a, y, e);
    }
    SameColumns(Product(inv, a, n), Identity(n), n);
  }

  /** The columns solved so far. */
  ghost predicate ColumnsSolved(a: Matrix, inv: Matrix, n: nat, count: nat) {
    && IsMatrix(a, n, n) && IsMatrix(inv, n, n) && count <= n
    && forall k {:trigger Column(inv, k)} :: 0 <= k < count ==> Apply(a, Column(inv, k)) == Unit(n, k)
  }

  /** One more column stored. */
  method StoreColumn(result: array2<real>, col: nat, x: array<real>)
    requires result.Length0 == result.Length1 == x.Length && col < x.Length
    modifies result
    ensures Column(Rows(result), col) == x[..]
    ensures forall k {:trigger Column(Rows(result), k)} :: 0 <= k < x.Length && k != col ==> Column(Rows(result), k) == old(Column(Rows(result), k))
  {
    var n := x.Length;
    for i := 0 to n
      invariant forall r, k :: 0 <= r < n && 0 <= k < n ==>
        result[r, k] == if k == col && r < i then x[r] else old(result[r, k])
    {
      result[i, col] := x[i];
    }
  }

  /** Column col of the inverse; b still holds the previous unit vector. */
  method SolveColumn(l: array2<real>, u: array2<real>, p: array<int>, b: array<real>, ghost a: Matrix, col: nat)
    returns (x: array<real>)
    requires col < b.Length == p.Length == l.Length0 == l.Length1 == u.Length0 == u.Length1
    requires IsLup(a, Rows(l), Rows(u), p[..], b.Length)
    requires forall r :: 0 <= r < b.Length && r != col - 1 ==> b[r] == 0.0
    modifies b
    ensures b[..] == Unit(b.Length, col)
    ensures fresh(x) && x.Length == b.Length
    ensures !Singular(a, b.Length) ==> Apply(a, x[..]) == Unit(b.Length, col)
  {
    b[if col - 1 > 0 then col - 1 else 0] := 0.0;
    b[col] := 1.0;
    assert b[..] == Unit(b.Length, col);
    x := Solve(l, u, p, b, a);
    SingularIffZeroPivot(a, Rows(l), Rows(u), p[..], b.Length);
    assert NoZeroPivot(Rows(u), b.Length) ==> Apply(a, x[..]) == b[..];
  }

  lemma OneMoreColumn(a: Matrix, before: Matrix, after: Matrix, n: nat, col: nat)
    requires col < n && ColumnsSolved(a, before, n, col) && IsMatrix(after, n, n)
    requires forall k {:trigger Column(after, k)} :: 0 <= k < n && k != col ==> Column(after, k) == Column(before, k)
    requires Apply(a, Column(after, col)) == Unit(n, col)
    ensures ColumnsSolved(a, after, n, col + 1)
  {
  }

  /** The inverse of every nonsingular matrix, one column at a time. */
  method Inverse(m: array2<real>) returns (result: array2<real>)
    requires m.Length0 == m.Length1 >= 1
    ensures fresh(result) && result.Length0 == result.Length1 == m.Length0
    ensures !Singular(Rows(m), m.Length0) ==>
      && Product(Rows(m), Rows(result), m.Length0) == Identity(m.Length0)
      && Product(Rows(result), Rows(m), m.Length0) == Identity(m.Length0)
  {
    var n := m.Length0;
    ghost var a := Rows(m);
    ghost var regular := !Singular(a, n);
    result := new real[n, n];
    var l, u, p, _ := DecomposeLup(m);
    ghost var lm, um, perm := Rows(l), Rows(u), p[..];
    var b := new real[n](_ => 0.0);
    for col := 0 to n
      invariant Rows(l) == lm && Rows(u) == um && p[..] == perm
      invariant forall r :: 0 <= r < n && r != col - 1 ==> b[r] == 0.0
      invariant regular ==> ColumnsSolved(a, Rows(result), n, col)
    {
      var x := SolveColumn(l, u, p, b, a, col);
      ghost var before := Rows(result);
      StoreColumn(result, col, x);
      if regular {
        OneMoreColumn(a, before, Rows(result), n, col);
      }
    }
    if regular {
      RightInverse(a, Rows(result), n);
      RightInverseIsLeft(a, Rows(result), n);
    }
  }

  // ----- determinant

  lemma {:induction false} DiagonalProductNonzero(u: Matrix, n: nat, c: nat)
    requires IsMatrix(u, n, n) && c <= n
    ensures DiagonalProduct(u, n, c) != 0.0 <==> forall i :: 0 <= i < c ==> u[i][i] != 0.0
  {
    if c > 0 {
      DiagonalProductNonzero(u, n, c - 1);
      NonzeroProduct(DiagonalProduct(u, n, c - 1), u[c - 1][c - 1]);
    }
  }

  lemma NonzeroProduct(x: real, y: real)
    ensures x * y != 0.0 <==> x != 0.0 && y != 0.0
  {
  }

  /** The determinant of a matrix larger than four by four; it is zero exactly when the matrix is singular. */
  method Determinant(m: array2<real>) returns (d: real)
    requires m.Length0 == m.Length1 >= 1
    ensures d == Det(Rows(m), m.Length0)
    ensures d != 0.0 <==> !Singular(Rows(m), m.Length0)
  {
    var n := m.Length0;
    var l, u, p, parity := DecomposeLup(m);
    ghost var um := Rows(u);
    assert IsLup(Rows(m), Rows(l), um, p[..], n);
    var prod := u[0, 0];
    assert DiagonalProduct(um, n, 0) == 1.0;
    for i := 1 to n
      invariant prod == DiagonalProduct(um, n, i)
    {
      prod := prod * u[i, i];
    }
    d := parity as real * prod;
    DeterminantOfLup(Rows(m), Rows(l), um, p[..], n);
    SingularIffZeroPivot(Rows(m), Rows(l), um, p[..], n);
    DiagonalProductNonzero(um, n, n);
    NonzeroProduct(parity as real, prod);
  }

  // ----- the solvability test

  /**
   * The test of the pivoted decomposition looks at the diagonal of l, which is all ones, and so
   * it answers yes for every decomposition.
   */
  method Solvable(l: array2<real>) returns (answer: bool)
    requires l.Length0 == l.Length1 >= 1
    ensures UnitLower(Rows(l), l.Length0) ==> answer
  {
    var n := l.Length0;
    ghost var lm := Rows(l);
    var prod := l[0, 0];
    var sum := Abs(prod);
    assert UnitLower(lm, n) ==> lm[0][0] == 1.0;
    for i := 1 to n
      invariant UnitLower(lm, n) ==> prod == 1.0 && sum == i as real
    {
      assert UnitLower(lm, n) ==> lm[i][i] == 1.0;
      prod := prod * l[i, i];
      sum := sum + Abs(l[i, i]);
    }
    sum := Quotient(sum, n as real);
    answer := Quotient(Abs(prod), sum) > 0.000001;
  }

  /** A system the test calls solvable although it is not: the zero matrix of any size. */
  lemma SolvableTestAcceptsSingular(n: nat)
    requires n >= 1
    ensures var zero := seq(n, _ => Zeros(n));
      IsMatrix(zero, n, n) && Singular(zero, n) && exists p: seq<int> :: IsLup(zero, Identity(n), zero, p, n)
  {
    var zero := seq(n, _ => Zeros(n));
    var y := Unit(n, 0);
    assert y[0] != Zeros(n)[0];
    forall i | 0 <= i < n
      ensures Apply(zero, y)[i] == 0.0
    {
      DotZero(zero[i], y, n);
    }
    assert Apply(zero, y) == Zeros(n);
    var p := seq(n, i => i);
    forall r | 0 <= r < n
      ensures r in p
    {
      assert p[r] == r;
    }
    forall i, k | 0 <= i < n && 0 <= k < n
      ensures Product(Identity(n), zero, n)[i][k] == zero[p[i]][k]
    {
      EntryTail(Identity(n), zero, i, k, 0, n);
    }
    assert IsLup(zero, Identity(n), zero, p, n);
  }
}

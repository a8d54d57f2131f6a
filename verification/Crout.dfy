/** LU decomposition by Crout's algorithm, without pivoting. */
module Crout {
  import opened Matrices
  import opened Lup
  import opened LinearSolver
  import opened MatrixFunctions

  /** The factors account for entry (i, k) with the terms that are not zero. */
  ghost predicate FactorsAt(a: Matrix, l: Matrix, u: Matrix, n: nat, i: nat, k: nat)
    requires IsMatrix(a, n, n) && IsMatrix(l, n, n) && IsMatrix(u, n, n) && i < n && k < n
  {
    a[i][k] == Entry(l, u, i, k, Min(i, k) + 1)
  }

  ghost predicate LowerShape(l: Matrix, n: nat)
    requires IsMatrix(l, n, n)
  {
    forall i, k :: 0 <= i < n && 0 <= k < n && i < k ==> l[i][k] == 0.0
  }

  ghost predicate UnitUpperShape(u: Matrix, n: nat)
    requires IsMatrix(u, n, n)
  {
    forall i, k :: 0 <= i < n && 0 <= k < n && k <= i ==> u[i][k] == if i == k then 1.0 else 0.0
  }

  /** Columns of l and rows of u before j are finished. */
  ghost predicate Finished(a: Matrix, l: Matrix, u: Matrix, n: nat, j: nat) {
    && IsMatrix(a, n, n) && IsMatrix(l, n, n) && IsMatrix(u, n, n)
    && LowerShape(l, n) && UnitUpperShape(u, n)
    && forall i, k :: 0 <= i < n && 0 <= k < n && Min(i, k) < j ==> FactorsAt(a, l, u, n, i, k)
  }

  /** What the decomposition promises: a lower and a unit upper factor whose product is a. */
  ghost predicate IsLu(a: Matrix, l: Matrix, u: Matrix, n: nat) {
    && IsMatrix(a, n, n) && IsMatrix(l, n, n) && IsMatrix(u, n, n)
    && LowerShape(l, n) && UnitUpperShape(u, n) && Product(l, u, n) == a
  }

  lemma FinishedIsLu(a: Matrix, l: Matrix, u: Matrix, n: nat)
    requires Finished(a, l, u, n, n)
    ensures IsLu(a, l, u, n)
  {
    forall i, k | 0 <= i < n && 0 <= k < n
      ensures Product(l, u, n)[i][k] == a[i][k]
    {
      assert FactorsAt(a, l, u, n, i, k);
      EntryTail(l, u, i, k, Min(i, k) + 1, n);
    }
    forall i | 0 <= i < n
      ensures Product(l, u, n)[i] == a[i]
    {
    }
  }

  // ----- one step

  /** Column j of the lower factor, from the columns and rows before it. */
  ghost predicate LowerColumnDone(a: Matrix, l: Matrix, u: Matrix, l': Matrix, n: nat, j: nat)
    requires IsMatrix(a, n, n) && IsMatrix(l, n, n) && IsMatrix(u, n, n) && IsMatrix(l', n, n) && j < n
  {
    forall i, k {:trigger l'[i][k]} :: 0 <= i < n && 0 <= k < n ==>
      l'[i][k] == if k == j && i >= j then a[i][j] - Entry(l, u, i, j, j) else l[i][k]
  }

  /** The first row keeps the one on its diagonal; the others compute it. */
  function FirstIn(j: nat): nat {
    if j == 0 then 1 else j
  }

  /** Row j of the upper factor, divided by the pivot. */
  ghost predicate UpperRowDone(a: Matrix, l: Matrix, u: Matrix, u': Matrix, n: nat, j: nat)
    requires IsMatrix(a, n, n) && IsMatrix(l, n, n) && IsMatrix(u, n, n) && IsMatrix(u', n, n) && j < n
  {
    forall i, k {:trigger u'[i][k]} :: 0 <= i < n && 0 <= k < n ==>
      u'[i][k] == if i == j && k >= FirstIn(j) then Quotient(a[j][k] - Entry(l, u, j, k, j), l[j][j]) else u[i][k]
  }

  lemma QuotientTimes(x: real, y: real)
    requires y != 0.0
    ensures y * Quotient(x, y) == x
    ensures Quotient(y, y) == 1.0
  {
  }

  lemma PivotIsOne(a: Matrix, l: Matrix, u: Matrix, l': Matrix, u': Matrix, n: nat, j: nat)
    requires j < n && Finished(a, l, u, n, j) && IsMatrix(l', n, n) && IsMatrix(u', n, n) && l'[j][j] != 0.0
    requires LowerColumnDone(a, l, u, l', n, j) && UpperRowDone(a, l', u, u', n, j)
    ensures u'[j][j] == 1.0
  {
    if j > 0 {
      EntryFrame(l, u, l', u, j, j, j, j);
      QuotientTimes(l'[j][j], l'[j][j]);
    }
  }

  lemma StepAt(a: Matrix, l: Matrix, u: Matrix, l': Matrix, u': Matrix, n: nat, j: nat, i: nat, k: nat)
    requires j < n && i < n && k < n && Min(i, k) <= j
    requires Finished(a, l, u, n, j) && IsMatrix(l', n, n) && IsMatrix(u', n, n) && l'[j][j] != 0.0
    requires LowerColumnDone(a, l, u, l', n, j) && UpperRowDone(a, l', u, u', n, j)
    ensures FactorsAt(a, l', u', n, i, k)
  {
    if Min(i, k) < j {
      assert FactorsAt(a, l, u, n, i, k);
      EntryFrame(l, u, l', u', i, i, k, Min(i, k) + 1);
    } else {
      forall t | 0 <= t < j
        ensures l'[i][t] == l[i][t] && u'[t][k] == u[t][k]
      {
      }
      EntryFrame(l, u, l', u', i, i, k, j);
      EntryFrame(l, u, l', u, i, i, k, j);
      assert Entry(l', u', i, k, j + 1) == Entry(l', u', i, k, j) + l'[i][j] * u'[j][k];
      if k == j {
        PivotIsOne(a, l, u, l', u', n, j);
      } else {
        QuotientTimes(a[j][k] - Entry(l', u, j, k, j), l'[j][j]);
      }
    }
  }

  lemma StepFinishes(a: Matrix, l: Matrix, u: Matrix, l': Matrix, u': Matrix, n: nat, j: nat)
    requires j < n && Finished(a, l, u, n, j) && IsMatrix(l', n, n) && IsMatrix(u', n, n) && l'[j][j] != 0.0
    requires LowerColumnDone(a, l, u, l', n, j) && UpperRowDone(a, l', u, u', n, j)
    ensures Finished(a, l', u', n, j + 1)
  {
    PivotIsOne(a, l, u, l', u', n, j);
    forall i, k | 0 <= i < n && 0 <= k < n && Min(i, k) < j + 1
      ensures FactorsAt(a, l', u', n, i, k)
    {
      StepAt(a, l, u, l', u', n, j, i, k);
    }
    forall i, k | 0 <= i < n && 0 <= k < n && k <= i
      ensures u'[i][k] == if i == k then 1.0 else 0.0
    {
      assert (i == j && k == j) || u'[i][k] == u[i][k];
    }
  }

  /** The last entry needs no division. */
  lemma LastEntryFinishes(a: Matrix, l: Matrix, u: Matrix, l': Matrix, n: nat, j: nat)
    requires j == n - 1 && Finished(a, l, u, n, j) && IsMatrix(l', n, n)
    requires LowerColumnDone(a, l, u, l', n, j)
    ensures Finished(a, l', u, n, n)
  {
    forall i, k | 0 <= i < n && 0 <= k < n
      ensures FactorsAt(a, l', u, n, i, k)
    {
      if Min(i, k) < j {
        assert FactorsAt(a, l, u, n, i, k);
        EntryFrame(l, u, l', u, i, i, k, Min(i, k) + 1);
      } else {
        EntryFrame(l, u, l', u, i, i, k, j);
        assert Entry(l', u, i, k, j + 1) == Entry(l', u, i, k, j) + l'[i][j] * u[j][k];
      }
    }
  }

  // ----- pivots and leading blocks

  /** The block of the first k rows and columns. */
  ghost function Leading(m: Matrix, n: nat, k: nat): (r: Matrix)
    requires IsMatrix(m, n, n) && k <= n
    ensures IsMatrix(r, k, k)
  {
    seq(k, i requires 0 <= i < k => m[i][..k])
  }

  /** None of the leading blocks of order 1 to j is singular. */
  ghost predicate RegularBlocks(a: Matrix, n: nat, j: nat)
    requires IsMatrix(a, n, n) && j <= n
  {
    forall k :: 1 <= k <= j ==> !Singular(Leading(a, n, k), k)
  }

  /** The pivots the algorithm divides by. */
  ghost predicate Pivots(l: Matrix, n: nat, j: nat)
    requires IsMatrix(l, n, n)
  {
    forall t :: 0 <= t < j && t < n ==> l[t][t] != 0.0
  }

  /** What is finished is finished in every leading block. */
  lemma LeadingFinished(a: Matrix, l: Matrix, u: Matrix, n: nat, j: nat, k: nat)
    requires Finished(a, l, u, n, j) && k <= n
    ensures Finished(Leading(a, n, k), Leading(l, n, k), Leading(u, n, k), k, j)
  {
    var a', l', u' := Leading(a, n, k), Leading(l, n, k), Leading(u, n, k);
    forall r, c | 0 <= r < k && 0 <= c < k && Min(r, c) < j
      ensures FactorsAt(a', l', u', k, r, c)
    {
      assert FactorsAt(a, l, u, n, r, c);
      EntryFrame(l, u, l', u', r, r, c, Min(r, c) + 1);
    }
  }

  lemma LeadingColumnDone(a: Matrix, l: Matrix, u: Matrix, l': Matrix, n: nat, j: nat, k: nat)
    requires IsMatrix(a, n, n) && IsMatrix(l, n, n) && IsMatrix(u, n, n) && IsMatrix(l', n, n) && j < k <= n
    requires LowerColumnDone(a, l, u, l', n, j)
    ensures LowerColumnDone(Leading(a, n, k), Leading(l, n, k), Leading(u, n, k), Leading(l', n, k), k, j)
  {
    forall i | 0 <= i < k
      ensures Entry(Leading(l, n, k), Leading(u, n, k), i, j, j) == Entry(l, u, i, j, j)
    {
      EntryFrame(l, u, Leading(l, n, k), Leading(u, n, k), i, i, j, j);
    }
  }

  /** With the pivots before it nonzero, the last pivot is zero exactly when the matrix is singular. */
  lemma LastPivotDecides(a: Matrix, l: Matrix, u: Matrix, n: nat)
    requires n >= 1 && IsLu(a, l, u, n) && Pivots(l, n, n - 1)
    ensures Singular(a, n) <==> l[n - 1][n - 1] == 0.0
  {
    if l[n - 1][n - 1] == 0.0 {
      var z := LastUnitSource(u, n);
      ApplyProduct(l, u, z);
      var e := Unit(n, n - 1);
      forall i | 0 <= i < n
        ensures Apply(l, e)[i] == 0.0
      {
        DotSingle(l[i], e, n, n - 1);
      }
      assert Apply(a, z) == Zeros(n);
      assert z[n - 1] != Zeros(n)[n - 1];
    } else {
      forall z: Vector {:trigger Apply(a, z)} | |z| == n && Apply(a, z) == Zeros(n)
        ensures z == Zeros(n)
      {
        ApplyProduct(l, u, z);
        LowerKernel(l, Apply(u, z), n, n);
        UpperKernel(u, z, n, 0);
      }
    }
  }

  /** A vector that the unit upper factor sends to the last unit vector. */
  lemma LastUnitSource(u: Matrix, n: nat) returns (z: Vector)
    requires n >= 1 && IsMatrix(u, n, n) && UnitUpperShape(u, n)
    ensures |z| == n && z[n - 1] == 1.0 && Apply(u, z) == Unit(n, n - 1)
  {
    var cut := u[n - 1 := Zeros(n)];
    z := KernelVector(cut, n, n - 1, 0);
    KernelVectorSolves(cut, n, n - 1, 0);
    forall i | 0 <= i < n
      ensures Apply(u, z)[i] == Unit(n, n - 1)[i]
    {
      if i < n - 1 {
        assert cut[i] == u[i];
      } else {
        DotSingle(u[i], z, n, i);
      }
    }
  }

  /** The next pivot is zero exactly when the next leading block is singular. */
  lemma PivotDecides(a: Matrix, l: Matrix, u: Matrix, l': Matrix, n: nat, j: nat)
    requires j < n && Finished(a, l, u, n, j) && IsMatrix(l', n, n) && Pivots(l', n, j)
    requires LowerColumnDone(a, l, u, l', n, j)
    ensures Singular(Leading(a, n, j + 1), j + 1) <==> l'[j][j] == 0.0
  {
    var k := j + 1;
    LeadingFinished(a, l, u, n, j, k);
    LeadingColumnDone(a, l, u, l', n, j, k);
    LastEntryFinishes(Leading(a, n, k), Leading(l, n, k), Leading(u, n, k), Leading(l', n, k), k, j);
    FinishedIsLu(Leading(a, n, k), Leading(l', n, k), Leading(u, n, k), k);
    LastPivotDecides(Leading(a, n, k), Leading(l', n, k), Leading(u, n, k), k);
  }

  lemma SamePivots(a: Matrix, l: Matrix, u: Matrix, l': Matrix, n: nat, j: nat)
    requires IsMatrix(a, n, n) && IsMatrix(l, n, n) && IsMatrix(u, n, n) && IsMatrix(l', n, n) && j < n
    requires LowerColumnDone(a, l, u, l', n, j)
    ensures Pivots(l, n, j) <==> Pivots(l', n, j)
  {
    forall t | 0 <= t < j
      ensures l'[t][t] == l[t][t]
    {
    }
  }

  /** One column more, for the pivots and the leading blocks alike. */
  lemma PivotsAreBlocks(a: Matrix, l: Matrix, u: Matrix, l': Matrix, n: nat, j: nat)
    requires j < n && IsMatrix(a, n, n) && IsMatrix(l, n, n) && IsMatrix(u, n, n) && IsMatrix(l', n, n)
    requires LowerColumnDone(a, l, u, l', n, j)
    requires Pivots(l, n, j) <==> RegularBlocks(a, n, j)
    requires Pivots(l, n, j) ==> Finished(a, l, u, n, j)
    ensures Pivots(l', n, j) <==> RegularBlocks(a, n, j)
    ensures Pivots(l', n, j + 1) <==> RegularBlocks(a, n, j + 1)
  {
    SamePivots(a, l, u, l', n, j);
    if Pivots(l, n, j) {
      PivotDecides(a, l, u, l', n, j);
    }
  }

  // ----- the loops

  /** What is left of an entry after the products of the first count terms. */
  method Residue(a: array2<real>, l: array2<real>, u: array2<real>, i: nat, k: nat, count: nat) returns (rest: real)
    requires a.Length0 == a.Length1 == l.Length0 == l.Length1 == u.Length0 == u.Length1
    requires i < a.Length0 && k < a.Length0 && count <= a.Length0
    ensures rest == a[i, k] - Entry(Rows(l), Rows(u), i, k, count)
  {
    rest := a[i, k];
    for t := 0 to count
      invariant rest == a[i, k] - Entry(Rows(l), Rows(u), i, k, t)
    {
      rest := rest - l[i, t] * u[t, k];
    }
  }

  /** The entries of l from row j down, in column j. */
  method LowerColumn(a: array2<real>, l: array2<real>, u: array2<real>, j: nat)
    requires a.Length0 == a.Length1 == l.Length0 == l.Length1 == u.Length0 == u.Length1
    requires j < a.Length0 && a != l && u != l
    modifies l
    ensures LowerColumnDone(Rows(a), old(Rows(l)), Rows(u), Rows(l), a.Length0, j)
  {
    var n := a.Length0;
    ghost var l0, u0 := Rows(l), Rows(u);
    for i := j to n
      invariant forall r, c :: 0 <= r < n && 0 <= c < n ==>
        l[r, c] == if c == j && j <= r < i then a[r, j] - Entry(l0, u0, r, j, j) else l0[r][c]
    {
      var lij := Residue(a, l, u, i, j, j);
      EntryFrame(Rows(l), u0, l0, u0, i, i, j, j);
      l[i, j] := lij;
    }
  }

  /** The entries of u from column j on, in row j. */
  method UpperRow(a: array2<real>, l: array2<real>, u: array2<real>, j: nat)
    requires a.Length0 == a.Length1 == l.Length0 == l.Length1 == u.Length0 == u.Length1
    requires j < a.Length0 && a != u && u != l
    modifies u
    ensures UpperRowDone(Rows(a), Rows(l), old(Rows(u)), Rows(u), a.Length0, j)
  {
    var n := a.Length0;
    ghost var l0, u0 := Rows(l), Rows(u);
    for k := FirstIn(j) to n
      invariant forall r, c :: 0 <= r < n && 0 <= c < n ==>
        u[r, c] == if r == j && FirstIn(j) <= c < k then Quotient(a[j, c] - Entry(l0, u0, j, c, j), l[j, j]) else u0[r][c]
    {
      var ujk := Residue(a, l, u, j, k, j);
      EntryFrame(l0, Rows(u), l0, u0, j, j, k, j);
      u[j, k] := Quotient(ujk, l[j, j]);
    }
  }

  /**
   * Crout's algorithm. None of the pivots it divides by, all but the last, is zero exactly when no
   * leading block of an order below n is singular; then the factors are triangular and their
   * product is the matrix.
   */
  method DecomposeLu(a: array2<real>) returns (l: array2<real>, u: array2<real>)
    requires a.Length0 == a.Length1 >= 1
    ensures fresh(l) && fresh(u) && l.Length0 == l.Length1 == u.Length0 == u.Length1 == a.Length0
    ensures Pivots(Rows(l), a.Length0, a.Length0 - 1) <==> RegularBlocks(Rows(a), a.Length0, a.Length0 - 1)
    ensures Pivots(Rows(l), a.Length0, a.Length0) <==> RegularBlocks(Rows(a), a.Length0, a.Length0)
    ensures RegularBlocks(Rows(a), a.Length0, a.Length0 - 1) ==> IsLu(Rows(a), Rows(l), Rows(u), a.Length0)
  {
    hide Pivots, RegularBlocks, Finished, LowerColumnDone, UpperRowDone, IsLu;
    var n := a.Length0;
    ghost var m := Rows(a);
    l := new real[n, n]((i, k) => 0.0);
    u := new real[n, n]((i, k) => if i == k then 1.0 else 0.0);
    NothingFinished(m, Rows(l), Rows(u), n);
    for j := 0 to n - 1
      invariant Pivots(Rows(l), n, j) ==> Finished(m, Rows(l), Rows(u), n, j)
      invariant Pivots(Rows(l), n, j) <==> RegularBlocks(m, n, j)
    {
      ghost var l0, u0 := Rows(l), Rows(u);
      LowerColumn(a, l, u, j);
      ghost var l1 := Rows(l);
      UpperRow(a, l, u, j);
      ColumnAndRow(m, l0, u0, l1, Rows(u), n, j);
    }
    ghost var l0 := Rows(l);
    LowerColumn(a, l, u, n - 1);
    LastColumn(m, l0, Rows(u), Rows(l), n, n - 1);
  }

  /** One more column and row. */
  lemma ColumnAndRow(a: Matrix, l: Matrix, u: Matrix, l': Matrix, u': Matrix, n: nat, j: nat)
    requires j < n && IsMatrix(a, n, n) && IsMatrix(l, n, n) && IsMatrix(u, n, n) && IsMatrix(l', n, n) && IsMatrix(u', n, n)
    requires LowerColumnDone(a, l, u, l', n, j) && UpperRowDone(a, l', u, u', n, j)
    requires Pivots(l, n, j) <==> RegularBlocks(a, n, j)
    requires Pivots(l, n, j) ==> Finished(a, l, u, n, j)
    ensures Pivots(l', n, j + 1) ==> Finished(a, l', u', n, j + 1)
    ensures Pivots(l', n, j + 1) <==> RegularBlocks(a, n, j + 1)
  {
    hide Pivots, RegularBlocks, Finished, LowerColumnDone, UpperRowDone;
    PivotsAreBlocks(a, l, u, l', n, j);
    if Pivots(l', n, j + 1) {
      EarlierPivots(a, l, u, l', n, j);
      StepFinishes(a, l, u, l', u', n, j);
    }
  }

  lemma LastColumn(a: Matrix, l: Matrix, u: Matrix, l': Matrix, n: nat, j: nat)
    requires j == n - 1 && IsMatrix(a, n, n) && IsMatrix(l, n, n) && IsMatrix(u, n, n) && IsMatrix(l', n, n)
    requires LowerColumnDone(a, l, u, l', n, j)
    requires Pivots(l, n, j) <==> RegularBlocks(a, n, j)
    requires Pivots(l, n, j) ==> Finished(a, l, u, n, j)
    ensures Pivots(l', n, j) <==> RegularBlocks(a, n, j)
    ensures Pivots(l', n, n) <==> RegularBlocks(a, n, n)
    ensures Pivots(l', n, j) ==> IsLu(a, l', u, n)
  {
    hide Pivots, RegularBlocks, Finished, LowerColumnDone, IsLu;
    PivotsAreBlocks(a, l, u, l', n, j);
    if Pivots(l', n, j) {
      SamePivots(a, l, u, l', n, j);
      LastEntryFinishes(a, l, u, l', n, j);
      FinishedIsLu(a, l', u, n);
    }
  }

  lemma NothingFinished(a: Matrix, l: Matrix, u: Matrix, n: nat)
    requires IsMatrix(a, n, n) && IsMatrix(l, n, n) && IsMatrix(u, n, n)
    requires LowerShape(l, n) && UnitUpperShape(u, n)
    ensures Finished(a, l, u, n, 0) && Pivots(l, n, 0) && RegularBlocks(a, n, 0)
  {
  }

  lemma EarlierPivots(a: Matrix, l: Matrix, u: Matrix, l': Matrix, n: nat, j: nat)
    requires IsMatrix(a, n, n) && IsMatrix(l, n, n) && IsMatrix(u, n, n) && IsMatrix(l', n, n) && j < n
    requires LowerColumnDone(a, l, u, l', n, j) && Pivots(l', n, j + 1)
    ensures Pivots(l, n, j) && l'[j][j] != 0.0
  {
    SamePivots(a, l, u, l', n, j);
  }

  /** Solving with the factors, when the matrix itself is not singular either. */
  method SolveWithLu(a: array2<real>, b: array<real>) returns (x: array<real>, l: array2<real>, u: array2<real>)
    requires a.Length0 == a.Length1 == b.Length >= 1
    ensures fresh(x) && x.Length == b.Length && l.Length0 == l.Length1 == b.Length
    ensures Pivots(Rows(l), b.Length, b.Length) <==> RegularBlocks(Rows(a), b.Length, b.Length)
    ensures RegularBlocks(Rows(a), b.Length, b.Length) ==> SolvesSystem(Rows(a), b[..], x[..])
  {
    l, u := DecomposeLu(a);
    x := SolveImpl(l, u, b);
    if Pivots(Rows(l), b.Length, b.Length) {
      var n := b.Length;
      ghost var lm, um := Rows(l), Rows(u);
      assert RegularBlocks(Rows(a), n, n - 1);
      assert Triangular(lm, n, true) && Triangular(um, n, false);
      forall y: Vector | |y| == n
        ensures Apply(Rows(a), y) == b[..] <==> y == x[..]
      {
        ApplyProduct(lm, um, y);
      }
    }
  }

  /** A matrix that has no such factors at all, although it is not singular: its first pivot is zero. */
  lemma NoFactorsWithoutPivoting(l: Matrix, u: Matrix)
    ensures !IsLu([[0.0, 1.0], [1.0, 0.0]], l, u, 2)
    ensures IsMatrix([[0.0, 1.0], [1.0, 0.0]], 2, 2) && !Singular([[0.0, 1.0], [1.0, 0.0]], 2)
  {
    var a: Matrix := [[0.0, 1.0], [1.0, 0.0]];
    if IsLu(a, l, u, 2) {
      var p := Product(l, u, 2);
      EntryOfTwo(l, u, 0, 0);
      EntryOfTwo(l, u, 0, 1);
      assert false;
    }
    forall y: Vector {:trigger Apply(a, y)} | |y| == 2 && Apply(a, y) == Zeros(2)
      ensures y == Zeros(2)
    {
      DotOfTwo(a[0], y);
      DotOfTwo(a[1], y);
      assert Apply(a, y)[0] == y[1] && Apply(a, y)[1] == y[0];
    }
  }

  lemma EntryOfTwo(x: Matrix, y: Matrix, i: nat, k: nat)
    requires IsMatrix(x, 2, 2) && IsMatrix(y, 2, 2) && i < 2 && k < 2
    ensures Product(x, y, 2)[i][k] == x[i][0] * y[0][k] + x[i][1] * y[1][k]
  {
    assert Entry(x, y, i, k, 1) == Entry(x, y, i, k, 0) + x[i][0] * y[0][k];
  }

  lemma DotOfTwo(x: Vector, y: Vector)
    requires |x| == |y| == 2
    ensures Dot(x, y, 2) == x[0] * y[0] + x[1] * y[1]
  {
    assert Dot(x, y, 1) == Dot(x, y, 0) + x[0] * y[0];
  }
}

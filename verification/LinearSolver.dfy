/** Solving linear systems with the two factors, and what follows for inverses and determinants. */
module LinearSolver {
  import opened Matrices
  import opened Permutations
  import opened Lup

  /** Division; the source promises nothing about the quotient by zero, so it is given a fixed value. */
  function Quotient(x: real, y: real): real {
    if y == 0.0 then 0.0 else x / y
  }

  // ----- the augmented matrix and its row operations

  /** Equation i of the augmented matrix e, for the unknowns y. */
  ghost predicate RowHolds(row: Vector, y: Vector, n: nat)
    requires |row| == n + 1 && |y| == n
  {
    Dot(row, y, n) == row[n]
  }

  ghost predicate Solves(e: Matrix, y: Vector, n: nat)
    requires IsMatrix(e, n, n + 1) && |y| == n
  {
    forall i :: 0 <= i < n ==> RowHolds(e[i], y, n)
  }

  ghost predicate SameSolutions(e: Matrix, f: Matrix, n: nat)
    requires IsMatrix(e, n, n + 1) && IsMatrix(f, n, n + 1)
  {
    forall y: Vector {:trigger Solves(e, y, n)} {:trigger Solves(f, y, n)} :: |y| == n ==> (Solves(e, y, n) <==> Solves(f, y, n))
  }

  /** The vector d is the one and only solution. */
  ghost predicate OnlySolution(e: Matrix, d: Vector, n: nat)
    requires IsMatrix(e, n, n + 1)
  {
    forall y: Vector {:trigger Solves(e, y, n)} :: |y| == n ==> (Solves(e, y, n) <==> y == d)
  }

  /** Row i divided by its diagonal element. */
  ghost function DivideRow(e: Matrix, n: nat, i: nat): (f: Matrix)
    requires IsMatrix(e, n, n + 1) && i < n
    ensures IsMatrix(f, n, n + 1)
  {
    e[i := seq(n + 1, c requires 0 <= c < n + 1 => Quotient(e[i][c], e[i][i]))]
  }

  /** The multiple of row i that is in the way of its column taken off row t. */
  ghost function SubtractRow(e: Matrix, n: nat, i: nat, t: nat): (f: Matrix)
    requires IsMatrix(e, n, n + 1) && i < n && t < n
    ensures IsMatrix(f, n, n + 1)
  {
    e[t := seq(n + 1, c requires 0 <= c < n + 1 => e[t][c] - e[i][c] * e[t][i])]
  }

  ghost function PivotStep(e: Matrix, n: nat, i: nat, t: nat): (f: Matrix)
    requires IsMatrix(e, n, n + 1) && i < n && t < n
    ensures IsMatrix(f, n, n + 1)
  {
    SubtractRow(DivideRow(e, n, i), n, i, t)
  }

  lemma DividedRowHolds(row: Vector, row': Vector, y: Vector, n: nat, d: real)
    requires |row| == |row'| == n + 1 && |y| == n && d != 0.0
    requires forall c :: 0 <= c <= n ==> row'[c] == row[c] / d
    ensures RowHolds(row, y, n) <==> RowHolds(row', y, n)
  {
    var zeros := Zeros(n);
    forall c | 0 <= c <= n
      ensures row[c] == d * row'[c]
    {
    }
    DotLinear(y, zeros, row', row, d, n);
    DotZero(zeros, y, n);
    SameMultiple(Dot(row', y, n), row'[n], d);
  }

  lemma SameMultiple(x: real, y: real, d: real)
    requires d != 0.0
    ensures d * x == d * y <==> x == y
  {
  }

  lemma SubtractedRowHolds(row: Vector, other: Vector, row': Vector, y: Vector, n: nat, a: real)
    requires |row| == |other| == |row'| == n + 1 && |y| == n
    requires forall c :: 0 <= c <= n ==> row'[c] == row[c] - other[c] * a
    requires RowHolds(other, y, n)
    ensures RowHolds(row, y, n) <==> RowHolds(row', y, n)
  {
    forall c | 0 <= c <= n
      ensures row'[c] == row[c] + (-a) * other[c]
    {
    }
    DotLinear(y, row, other, row', -a, n);
    assert (-a) * Dot(other, y, n) == (-a) * other[n];
  }

  lemma DivideRowKeepsSolutions(e: Matrix, n: nat, i: nat)
    requires IsMatrix(e, n, n + 1) && i < n && e[i][i] != 0.0
    ensures SameSolutions(e, DivideRow(e, n, i), n)
  {
    var f := DivideRow(e, n, i);
    forall y: Vector | |y| == n
      ensures Solves(e, y, n) <==> Solves(f, y, n)
    {
      DividedRowHolds(e[i], f[i], y, n, e[i][i]);
      assert forall r :: 0 <= r < n ==> (RowHolds(e[r], y, n) <==> RowHolds(f[r], y, n));
    }
  }

  lemma SubtractRowKeepsSolutions(e: Matrix, n: nat, i: nat, t: nat)
    requires IsMatrix(e, n, n + 1) && i < n && t < n && i != t
    ensures SameSolutions(e, SubtractRow(e, n, i, t), n)
  {
    var f := SubtractRow(e, n, i, t);
    forall y: Vector | |y| == n
      ensures Solves(e, y, n) <==> Solves(f, y, n)
    {
      if RowHolds(e[i], y, n) {
        SubtractedRowHolds(e[t], e[i], f[t], y, n, e[t][i]);
        assert forall r :: 0 <= r < n ==> (RowHolds(e[r], y, n) <==> RowHolds(f[r], y, n));
      } else {
        assert !RowHolds(f[i], y, n);
      }
    }
  }

  // ----- the shape the elimination works towards

  /** Whether index r is eliminated before index c: upwards for a lower factor, downwards for an upper one. */
  predicate Before(r: int, c: int, lower: bool) {
    if lower then r < c else c < r
  }

  /** One entry of a triangular system in which the indices before i are already solved. */
  ghost predicate ShapeAt(e: Matrix, n: nat, lower: bool, i: int, r: nat, c: nat)
    requires IsMatrix(e, n, n + 1) && r < n && c < n
  {
    if r == c then
      e[r][c] != 0.0 && (Before(r, i, lower) ==> e[r][c] == 1.0)
    else
      Before(r, i, lower) || Before(c, i, lower) || Before(r, c, lower) ==> e[r][c] == 0.0
  }

  ghost predicate Shape(e: Matrix, n: nat, lower: bool, i: int) {
    && IsMatrix(e, n, n + 1)
    && forall r, c :: 0 <= r < n && 0 <= c < n ==> ShapeAt(e, n, lower, i, r, c)
  }

  /** While column i is being cleared: done for the rows between i and t. */
  ghost predicate Clearing(e: Matrix, n: nat, lower: bool, i: nat, t: int) {
    && i < n && Shape(e, n, lower, i)
    && forall r :: 0 <= r < n && Before(i, r, lower) && Before(r, t, lower) ==> e[r][i] == 0.0 && e[i][i] == 1.0
  }

  lemma DividedRow(e: Matrix, n: nat, lower: bool, i: nat, c: nat)
    requires i < n && c < n && Shape(e, n, lower, i)
    requires forall r :: 0 <= r < n && r != i ==> Before(r, i, lower) || Before(i, r, lower)
    ensures DivideRow(e, n, i)[i][c] == if c == i then 1.0 else 0.0
  {
    assert ShapeAt(e, n, lower, i, i, c) && ShapeAt(e, n, lower, i, i, i);
  }

  lemma SubtractUnitRow(f: Matrix, n: nat, i: nat, t: nat, r: nat, c: nat)
    requires IsMatrix(f, n, n + 1) && i < n && t < n && i != t && r < n && c < n
    requires f[i][c] == if c == i then 1.0 else 0.0
    ensures SubtractRow(f, n, i, t)[r][c] == if r == t && c == i then 0.0 else f[r][c]
  {
    if r == t && c != i {
      ZeroFactor(f[i][c], f[t][i]);
    }
  }

  lemma PivotStepEntry(e: Matrix, n: nat, lower: bool, i: nat, t: nat, r: nat, c: nat)
    requires i < n && t < n && i != t && r < n && c < n && Shape(e, n, lower, i)
    ensures PivotStep(e, n, i, t)[r][c] ==
      if r == i then (if c == i then 1.0 else 0.0) else if r == t && c == i then 0.0 else e[r][c]
  {
    DividedRow(e, n, lower, i, c);
    SubtractUnitRow(DivideRow(e, n, i), n, i, t, r, c);
  }

  lemma PivotStepClears(e: Matrix, n: nat, lower: bool, i: nat, t: nat)
    requires Clearing(e, n, lower, i, t) && t < n && Before(i, t, lower)
    ensures Clearing(PivotStep(e, n, i, t), n, lower, i, if lower then t + 1 else t - 1)
    ensures SameSolutions(e, PivotStep(e, n, i, t), n)
  {
    assert ShapeAt(e, n, lower, i, i, i);
    DivideRowKeepsSolutions(e, n, i);
    SubtractRowKeepsSolutions(DivideRow(e, n, i), n, i, t);
    var g := PivotStep(e, n, i, t);
    forall r, c | 0 <= r < n && 0 <= c < n
      ensures ShapeAt(g, n, lower, i, r, c)
    {
      assert ShapeAt(e, n, lower, i, r, c);
      PivotStepEntry(e, n, lower, i, t, r, c);
    }
    PivotStepEntry(e, n, lower, i, t, i, i);
    forall r | 0 <= r < n && Before(i, r, lower)
      ensures g[r][i] == if r == t then 0.0 else e[r][i]
    {
      PivotStepEntry(e, n, lower, i, t, r, i);
    }
  }

  lemma ClearedIsNextShape(e: Matrix, n: nat, lower: bool, i: nat, t: int)
    requires Clearing(e, n, lower, i, t)
    requires if lower then t == n && i < n - 1 else t == -1 && i > 0
    ensures Shape(e, n, lower, if lower then i + 1 else i - 1)
  {
    var next := if lower then i + 1 else i - 1;
    assert Before(i, next, lower) && Before(next, t, lower);
    forall r, c | 0 <= r < n && 0 <= c < n
      ensures ShapeAt(e, n, lower, next, r, c)
    {
      assert ShapeAt(e, n, lower, i, r, c);
    }
  }

  /** With only index i left, the system can be read off. */
  lemma LastUnknown(e: Matrix, n: nat, lower: bool, i: nat, d: Vector)
    requires i < n && Shape(e, n, lower, i) && i == (if lower then n - 1 else 0)
    requires |d| == n && forall r :: 0 <= r < n ==> d[r] == if r == i then Quotient(e[i][n], e[i][i]) else e[r][n]
    ensures OnlySolution(e, d, n)
  {
    forall y: Vector | |y| == n
      ensures Solves(e, y, n) <==> y == d
    {
      forall r | 0 <= r < n
        ensures RowHolds(e[r], y, n) <==> y[r] == d[r]
      {
        assert ShapeAt(e, n, lower, i, r, r);
        forall c | 0 <= c < n && c != r
          ensures e[r][c] == 0.0
        {
          assert ShapeAt(e, n, lower, i, r, c);
        }
        DotSingle(e[r], y, n, r);
        if r == i {
          SolvedByQuotient(e[i][i], y[i], e[i][n]);
        }
      }
    }
  }

  lemma SolvedByQuotient(a: real, y: real, b: real)
    requires a != 0.0
    ensures a * y == b <==> y == b / a
  {
  }

  // ----- the solver

  ghost function Augmented(m: Matrix, b: Vector): (e: Matrix)
    requires IsMatrix(m, |b|, |b|)
    ensures IsMatrix(e, |b|, |b| + 1)
  {
    seq(|b|, i requires 0 <= i < |b| => m[i] + [b[i]])
  }

  lemma {:induction false} DotPrefix(x: Vector, x': Vector, y: Vector, c: nat)
    requires c <= |x| && c <= |x'| && c <= |y|
    requires forall t :: 0 <= t < c ==> x[t] == x'[t]
    ensures Dot(x, y, c) == Dot(x', y, c)
  {
    if c > 0 {
      DotPrefix(x, x', y, c - 1);
    }
  }

  lemma AugmentedSolves(m: Matrix, b: Vector, y: Vector)
    requires IsMatrix(m, |b|, |b|) && |y| == |b|
    ensures Solves(Augmented(m, b), y, |b|) <==> Apply(m, y) == b
  {
    var e := Augmented(m, b);
    forall i | 0 <= i < |b|
      ensures RowHolds(e[i], y, |b|) <==> Apply(m, y)[i] == b[i]
    {
      DotPrefix(e[i], m[i], y, |b|);
    }
  }

  ghost predicate Triangular(m: Matrix, n: nat, lower: bool)
    requires IsMatrix(m, n, n)
  {
    && NoZeroPivot(m, n)
    && forall r, c :: 0 <= r < n && 0 <= c < n && r != c && Before(r, c, lower) ==> m[r][c] == 0.0
  }

  lemma AugmentedShape(m: Matrix, b: Vector, lower: bool, i: int)
    requires IsMatrix(m, |b|, |b|) && Triangular(m, |b|, lower)
    requires i == if lower then 0 else |b| - 1
    ensures Shape(Augmented(m, b), |b|, lower, i)
  {
    var e := Augmented(m, b);
    forall r, c | 0 <= r < |b| && 0 <= c < |b|
      ensures ShapeAt(e, |b|, lower, i, r, c)
    {
      assert e[r][c] == m[r][c];
    }
  }

  method DivideRowInPlace(e: array2<real>, i: nat)
    requires i < e.Length0 && e.Length1 == e.Length0 + 1
    modifies e
    ensures Rows(e) == DivideRow(old(Rows(e)), e.Length0, i)
  {
    ghost var before := Rows(e);
    var divisor := e[i, i];
    for c := 0 to e.Length1
      invariant forall r, k :: 0 <= r < e.Length0 && 0 <= k < e.Length1 ==>
        e[r, k] == if r == i && k < c then Quotient(before[r][k], divisor) else before[r][k]
    {
      e[i, c] := Quotient(e[i, c], divisor);
    }
    SameEntries(Rows(e), DivideRow(before, e.Length0, i), e.Length0, e.Length1);
  }

  method SubtractRowInPlace(e: array2<real>, i: nat, t: nat)
    requires i < e.Length0 && t < e.Length0 && i != t && e.Length1 == e.Length0 + 1
    modifies e
    ensures Rows(e) == SubtractRow(old(Rows(e)), e.Length0, i, t)
  {
    ghost var before := Rows(e);
    var coeff := e[t, i];
    for c := 0 to e.Length1
      invariant forall r, k :: 0 <= r < e.Length0 && 0 <= k < e.Length1 ==>
        e[r, k] == if r == t && k < c then before[t][k] - before[i][k] * coeff else before[r][k]
    {
      e[t, c] := e[t, c] - e[i, c] * coeff;
    }
    SameEntries(Rows(e), SubtractRow(before, e.Length0, i, t), e.Length0, e.Length1);
  }

  /** Eliminating a lower factor, top to bottom; the solution is left in the last column. */
  method Forward(e: array2<real>, ghost regular: bool)
    requires e.Length0 >= 1 && e.Length1 == e.Length0 + 1
    requires regular ==> Shape(Rows(e), e.Length0, true, 0)
    modifies e
    ensures regular ==> OnlySolution(old(Rows(e)), Column(Rows(e), e.Length0), e.Length0)
  {
    var n := e.Length0;
    ghost var start := Rows(e);
    var i := 0;
    while i < n - 1
      invariant 0 <= i <= n - 1
      invariant regular ==> Shape(Rows(e), n, true, i) && SameSolutions(start, Rows(e), n)
    {
      var t := i + 1;
      while t < n
        invariant i < t <= n
        invariant regular ==> Clearing(Rows(e), n, true, i, t) && SameSolutions(start, Rows(e), n)
      {
        ghost var before := Rows(e);
        DivideRowInPlace(e, i);
        SubtractRowInPlace(e, i, t);
        if regular {
          PivotStepClears(before, n, true, i, t);
        }
        t := t + 1;
      }
      if regular {
        ClearedIsNextShape(Rows(e), n, true, i, n);
      }
      i := i + 1;
    }
    FinishColumnOf(e, n - 1, true, regular, start);
  }

  /** Eliminating an upper factor, bottom to top; the solution is left in the last column. */
  method Backward(e: array2<real>, ghost regular: bool)
    requires e.Length0 >= 1 && e.Length1 == e.Length0 + 1
    requires regular ==> Shape(Rows(e), e.Length0, false, e.Length0 - 1)
    modifies e
    ensures regular ==> OnlySolution(old(Rows(e)), Column(Rows(e), e.Length0), e.Length0)
  {
    var n := e.Length0;
    ghost var start := Rows(e);
    var i := n - 1;
    while i > 0
      invariant 0 <= i <= n - 1
      invariant regular ==> Shape(Rows(e), n, false, i) && SameSolutions(start, Rows(e), n)
    {
      var t := i - 1;
      while t >= 0
        invariant -1 <= t < i
        invariant regular ==> Clearing(Rows(e), n, false, i, t) && SameSolutions(start, Rows(e), n)
      {
        ghost var before := Rows(e);
        DivideRowInPlace(e, i);
        SubtractRowInPlace(e, i, t);
        if regular {
          PivotStepClears(before, n, false, i, t);
        }
        t := t - 1;
      }
      if regular {
        ClearedIsNextShape(Rows(e), n, false, i, -1);
      }
      i := i - 1;
    }
    FinishColumnOf(e, 0, false, regular, start);
  }

  /** The last division touches the right-hand side only. */
  method FinishColumnOf(e: array2<real>, i: nat, ghost lower: bool, ghost regular: bool, ghost start: Matrix)
    requires i < e.Length0 && e.Length1 == e.Length0 + 1 && IsMatrix(start, e.Length0, e.Length1)
    requires regular ==>
      && Shape(Rows(e), e.Length0, lower, i) && SameSolutions(start, Rows(e), e.Length0)
      && i == if lower then e.Length0 - 1 else 0
    modifies e
    ensures regular ==> OnlySolution(start, Column(Rows(e), e.Length0), e.Length0)
  {
    var n := e.Length0;
    ghost var before := Rows(e);
    e[i, n] := Quotient(e[i, n], e[i, i]);
    if regular {
      assert ShapeAt(before, n, lower, i, i, i);
      LastUnknown(before, n, lower, i, Column(Rows(e), n));
    }
  }

  /** Everything but the last column overwritten by a square factor. */
  method LoadFactor(e: array2<real>, m: array2<real>)
    requires e != m && m.Length0 == m.Length1 == e.Length0 && e.Length1 == e.Length0 + 1
    modifies e
    ensures forall r, c :: 0 <= r < e.Length0 && 0 <= c < e.Length1 ==>
      e[r, c] == if c < e.Length0 then m[r, c] else old(e[r, c])
  {
    var n := e.Length0;
    for i := 0 to n
      invariant forall r, c :: 0 <= r < n && 0 <= c <= n ==> e[r, c] == if r < i && c < n then m[r, c] else old(e[r, c])
    {
      for k := 0 to n
        invariant forall r, c :: 0 <= r < n && 0 <= c <= n ==>
          e[r, c] == if (r < i && c < n) || (r == i && c < k) then m[r, c] else old(e[r, c])
      {
        e[i, k] := m[i, k];
      }
    }
  }

  method LoadRightSide(e: array2<real>, b: array<real>)
    requires b.Length == e.Length0 && e.Length1 == e.Length0 + 1
    modifies e
    ensures forall r, c :: 0 <= r < e.Length0 && 0 <= c < e.Length1 ==>
      e[r, c] == if c < e.Length0 then old(e[r, c]) else b[r]
  {
    var n := e.Length0;
    for i := 0 to n
      invariant forall r, c :: 0 <= r < n && 0 <= c <= n ==> e[r, c] == if c == n && r < i then b[r] else old(e[r, c])
    {
      e[i, n] := b[i];
    }
  }

  method ReadLastColumn(e: array2<real>) returns (x: array<real>)
    requires e.Length1 == e.Length0 + 1
    ensures fresh(x) && x[..] == Column(Rows(e), e.Length0)
  {
    var n := e.Length0;
    x := new real[n];
    for i := 0 to n
      invariant forall r :: 0 <= r < i ==> x[r] == e[r, n]
    {
      x[i] := e[i, n];
    }
  }

  ghost predicate SolvesBoth(l: Matrix, u: Matrix, b: Vector, x: Vector)
    requires IsMatrix(l, |b|, |b|) && IsMatrix(u, |b|, |b|)
  {
    forall y: Vector {:trigger Apply(l, Apply(u, y))} :: |y| == |b| ==> (Apply(l, Apply(u, y)) == b <==> y == x)
  }

  lemma TwoPasses(l: Matrix, u: Matrix, b: Vector, d: Vector, x: Vector)
    requires IsMatrix(l, |b|, |b|) && IsMatrix(u, |b|, |b|) && |d| == |b|
    requires OnlySolution(Augmented(l, b), d, |b|) && OnlySolution(Augmented(u, d), x, |b|)
    ensures SolvesBoth(l, u, b, x)
  {
    forall y: Vector | |y| == |b|
      ensures Apply(l, Apply(u, y)) == b <==> y == x
    {
      AugmentedSolves(l, b, Apply(u, y));
      AugmentedSolves(u, d, y);
    }
  }

  /** The pass that solves l d = b. */
  method LowerPass(l: array2<real>, b: array<real>) returns (e: array2<real>)
    requires l.Length0 == l.Length1 == b.Length >= 1
    ensures fresh(e) && e.Length0 == b.Length && e.Length1 == b.Length + 1
    ensures Triangular(Rows(l), b.Length, true) ==>
      OnlySolution(Augmented(Rows(l), b[..]), Column(Rows(e), b.Length), b.Length)
  {
    var n := b.Length;
    ghost var lm, bs := Rows(l), b[..];
    e := new real[n, n + 1];
    LoadFactor(e, l);
    LoadRightSide(e, b);
    SameEntries(Rows(e), Augmented(lm, bs), n, n + 1);
    ghost var regular := Triangular(lm, n, true);
    if regular {
      AugmentedShape(lm, bs, true, 0);
    }
    Forward(e, regular);
  }

  /** The pass that solves u x = d, where d is the last column that the first pass left. */
  method UpperPass(u: array2<real>, e: array2<real>)
    requires u != e && u.Length0 == u.Length1 == e.Length0 >= 1 && e.Length1 == e.Length0 + 1
    modifies e
    ensures Triangular(Rows(u), e.Length0, false) ==>
      OnlySolution(Augmented(Rows(u), old(Column(Rows(e), e.Length0))), Column(Rows(e), e.Length0), e.Length0)
  {
    var n := e.Length0;
    ghost var um, d := Rows(u), Column(Rows(e), n);
    LoadFactor(e, u);
    SameEntries(Rows(e), Augmented(um, d), n, n + 1);
    ghost var regular := Triangular(um, n, false);
    if regular {
      AugmentedShape(um, d, false, n - 1);
    }
    Backward(e, regular);
  }

  /**
   * Two Gauss-Jordan passes over one augmented matrix: first the lower factor with b, then the
   * upper factor with the result. For triangular factors without a zero on the diagonal the
   * result is the one and only solution of l (u x) = b.
   */
  method SolveImpl(l: array2<real>, u: array2<real>, b: array<real>) returns (x: array<real>)
    requires b.Length >= 1
    requires l.Length0 == l.Length1 == u.Length0 == u.Length1 == b.Length
    ensures fresh(x) && x.Length == b.Length
    ensures Triangular(Rows(l), b.Length, true) && Triangular(Rows(u), b.Length, false) ==>
      SolvesBoth(Rows(l), Rows(u), b[..], x[..])
  {
    var e := LowerPass(l, b);
    ghost var d := Column(Rows(e), b.Length);
    UpperPass(u, e);
    x := ReadLastColumn(e);
    if Triangular(Rows(l), b.Length, true) && Triangular(Rows(u), b.Length, false) {
      TwoPasses(Rows(l), Rows(u), b[..], d, x[..]);
    }
  }

  // ----- the pivoted decomposition

  /** The rows of m are the rows of a in the order p. */
  ghost predicate RowsPermuted(a: Matrix, m: Matrix, p: seq<int>, n: nat) {
    && IsMatrix(a, n, n) && IsMatrix(m, n, n) && |p| == n && IsPermutation(p)
    && forall i :: 0 <= i < n ==> m[i] == a[p[i]]
  }

  lemma LupPermutesRows(a: Matrix, l: Matrix, u: Matrix, p: seq<int>, n: nat)
    requires IsLup(a, l, u, p, n)
    ensures RowsPermuted(a, Product(l, u, n), p, n)
  {
    var lu := Product(l, u, n);
    forall i | 0 <= i < n
      ensures lu[i] == a[p[i]]
    {
      assert forall k :: 0 <= k < n ==> lu[i][k] == a[p[i]][k];
    }
  }

  /** Permuting the equations together with the right-hand side keeps the solutions. */
  lemma PermutedSystem(a: Matrix, m: Matrix, p: seq<int>, b: Vector, bp: Vector, y: Vector)
    requires |b| == |bp| == |y| && RowsPermuted(a, m, p, |b|)
    requires forall i :: 0 <= i < |b| ==> bp[i] == b[p[i]]
    ensures Apply(a, y) == b <==> Apply(m, y) == bp
  {
    var n := |b|;
    if Apply(m, y) == bp {
      forall r | 0 <= r < n
        ensures Apply(a, y)[r] == b[r]
      {
        assert r in p;
        var i :| 0 <= i < n && p[i] == r;
        assert Apply(m, y)[i] == bp[i];
      }
    }
    if Apply(a, y) == b {
      forall i | 0 <= i < n
        ensures Apply(m, y)[i] == bp[i]
      {
        assert Apply(a, y)[p[i]] == b[p[i]];
      }
    }
  }

  lemma LupIsTriangular(a: Matrix, l: Matrix, u: Matrix, p: seq<int>, n: nat)
    requires IsLup(a, l, u, p, n)
    ensures Triangular(l, n, true)
    ensures NoZeroPivot(u, n) ==> Triangular(u, n, false)
  {
  }

  ghost predicate SolvesSystem(a: Matrix, b: Vector, x: Vector)
    requires IsMatrix(a, |b|, |b|)
  {
    forall y: Vector {:trigger Apply(a, y)} :: |y| == |b| ==> (Apply(a, y) == b <==> y == x)
  }

  lemma PermutedSolution(a: Matrix, l: Matrix, u: Matrix, p: seq<int>, b: Vector, bp: Vector, x: Vector)
    requires |b| == |bp| && IsMatrix(l, |b|, |b|) && IsMatrix(u, |b|, |b|)
    requires RowsPermuted(a, Product(l, u, |b|), p, |b|)
    requires forall i :: 0 <= i < |b| ==> bp[i] == b[p[i]]
    requires SolvesBoth(l, u, bp, x)
    ensures SolvesSystem(a, b, x)
  {
    var m := Product(l, u, |b|);
    forall y: Vector | |y| == |b|
      ensures Apply(a, y) == b <==> y == x
    {
      PermutedSystem(a, m, p, b, bp, y);
      ApplyProduct(l, u, y);
    }
  }

  method PermuteRightSide(p: array<int>, b: array<real>) returns (bp: array<real>)
    requires p.Length == b.Length && forall i :: 0 <= i < p.Length ==> 0 <= p[i] < b.Length
    ensures fresh(bp) && bp.Length == b.Length && forall i :: 0 <= i < b.Length ==> bp[i] == b[p[i]]
  {
    bp := new real[b.Length];
    for i := 0 to b.Length
      invariant forall r :: 0 <= r < i ==> bp[r] == b[p[r]]
    {
      bp[i] := b[p[i]];
    }
  }

  /** Solving with a pivoted decomposition of a. */
  method Solve(l: array2<real>, u: array2<real>, p: array<int>, b: array<real>, ghost a: Matrix) returns (x: array<real>)
    requires b.Length >= 1 && p.Length == b.Length
    requires l.Length0 == l.Length1 == u.Length0 == u.Length1 == b.Length
    requires IsLup(a, Rows(l), Rows(u), p[..], b.Length)
    ensures fresh(x) && x.Length == b.Length
    ensures NoZeroPivot(Rows(u), b.Length) ==> SolvesSystem(a, b[..], x[..])
  {
    assert forall i :: 0 <= i < p.Length ==> p[i] == p[..][i];
    var bp := PermuteRightSide(p, b);
    x := SolveImpl(l, u, bp);
    LupIsTriangular(a, Rows(l), Rows(u), p[..], b.Length);
    LupPermutesRows(a, Rows(l), Rows(u), p[..], b.Length);
    if NoZeroPivot(Rows(u), b.Length) {
      PermutedSolution(a, Rows(l), Rows(u), p[..], b[..], bp[..], x[..]);
    }
  }
}

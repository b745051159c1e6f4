/** The loops of LDU, one row step at a time, each proved to leave the
    factor matrices holding the recurrences of the Factorization module:
    after row i, rows 1..i of L, D and U are final and the rows below still
    hold what the first loop of LDU put there. The division operator `div`
    is any operator that is Go's quotient for nonzero divisors. */
module LduLoops {
  import opened ComplexArith
  import opened Matrices
  import opened Factorization

  ghost predicate Dims(a: array2<Complex>, n: nat)
  {
    a.Length0 == n && a.Length1 == n
  }

  /** What the first loop leaves in row r of L: 1 on the diagonal and
      Y[r][1] / Y[1][1] in column 1. */
  ghost function LInit(Y: Mat, div: Division, r: int, c: int): Complex
  {
    if c == r then One else if c == 1 then LEntry(Y, div, r, 1) else Zero
  }

  ghost function UInit(r: int, c: int): Complex
  {
    if c == r then One else Zero
  }

  /** Rows 1..rows of l hold L (0-based: rows 0..rows-1). */
  ghost predicate LDone(l: array2<Complex>, Y: Mat, div: Division, rows: int)
    reads l
  {
    Dims(l, |Y|) && forall r, c :: 0 <= r < rows && r < |Y| && 0 <= c < |Y| ==> l[r, c] == LEntry(Y, div, r + 1, c + 1)
  }

  ghost predicate LPending(l: array2<Complex>, Y: Mat, div: Division, rows: int)
    reads l
  {
    Dims(l, |Y|) && forall r, c :: rows <= r < |Y| && 0 <= r && 0 <= c < |Y| ==> l[r, c] == LInit(Y, div, r + 1, c + 1)
  }

  ghost predicate UDone(u: array2<Complex>, Y: Mat, div: Division, rows: int)
    reads u
  {
    Dims(u, |Y|) && forall r, c :: 0 <= r < rows && r < |Y| && 0 <= c < |Y| ==> u[r, c] == UEntry(Y, div, r + 1, c + 1)
  }

  ghost predicate UPending(u: array2<Complex>, Y: Mat, rows: int)
    reads u
  {
    Dims(u, |Y|) && forall r, c :: rows <= r < |Y| && 0 <= r && 0 <= c < |Y| ==> u[r, c] == UInit(r + 1, c + 1)
  }

  ghost predicate DDone(d: array2<Complex>, Y: Mat, div: Division, rows: int)
    reads d
  {
    Dims(d, |Y|) && forall r, c :: 0 <= r < rows && r < |Y| && 0 <= c < |Y| ==> d[r, c] == DEntry(Y, div, r + 1, c + 1)
  }

  ghost predicate DPending(d: array2<Complex>, Y: Mat, rows: int)
    reads d
  {
    Dims(d, |Y|) && forall r, c :: rows <= r < |Y| && 0 <= r && 0 <= c < |Y| ==> d[r, c] == Zero
  }

  /** The first loop of LDU: L[i][1] = Y[i][1] / Y[1][1], then
      L[i][i] = U[i][i] = 1, on fresh zero matrices. */
  method InitFactors(y: array2<Complex>, ghost Y: Mat, ghost div: Division) returns (l: ComplexMatrix, d: ComplexMatrix, u: ComplexMatrix)
    requires IsSquare(Y) && Dims(y, |Y|) && Snapshot(y) == Y && IsQuotient(div)
    requires |Y| >= 1 ==> At(Y, 1, 1) != Zero
    ensures fresh(l) && fresh(d) && fresh(u) && fresh(l.m) && fresh(d.m) && fresh(u.m)
    ensures l.m != d.m && l.m != u.m && d.m != u.m
    ensures LPending(l.m, Y, div, 0) && UPending(u.m, Y, 0) && DPending(d.m, Y, 0)
  {
    var n := y.Length0;
    l := new ComplexMatrix(n, n);
    d := new ComplexMatrix(n, n);
    u := new ComplexMatrix(n, n);
    if n >= 1 {
      FirstColumn(Y, div);
    }
    var i := 1;
    while i <= n
      invariant 1 <= i <= n + 1
      invariant InitUpTo(l.m, u.m, Y, div, i - 1)
      invariant DPending(d.m, Y, 0)
    {
      InitRow(l, u, y, Y, div, i);
      i := i + 1;
    }
  }

  /** The first `rows` rows of l and u hold what the first loop of LDU puts
      there, and the rows below are still zero. */
  ghost predicate InitUpTo(l: array2<Complex>, u: array2<Complex>, Y: Mat, div: Division, rows: int)
    reads l, u
  {
    Dims(l, |Y|) && Dims(u, |Y|)
    && (forall r, c :: 0 <= r < |Y| && 0 <= c < |Y| ==> l[r, c] == if r < rows then LInit(Y, div, r + 1, c + 1) else Zero)
    && (forall r, c :: 0 <= r < |Y| && 0 <= c < |Y| ==> u[r, c] == if r < rows then UInit(r + 1, c + 1) else Zero)
  }

  /** One pass of the first loop: L[i][1], L[i][i] and U[i][i]. */
  method InitRow(l: ComplexMatrix, u: ComplexMatrix, y: array2<Complex>, ghost Y: Mat, ghost div: Division, i: int)
    requires IsSquare(Y) && Dims(y, |Y|) && Snapshot(y) == Y && IsQuotient(div) && 1 <= i <= |Y|
    requires At(Y, 1, 1) != Zero
    requires forall r :: 2 <= r <= |Y| ==> LowerL(Y, div, r, 1) == div(At(Y, r, 1), At(Y, 1, 1))
    requires l.m != u.m && l.m != y && u.m != y
    requires InitUpTo(l.m, u.m, Y, div, i - 1)
    modifies l.m, u.m
    ensures InitUpTo(l.m, u.m, Y, div, i)
  {
    assert y[i - 1, 0] == At(Y, i, 1) && y[0, 0] == At(Y, 1, 1);
    l.RcSet(i, 1, Div(y[i - 1, 0], y[0, 0]));
    l.RcSet(i, i, One);
    u.RcSet(i, i, One);
  }

  /** The inner loop for D[i][i] and U[i][j]: the sum of
      U[k][i] * U[k][j] * D[k][k] over k = 1..i-1. */
  method UpperSum(u: ComplexMatrix, d: ComplexMatrix, ghost Y: Mat, ghost div: Division, i: int, j: int) returns (s: Complex)
    requires 1 <= i <= j <= |Y|
    requires UDone(u.m, Y, div, i - 1) && DDone(d.m, Y, div, i - 1)
    ensures s == SumUUD(Y, div, i, j, i - 1)
  {
    s := Zero;
    var k := 1;
    while k <= i - 1
      invariant 1 <= k <= i
      invariant s == SumUUD(Y, div, i, j, k - 1)
    {
      s := Add(s, Mul(Mul(u.RcAt(k, i), u.RcAt(k, j)), d.RcAt(k, k)));
      k := k + 1;
    }
  }

  /** The inner loop for L[i][j]: the sum of L[i][k] * L[j][k] * D[k][k]
      over k = 1..j-1, reading the part of row i already computed. */
  method LowerSum(l: ComplexMatrix, d: ComplexMatrix, ghost Y: Mat, ghost div: Division, i: int, j: int) returns (s: Complex)
    requires 1 <= j < i <= |Y|
    requires LDone(l.m, Y, div, j) && DDone(d.m, Y, div, j - 1)
    requires RowPrefix(l.m, Y, div, i, j - 1)
    ensures s == SumLLD(Y, div, i, j, j - 1)
  {
    s := Zero;
    var k := 1;
    while k <= j - 1
      invariant 1 <= k <= j
      invariant s == SumLLD(Y, div, i, j, k - 1)
    {
      s := Add(s, Mul(Mul(l.RcAt(i, k), l.RcAt(j, k)), d.RcAt(k, k)));
      k := k + 1;
    }
  }

  /** Columns 1..cols of row i of l hold L. */
  ghost predicate RowPrefix(l: array2<Complex>, Y: Mat, div: Division, i: int, cols: int)
    reads l
  {
    Dims(l, |Y|) && forall r, c :: r == i - 1 && 0 <= r < |Y| && 0 <= c < cols && c < |Y| ==> l[r, c] == LEntry(Y, div, r + 1, c + 1)
  }

  /** D[i][i] = Y[i][i] - sum: row i of D becomes final. */
  method PivotStep(u: ComplexMatrix, d: ComplexMatrix, y: array2<Complex>, ghost Y: Mat, ghost div: Division, i: int)
    requires IsSquare(Y) && Dims(y, |Y|) && Snapshot(y) == Y && 1 <= i <= |Y|
    requires d.m != u.m && d.m != y
    requires UDone(u.m, Y, div, i - 1) && DDone(d.m, Y, div, i - 1) && DPending(d.m, Y, i - 1)
    modifies d.m
    ensures DDone(d.m, Y, div, i) && DPending(d.m, Y, i)
  {
    var s := UpperSum(u, d, Y, div, i, i);
    d.RcSet(i, i, Sub(y[i - 1, i - 1], s));
  }

  /** Row i of u is final in columns before j - 1 (0-based), every row
      above is final, and the rest still holds the first loop's values. */
  ghost predicate URowState(u: array2<Complex>, Y: Mat, div: Division, i: int, j: int)
    reads u
  {
    Dims(u, |Y|) && forall r, c :: 0 <= r < |Y| && 0 <= c < |Y| ==>
      u[r, c] == if r < i - 1 || (r == i - 1 && c < j - 1) then UEntry(Y, div, r + 1, c + 1) else UInit(r + 1, c + 1)
  }

  /** U[i][j] = (Y[i][j] - sum) / D[i][i] for j = i+1..n, skipped for the
      last row: row i of U becomes final. */
  method UpperRow(u: ComplexMatrix, d: ComplexMatrix, y: array2<Complex>, ghost Y: Mat, ghost div: Division, i: int)
    requires IsSquare(Y) && Dims(y, |Y|) && Snapshot(y) == Y && 1 <= i <= |Y| && IsQuotient(div)
    requires u.m != d.m && u.m != y
    requires i < |Y| ==> PivotD(Y, div, i) != Zero
    requires UDone(u.m, Y, div, i - 1) && UPending(u.m, Y, i - 1) && DDone(d.m, Y, div, i)
    modifies u.m
    ensures UDone(u.m, Y, div, i) && UPending(u.m, Y, i)
  {
    var n := y.Length0;
    if i != n {
      var j := i + 1;
      while j <= n
        invariant i + 1 <= j <= n + 1
        invariant URowState(u.m, Y, div, i, j)
      {
        UpperEntry(u, d, y, Y, div, i, j);
        j := j + 1;
      }
    }
  }

  /** One pass of the j loop: U[i][j] = (Y[i][j] - sum) / D[i][i]. */
  method UpperEntry(u: ComplexMatrix, d: ComplexMatrix, y: array2<Complex>, ghost Y: Mat, ghost div: Division, i: int, j: int)
    requires IsSquare(Y) && Dims(y, |Y|) && Snapshot(y) == Y && 1 <= i < j <= |Y| && IsQuotient(div)
    requires u.m != d.m && u.m != y
    requires PivotD(Y, div, i) != Zero
    requires URowState(u.m, Y, div, i, j) && DDone(d.m, Y, div, i)
    modifies u.m
    ensures URowState(u.m, Y, div, i, j + 1)
  {
    var s := UpperSum(u, d, Y, div, i, j);
    assert d.m[i - 1, i - 1] == PivotD(Y, div, i);
    assert y[i - 1, j - 1] == At(Y, i, j);
    var v := Div(Sub(y[i - 1, j - 1], s), d.RcAt(i, i));
    assert v == UEntry(Y, div, i, j);
    u.RcSet(i, j, v);
    forall r, c | 0 <= r < |Y| && 0 <= c < |Y|
      ensures u.m[r, c] == if r < i - 1 || (r == i - 1 && c < j) then UEntry(Y, div, r + 1, c + 1) else UInit(r + 1, c + 1)
    {
      if r != i - 1 || c != j - 1 {
        assert u.m[r, c] == old(u.m[r, c]);
      }
    }
  }

  /** Row i of l is final in columns before j - 1 (0-based), every row
      above is final, and the rest still holds the first loop's values. */
  ghost predicate LRowState(l: array2<Complex>, Y: Mat, div: Division, i: int, j: int)
    reads l
  {
    Dims(l, |Y|) && forall r, c :: 0 <= r < |Y| && 0 <= c < |Y| ==>
      l[r, c] == if r < i - 1 || (r == i - 1 && c < j - 1) then LEntry(Y, div, r + 1, c + 1) else LInit(Y, div, r + 1, c + 1)
  }

  /** L[i][j] = (Y[i][j] - sum) / D[j][j] for j = 1..i-1, skipped for the
      first row: row i of L becomes final. */
  method LowerRow(l: ComplexMatrix, d: ComplexMatrix, y: array2<Complex>, ghost Y: Mat, ghost div: Division, i: int)
    requires IsSquare(Y) && Dims(y, |Y|) && Snapshot(y) == Y && 1 <= i <= |Y| && IsQuotient(div)
    requires l.m != d.m && l.m != y
    requires forall k :: 1 <= k < i ==> PivotD(Y, div, k) != Zero
    requires LDone(l.m, Y, div, i - 1) && LPending(l.m, Y, div, i - 1) && DDone(d.m, Y, div, i - 1)
    modifies l.m
    ensures LDone(l.m, Y, div, i) && LPending(l.m, Y, div, i)
  {
    if i == 1 {
      return;
    }
    var j := 1;
    while j <= i - 1
      invariant 1 <= j <= i
      invariant LRowState(l.m, Y, div, i, j)
    {
      LowerEntry(l, d, y, Y, div, i, j);
      j := j + 1;
    }
  }

  /** One pass of the j loop: L[i][j] = (Y[i][j] - sum) / D[j][j]. */
  method LowerEntry(l: ComplexMatrix, d: ComplexMatrix, y: array2<Complex>, ghost Y: Mat, ghost div: Division, i: int, j: int)
    requires IsSquare(Y) && Dims(y, |Y|) && Snapshot(y) == Y && 1 <= j < i <= |Y| && IsQuotient(div)
    requires l.m != d.m && l.m != y
    requires PivotD(Y, div, j) != Zero
    requires LRowState(l.m, Y, div, i, j) && DDone(d.m, Y, div, i - 1)
    modifies l.m
    ensures LRowState(l.m, Y, div, i, j + 1)
  {
    LRowStateDone(l.m, Y, div, i, j);
    var s := LowerSum(l, d, Y, div, i, j);
    assert d.m[j - 1, j - 1] == PivotD(Y, div, j);
    assert y[i - 1, j - 1] == At(Y, i, j);
    var v := Div(Sub(y[i - 1, j - 1], s), d.RcAt(j, j));
    assert v == LowerL(Y, div, i, j);
    l.RcSet(i, j, v);
    forall r, c | 0 <= r < |Y| && 0 <= c < |Y|
      ensures l.m[r, c] == if r < i - 1 || (r == i - 1 && c < j) then LEntry(Y, div, r + 1, c + 1) else LInit(Y, div, r + 1, c + 1)
    {
      if r != i - 1 || c != j - 1 {
        assert l.m[r, c] == old(l.m[r, c]);
      }
    }
  }

  /** In the middle of row i, the rows above and the first j - 1 columns of
      row i are final. */
  lemma LRowStateDone(l: array2<Complex>, Y: Mat, div: Division, i: int, j: int)
    requires 1 <= j < i <= |Y| && LRowState(l, Y, div, i, j)
    ensures LDone(l, Y, div, j) && RowPrefix(l, Y, div, i, j - 1)
  {
  }
}

/** The LDU factorization of the admittance matrix as a value: the Crout
    style recurrences LDU evaluates row by row, the shape of the three
    factors, and the product identity L * D * U == Y for a symmetric Y. */
module Factorization {
  import opened ComplexArith
  import opened Matrices

  /** A division operator. The recurrences are stated for any operator
      `div`; LDU uses Go's quotient, DivOr0, and the product identity needs
      only that div(a, b) * b == a whenever b is nonzero. */
  type Division = (Complex, Complex) -> Complex

  ghost predicate IsDivision(div: Division)
  {
    forall a, b :: b != Zero ==> Mul(div(a, b), b) == a
  }

  /** a / b, made total so that the recurrences are defined everywhere; LDU
      itself only divides by nonzero pivots. */
  ghost function DivOr0(a: Complex, b: Complex): Complex
  {
    if b == Zero then Zero else Div(a, b)
  }

  lemma DivOr0IsDivision()
    ensures IsDivision(DivOr0)
  {
  }

  /** div is Go's quotient wherever the divisor is nonzero. */
  ghost predicate IsQuotient(div: Division)
  {
    forall a, b :: b != Zero ==> div(a, b) == Div(a, b)
  }

  lemma DivOr0IsQuotient()
    ensures IsQuotient(DivOr0)
  {
  }

  /** D[i][i] = Y[i][i] - sum over k < i of U[k][i] * U[k][i] * D[k][k]. */
  ghost function PivotD(Y: Mat, div: Division, i: nat): Complex
    decreases i, 2
  {
    if 1 <= i <= |Y| then Sub(At(Y, i, i), SumUUD(Y, div, i, i, i - 1)) else Zero
  }

  /** U[k][i] * U[k][j] * D[k][k] summed over k = 1..m, left to right. */
  ghost function SumUUD(Y: Mat, div: Division, i: nat, j: nat, m: nat): Complex
    decreases m, 4
  {
    if m == 0 then Zero
    else Add(SumUUD(Y, div, i, j, m - 1), Mul(Mul(UpperU(Y, div, m, i), UpperU(Y, div, m, j)), PivotD(Y, div, m)))
  }

  /** U[i][j] for i < j: (Y[i][j] - sum over k < i of U[k][i] * U[k][j] * D[k][k]) / D[i][i]. */
  ghost function UpperU(Y: Mat, div: Division, i: nat, j: nat): Complex
    decreases i, 3
  {
    if 1 <= i < j <= |Y| then div(Sub(At(Y, i, j), SumUUD(Y, div, i, j, i - 1)), PivotD(Y, div, i)) else Zero
  }

  /** L[i][j] for j < i: (Y[i][j] - sum over k < j of L[i][k] * L[j][k] * D[k][k]) / D[j][j]. */
  ghost function LowerL(Y: Mat, div: Division, i: nat, j: nat): Complex
    decreases j, 5
  {
    if 1 <= j < i <= |Y| then div(Sub(At(Y, i, j), SumLLD(Y, div, i, j, j - 1)), PivotD(Y, div, j)) else Zero
  }

  /** L[i][k] * L[j][k] * D[k][k] summed over k = 1..m, left to right. */
  ghost function SumLLD(Y: Mat, div: Division, i: nat, j: nat, m: nat): Complex
    decreases m, 6
  {
    if m == 0 then Zero
    else Add(SumLLD(Y, div, i, j, m - 1), Mul(Mul(LowerL(Y, div, i, m), LowerL(Y, div, j, m)), PivotD(Y, div, m)))
  }

  ghost function LEntry(Y: Mat, div: Division, i: int, j: int): Complex
  {
    if i < 1 || j < 1 then Zero else if i == j then One else LowerL(Y, div, i, j)
  }

  ghost function UEntry(Y: Mat, div: Division, i: int, j: int): Complex
  {
    if i < 1 || j < 1 then Zero else if i == j then One else UpperU(Y, div, i, j)
  }

  ghost function DEntry(Y: Mat, div: Division, i: int, j: int): Complex
  {
    if i < 1 || j < 1 then Zero else if i == j then PivotD(Y, div, i) else Zero
  }

  /** The L factor: unit lower-triangular. */
  ghost function LMat(Y: Mat, div: Division): (L: Mat)
    ensures |L| == |Y| && IsSquare(L) && UnitLower(L)
    ensures forall i, j :: 1 <= i <= |Y| && 1 <= j <= |Y| ==> At(L, i, j) == LEntry(Y, div, i, j)
  {
    var L := seq(|Y|, i => seq(|Y|, j => LEntry(Y, div, i + 1, j + 1)));
    assert forall i :: 0 <= i < |Y| ==> |L[i]| == |Y|;
    assert forall i, j :: 1 <= i <= |Y| && 1 <= j <= |Y| ==> At(L, i, j) == LEntry(Y, div, i, j);
    L
  }

  /** The D factor: diagonal, carrying the pivots. */
  ghost function DMat(Y: Mat, div: Division): (D: Mat)
    ensures |D| == |Y| && IsSquare(D) && Diagonal(D)
    ensures forall i :: 1 <= i <= |Y| ==> At(D, i, i) == PivotD(Y, div, i)
    ensures forall i, j :: 1 <= i <= |Y| && 1 <= j <= |Y| ==> At(D, i, j) == DEntry(Y, div, i, j)
  {
    var D := seq(|Y|, i => seq(|Y|, j => DEntry(Y, div, i + 1, j + 1)));
    assert forall i :: 0 <= i < |Y| ==> |D[i]| == |Y|;
    assert forall i, j :: 1 <= i <= |Y| && 1 <= j <= |Y| ==> At(D, i, j) == DEntry(Y, div, i, j);
    D
  }

  /** The U factor: unit upper-triangular. */
  ghost function UMat(Y: Mat, div: Division): (U: Mat)
    ensures |U| == |Y| && IsSquare(U) && UnitUpper(U)
    ensures forall i, j :: 1 <= i <= |Y| && 1 <= j <= |Y| ==> At(U, i, j) == UEntry(Y, div, i, j)
  {
    var U := seq(|Y|, i => seq(|Y|, j => UEntry(Y, div, i + 1, j + 1)));
    assert forall i :: 0 <= i < |Y| ==> |U[i]| == |Y|;
    assert forall i, j :: 1 <= i <= |Y| && 1 <= j <= |Y| ==> At(U, i, j) == UEntry(Y, div, i, j);
    U
  }

  /** What LDU needs in order never to divide by zero: Y[1][1] (the first
      column of L is Y[i][1] / Y[1][1]) and every pivot D[k][k] with k < n
      (D[n][n] is never a divisor). */
  ghost predicate LduDefined(Y: Mat, div: Division)
  {
    (|Y| >= 1 ==> At(Y, 1, 1) != Zero) && forall k :: 1 <= k < |Y| ==> PivotD(Y, div, k) != Zero
  }

  /** Every pivot is nonzero, as the Z solve additionally needs. */
  ghost predicate NonzeroPivots(Y: Mat, div: Division)
  {
    forall k :: 1 <= k <= |Y| ==> PivotD(Y, div, k) != Zero
  }

  /** The first pivot and the first column of L: D[1][1] == Y[1][1] and
      L[i][1] == Y[i][1] / Y[1][1]. */
  lemma FirstColumn(Y: Mat, div: Division)
    requires IsSquare(Y) && |Y| >= 1
    ensures PivotD(Y, div, 1) == At(Y, 1, 1)
    ensures forall i :: 2 <= i <= |Y| ==> LowerL(Y, div, i, 1) == div(At(Y, i, 1), At(Y, 1, 1))
  {
    assert PivotD(Y, div, 1) == Sub(At(Y, 1, 1), SumUUD(Y, div, 1, 1, 0));
    forall i | 2 <= i <= |Y|
      ensures LowerL(Y, div, i, 1) == div(At(Y, i, 1), At(Y, 1, 1))
    {
      assert Sub(At(Y, i, 1), SumLLD(Y, div, i, 1, 0)) == At(Y, i, 1);
    }
  }

  // ---------------------------------------------------------------------
  // Symmetry: U is the transpose of L

  lemma {:induction false} Mirror(Y: Mat, div: Division, k: nat, m: nat)
    requires IsSquare(Y) && Symmetric(Y) && 1 <= k < m <= |Y|
    ensures UpperU(Y, div, k, m) == LowerL(Y, div, m, k)
    decreases k, k
  {
    MirrorSums(Y, div, k, m, k - 1);
  }

  lemma {:induction false} MirrorSums(Y: Mat, div: Division, k: nat, m: nat, p: nat)
    requires IsSquare(Y) && Symmetric(Y) && 1 <= k < m <= |Y| && p < k
    ensures SumUUD(Y, div, k, m, p) == SumLLD(Y, div, m, k, p)
    decreases k, p
  {
    if p > 0 {
      MirrorSums(Y, div, k, m, p - 1);
      Mirror(Y, div, p, k);
      Mirror(Y, div, p, m);
      MulComm(LowerL(Y, div, k, p), LowerL(Y, div, m, p));
    }
  }

  /** For a symmetric Y, U[i][j] == L[j][i]. */
  lemma UIsLTransposed(Y: Mat, div: Division)
    requires IsSquare(Y) && Symmetric(Y)
    ensures forall i, j :: 1 <= i <= |Y| && 1 <= j <= |Y| ==> At(UMat(Y, div), i, j) == At(LMat(Y, div), j, i)
  {
    forall i, j | 1 <= i <= |Y| && 1 <= j <= |Y|
      ensures At(UMat(Y, div), i, j) == At(LMat(Y, div), j, i)
    {
      if i < j {
        Mirror(Y, div, i, j);
      }
    }
  }

  // ---------------------------------------------------------------------
  // The product L * D * U

  /** Term t of (L * D * U)[i][j] for the diagonal D. */
  ghost function LduTerm(Y: Mat, div: Division, i: nat, j: nat, t: int): Complex
  {
    if t < 1 then Zero else Mul(Mul(LEntry(Y, div, i, t), PivotD(Y, div, t)), UEntry(Y, div, t, j))
  }

  /** The terms of (L * D * U)[i][j] as one function of t. */
  ghost function LduTerms(Y: Mat, div: Division, i: nat, j: nat): int -> Complex
  {
    t => LduTerm(Y, div, i, j, t)
  }

  /** Above the row index the terms reproduce the U-sums of the recurrence. */
  lemma {:induction false} UpperPrefix(Y: Mat, div: Division, i: nat, j: nat, m: nat)
    requires IsSquare(Y) && Symmetric(Y) && 1 <= i <= j <= |Y| && m < i
    ensures Sum(m, LduTerms(Y, div, i, j)) == SumUUD(Y, div, i, j, m)
  {
    if m > 0 {
      UpperPrefix(Y, div, i, j, m - 1);
      Mirror(Y, div, m, i);
      MulSwapLast(UpperU(Y, div, m, i), PivotD(Y, div, m), UpperU(Y, div, m, j));
    }
  }

  /** Left of the column index the terms reproduce the L-sums of the recurrence. */
  lemma {:induction false} LowerPrefix(Y: Mat, div: Division, i: nat, j: nat, m: nat)
    requires IsSquare(Y) && Symmetric(Y) && 1 <= j < i <= |Y| && m < j
    ensures Sum(m, LduTerms(Y, div, i, j)) == SumLLD(Y, div, i, j, m)
  {
    if m > 0 {
      LowerPrefix(Y, div, i, j, m - 1);
      Mirror(Y, div, m, j);
      MulSwapLast(LowerL(Y, div, i, m), PivotD(Y, div, m), LowerL(Y, div, j, m));
    }
  }

  lemma LduTermRightOfRow(Y: Mat, div: Division, i: nat, j: nat, t: int)
    requires 1 <= i < t
    ensures LduTerm(Y, div, i, j, t) == Zero
  {
    assert LEntry(Y, div, i, t) == Zero;
    MulZeroLeft(PivotD(Y, div, t));
    MulZeroLeft(UEntry(Y, div, t, j));
  }

  lemma LduTermBelowColumn(Y: Mat, div: Division, i: nat, j: nat, t: int)
    requires 1 <= j < t
    ensures LduTerm(Y, div, i, j, t) == Zero
  {
    assert UEntry(Y, div, t, j) == Zero;
    MulZeroLeft(Mul(LEntry(Y, div, i, t), PivotD(Y, div, t)));
  }

  /** Past row i the terms vanish, so the sum ends at term i. */
  lemma LduSplitAtRow(Y: Mat, div: Division, i: nat, j: nat)
    requires 1 <= i <= |Y|
    ensures Sum(|Y|, LduTerms(Y, div, i, j)) == Add(Sum(i - 1, LduTerms(Y, div, i, j)), LduTerms(Y, div, i, j)(i))
  {
    forall t | i < t <= |Y|
      ensures LduTerms(Y, div, i, j)(t) == Zero
    {
      LduTermRightOfRow(Y, div, i, j, t);
    }
    SumLastTerm(|Y|, i, LduTerms(Y, div, i, j));
  }

  /** Past column j the terms vanish, so the sum ends at term j. */
  lemma LduSplitAtColumn(Y: Mat, div: Division, i: nat, j: nat)
    requires 1 <= j <= |Y|
    ensures Sum(|Y|, LduTerms(Y, div, i, j)) == Add(Sum(j - 1, LduTerms(Y, div, i, j)), LduTerms(Y, div, i, j)(j))
  {
    forall t | j < t <= |Y|
      ensures LduTerms(Y, div, i, j)(t) == Zero
    {
      LduTermBelowColumn(Y, div, i, j, t);
    }
    SumLastTerm(|Y|, j, LduTerms(Y, div, i, j));
  }

  lemma LduTermOnRow(Y: Mat, div: Division, i: nat, j: nat)
    requires IsSquare(Y) && 1 <= i <= j <= |Y|
    requires i < j ==> Mul(UpperU(Y, div, i, j), PivotD(Y, div, i)) == Sub(At(Y, i, j), SumUUD(Y, div, i, j, i - 1))
    ensures LduTerms(Y, div, i, j)(i) == Sub(At(Y, i, j), SumUUD(Y, div, i, j, i - 1))
  {
    var d := PivotD(Y, div, i);
    assert d == Sub(At(Y, i, i), SumUUD(Y, div, i, i, i - 1));
    MulOne(d);
    assert LduTerm(Y, div, i, j, i) == Mul(Mul(One, d), UEntry(Y, div, i, j));
    if i == j {
      MulOne(d);
    } else {
      MulComm(d, UpperU(Y, div, i, j));
    }
  }

  lemma LduTermOnColumn(Y: Mat, div: Division, i: nat, j: nat)
    requires IsSquare(Y) && 1 <= j < i <= |Y|
    requires Mul(LowerL(Y, div, i, j), PivotD(Y, div, j)) == Sub(At(Y, i, j), SumLLD(Y, div, i, j, j - 1))
    ensures LduTerms(Y, div, i, j)(j) == Sub(At(Y, i, j), SumLLD(Y, div, i, j, j - 1))
  {
    var q := LowerL(Y, div, i, j);
    MulOne(Mul(q, PivotD(Y, div, j)));
    assert LduTerm(Y, div, i, j, j) == Mul(Mul(q, PivotD(Y, div, j)), One);
  }

  /** The first i - 1 terms of an entry on or above the diagonal are its U-sum. */
  lemma UpperPrefixToRow(Y: Mat, div: Division, i: nat, j: nat)
    requires IsSquare(Y) && Symmetric(Y) && 1 <= i <= j <= |Y|
    ensures Sum(i - 1, LduTerms(Y, div, i, j)) == SumUUD(Y, div, i, j, i - 1)
  {
    UpperPrefix(Y, div, i, j, i - 1);
  }

  /** The first j - 1 terms of an entry below the diagonal are its L-sum. */
  lemma LowerPrefixToColumn(Y: Mat, div: Division, i: nat, j: nat)
    requires IsSquare(Y) && Symmetric(Y) && 1 <= j < i <= |Y|
    ensures Sum(j - 1, LduTerms(Y, div, i, j)) == SumLLD(Y, div, i, j, j - 1)
  {
    LowerPrefix(Y, div, i, j, j - 1);
  }

  lemma LduUpperFromPrefix(Y: Mat, div: Division, i: nat, j: nat)
    requires IsSquare(Y) && 1 <= i <= j <= |Y|
    requires i < j ==> Mul(UpperU(Y, div, i, j), PivotD(Y, div, i)) == Sub(At(Y, i, j), SumUUD(Y, div, i, j, i - 1))
    requires Sum(i - 1, LduTerms(Y, div, i, j)) == SumUUD(Y, div, i, j, i - 1)
    ensures Sum(|Y|, LduTerms(Y, div, i, j)) == At(Y, i, j)
  {
    var f := LduTerms(Y, div, i, j);
    LduSplitAtRow(Y, div, i, j);
    LduTermOnRow(Y, div, i, j);
    AddBack(Sum(|Y|, f), Sum(i - 1, f), f(i), SumUUD(Y, div, i, j, i - 1), At(Y, i, j));
  }

  lemma LduLowerFromPrefix(Y: Mat, div: Division, i: nat, j: nat)
    requires IsSquare(Y) && 1 <= j < i <= |Y|
    requires Mul(LowerL(Y, div, i, j), PivotD(Y, div, j)) == Sub(At(Y, i, j), SumLLD(Y, div, i, j, j - 1))
    requires Sum(j - 1, LduTerms(Y, div, i, j)) == SumLLD(Y, div, i, j, j - 1)
    ensures Sum(|Y|, LduTerms(Y, div, i, j)) == At(Y, i, j)
  {
    var f := LduTerms(Y, div, i, j);
    LduSplitAtColumn(Y, div, i, j);
    LduTermOnColumn(Y, div, i, j);
    AddBack(Sum(|Y|, f), Sum(j - 1, f), f(j), SumLLD(Y, div, i, j, j - 1), At(Y, i, j));
  }

  /** On and above the diagonal, (L * D * U)[i][j] == Y[i][j]. */
  lemma LduProductUpper(Y: Mat, div: Division, i: nat, j: nat)
    requires IsSquare(Y) && Symmetric(Y) && 1 <= i <= j <= |Y|
    requires i < j ==> Mul(UpperU(Y, div, i, j), PivotD(Y, div, i)) == Sub(At(Y, i, j), SumUUD(Y, div, i, j, i - 1))
    ensures Sum(|Y|, LduTerms(Y, div, i, j)) == At(Y, i, j)
  {
    UpperPrefixToRow(Y, div, i, j);
    LduUpperFromPrefix(Y, div, i, j);
  }

  /** Below the diagonal, (L * D * U)[i][j] == Y[i][j]. */
  lemma LduProductLower(Y: Mat, div: Division, i: nat, j: nat)
    requires IsSquare(Y) && Symmetric(Y) && 1 <= j < i <= |Y|
    requires Mul(LowerL(Y, div, i, j), PivotD(Y, div, j)) == Sub(At(Y, i, j), SumLLD(Y, div, i, j, j - 1))
    ensures Sum(|Y|, LduTerms(Y, div, i, j)) == At(Y, i, j)
  {
    LowerPrefixToColumn(Y, div, i, j);
    LduLowerFromPrefix(Y, div, i, j);
  }

  lemma LduProductEntry(Y: Mat, div: Division, i: nat, j: nat)
    requires IsSquare(Y) && Symmetric(Y) && LduDefined(Y, div) && IsDivision(div)
    requires 1 <= i <= |Y| && 1 <= j <= |Y|
    ensures Sum(|Y|, LduTerms(Y, div, i, j)) == At(Y, i, j)
  {
    if i < j {
      assert UpperU(Y, div, i, j) == div(Sub(At(Y, i, j), SumUUD(Y, div, i, j, i - 1)), PivotD(Y, div, i));
      LduProductUpper(Y, div, i, j);
    } else if i == j {
      LduProductUpper(Y, div, i, j);
    } else {
      assert LowerL(Y, div, i, j) == div(Sub(At(Y, i, j), SumLLD(Y, div, i, j, j - 1)), PivotD(Y, div, j));
      LduProductLower(Y, div, i, j);
    }
  }

  /** The terms of L * D * U read off the three factor matrices are those of LduTerms. */
  lemma TripleTermsOfFactors(Y: Mat, div: Division, i: nat, j: nat)
    requires IsSquare(Y) && 1 <= i <= |Y| && 1 <= j <= |Y|
    ensures forall t :: 1 <= t <= |Y| ==>
      TripleTerms(LMat(Y, div), DMat(Y, div), UMat(Y, div), i, j)(t) == LduTerms(Y, div, i, j)(t)
  {
    var L, D, U := LMat(Y, div), DMat(Y, div), UMat(Y, div);
    forall t | 1 <= t <= |Y|
      ensures TripleTerms(L, D, U, i, j)(t) == LduTerms(Y, div, i, j)(t)
    {
      assert At(L, i, t) == LEntry(Y, div, i, t);
      assert At(D, t, t) == PivotD(Y, div, t);
      assert At(U, t, j) == UEntry(Y, div, t, j);
    }
  }

  lemma LduProductAt(Y: Mat, div: Division, i: nat, j: nat)
    requires IsSquare(Y) && Symmetric(Y) && LduDefined(Y, div) && IsDivision(div)
    requires 1 <= i <= |Y| && 1 <= j <= |Y|
    ensures Sum(|Y|, TripleTerms(LMat(Y, div), DMat(Y, div), UMat(Y, div), i, j)) == At(Y, i, j)
  {
    LduProductEntry(Y, div, i, j);
    TripleTermsOfFactors(Y, div, i, j);
    SumExt(|Y|, TripleTerms(LMat(Y, div), DMat(Y, div), UMat(Y, div), i, j), LduTerms(Y, div, i, j));
  }

  /** The factorization reproduces Y: sum over t of L[i][t] * D[t][t] * U[t][j]
      equals Y[i][j] for every i, j. */
  lemma LduProduct(Y: Mat, div: Division)
    requires IsSquare(Y) && Symmetric(Y) && LduDefined(Y, div) && IsDivision(div)
    ensures forall i, j :: 1 <= i <= |Y| && 1 <= j <= |Y| ==>
      Sum(|Y|, TripleTerms(LMat(Y, div), DMat(Y, div), UMat(Y, div), i, j)) == At(Y, i, j)
  {
    forall i, j | 1 <= i <= |Y| && 1 <= j <= |Y|
      ensures Sum(|Y|, TripleTerms(LMat(Y, div), DMat(Y, div), UMat(Y, div), i, j)) == At(Y, i, j)
    {
      LduProductAt(Y, div, i, j);
    }
  }
}

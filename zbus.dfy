/** The impedance matrix as a value: column j of Z is what computeZj
    produces from the factors L, D, U by forward elimination (f), scaling
    (h) and back substitution (z), together with the three triangular
    identities and their consequence Y * Z == I. */
module Substitution {
  import opened ComplexArith
  import opened Matrices
  import opened Factorization

  /** f[i] for column j: 0 above j, 1 at j, and below j the inner sum
      0 - L[i][j] * f[j] - ... - L[i][i-1] * f[i-1]. */
  ghost function Fwd(L: Mat, j: nat, i: nat): Complex
    decreases i, 1
  {
    if i < j then Zero else if i == j then One else FwdAcc(L, j, i, i - 1)
  }

  /** The inner sum of the forward step after k = j..m. */
  ghost function FwdAcc(L: Mat, j: nat, i: nat, m: nat): Complex
    decreases m, 2
  {
    if m < j || m == 0 then Zero else Sub(FwdAcc(L, j, i, m - 1), Mul(At(L, i, m), Fwd(L, j, m)))
  }

  /** h[i] for column j: f[i] / D[i][i] from row j on, 0 above it. */
  ghost function Scaled(L: Mat, D: Mat, div: Division, j: nat, i: nat): Complex
  {
    if i < j then Zero else div(Fwd(L, j, i), At(D, i, i))
  }

  /** Z[i][j]: h[i] minus the sum of U[i][k] * Z[k][j] over k = i+1..n,
      where n is the size of U. */
  ghost function Back(L: Mat, D: Mat, U: Mat, div: Division, j: nat, i: nat): Complex
    decreases |U| - i, 1, 0
  {
    if 1 <= i <= |U| then Sub(Scaled(L, D, div, j, i), BackAcc(L, D, U, div, j, i, |U|)) else Zero
  }

  /** The inner sum of the back substitution after k = i+1..m. */
  ghost function BackAcc(L: Mat, D: Mat, U: Mat, div: Division, j: nat, i: nat, m: nat): Complex
    decreases |U| - i, 0, m
  {
    if i < 1 || m <= i || m > |U| then Zero
    else Add(BackAcc(L, D, U, div, j, i, m - 1), Mul(At(U, i, m), Back(L, D, U, div, j, m)))
  }

  ghost function ZEntry(L: Mat, D: Mat, U: Mat, div: Division, i: int, j: int): Complex
  {
    if i < 1 || j < 1 then Zero else Back(L, D, U, div, j, i)
  }

  /** The impedance matrix: Z[i][j] is Back for column j, row i. */
  ghost function ZMat(L: Mat, D: Mat, U: Mat, div: Division): (Z: Mat)
    ensures |Z| == |U| && IsSquare(Z)
    ensures forall i, j :: 1 <= i <= |U| && 1 <= j <= |U| ==> At(Z, i, j) == Back(L, D, U, div, j, i)
  {
    var Z := seq(|U|, i => seq(|U|, j => ZEntry(L, D, U, div, i + 1, j + 1)));
    assert forall i :: 0 <= i < |U| ==> |Z[i]| == |U|;
    assert forall i, j :: 1 <= i <= |U| && 1 <= j <= |U| ==> At(Z, i, j) == ZEntry(L, D, U, div, i, j);
    Z
  }

  // ---------------------------------------------------------------------
  // Forward elimination: (L * f)[i] == delta(i, j)

  ghost function FwdTerms(L: Mat, j: nat, i: nat): int -> Complex
  {
    k => if k < 0 then Zero else Mul(At(L, i, k), Fwd(L, j, k))
  }

  /** Above row j, f vanishes. */
  lemma FwdTermsAboveColumn(L: Mat, j: nat, i: nat, m: nat)
    requires m < j
    ensures Sum(m, FwdTerms(L, j, i)) == Zero
  {
    forall k | 1 <= k <= m
      ensures FwdTerms(L, j, i)(k) == Zero
    {
      MulZeroLeft(At(L, i, k));
    }
    SumAllZero(m, FwdTerms(L, j, i));
  }

  /** The inner sum is minus the partial sum of L[i][k] * f[k]. */
  lemma {:induction false} FwdAccIsSum(L: Mat, j: nat, i: nat, m: nat)
    requires 1 <= j
    ensures FwdAcc(L, j, i, m) == Neg(Sum(m, FwdTerms(L, j, i)))
  {
    if m < j {
      FwdTermsAboveColumn(L, j, i, m);
    } else {
      FwdAccIsSum(L, j, i, m - 1);
    }
  }

  /** f[i] below row j is minus the sum of L[i][k] * f[k] over k < i. */
  lemma FwdBelow(L: Mat, j: nat, i: nat)
    requires 1 <= j < i
    ensures Fwd(L, j, i) == Neg(Sum(i - 1, FwdTerms(L, j, i)))
  {
    FwdAccIsSum(L, j, i, i - 1);
  }

  lemma FwdSplit(L: Mat, j: nat, i: nat)
    requires IsSquare(L) && UnitLower(L) && 1 <= i <= |L|
    ensures Sum(|L|, FwdTerms(L, j, i)) == Add(Sum(i - 1, FwdTerms(L, j, i)), Fwd(L, j, i))
  {
    forall k | i < k <= |L|
      ensures FwdTerms(L, j, i)(k) == Zero
    {
      MulZeroLeft(Fwd(L, j, k));
    }
    SumLastTerm(|L|, i, FwdTerms(L, j, i));
    MulOne(Fwd(L, j, i));
  }

  lemma AddNegCancel(total: Complex, s: Complex, last: Complex)
    requires total == Add(s, last) && last == Neg(s)
    ensures total == Zero
  {
  }

  /** The forward step solves L * f == e_j. */
  lemma ForwardIdentity(L: Mat, j: nat, i: nat)
    requires IsSquare(L) && UnitLower(L) && 1 <= i <= |L| && 1 <= j <= |L|
    ensures Sum(|L|, FwdTerms(L, j, i)) == Delta(i, j)
  {
    FwdSplit(L, j, i);
    if i < j {
      FwdTermsAboveColumn(L, j, i, i - 1);
    } else if i == j {
      FwdTermsAboveColumn(L, j, i, i - 1);
    } else {
      FwdBelow(L, j, i);
      AddNegCancel(Sum(|L|, FwdTerms(L, j, i)), Sum(i - 1, FwdTerms(L, j, i)), Fwd(L, j, i));
    }
  }

  // ---------------------------------------------------------------------
  // Scaling: D[i][i] * h[i] == f[i]

  /** With nonzero pivots from row j on, D[i][i] * h[i] == f[i] for every i >= 1. */
  lemma ScaleIdentity(L: Mat, D: Mat, div: Division, j: nat, i: nat)
    requires IsDivision(div)
    requires i >= j ==> At(D, i, i) != Zero
    ensures Mul(At(D, i, i), Scaled(L, D, div, j, i)) == Fwd(L, j, i)
  {
    if i >= j {
      MulComm(At(D, i, i), Scaled(L, D, div, j, i));
    } else {
      MulZeroLeft(At(D, i, i));
    }
  }

  // ---------------------------------------------------------------------
  // Back substitution: (U * z)[i] == h[i]

  ghost function BackTerms(L: Mat, D: Mat, U: Mat, div: Division, j: nat, i: nat): int -> Complex
  {
    k => if k < 0 then Zero else Mul(At(U, i, k), Back(L, D, U, div, j, k))
  }

  /** Left of the diagonal U vanishes, and U[i][i] == 1. */
  lemma BackTermsUpToDiagonal(L: Mat, D: Mat, U: Mat, div: Division, j: nat, i: nat)
    requires IsSquare(U) && UnitUpper(U) && 1 <= i <= |U|
    ensures Sum(i, BackTerms(L, D, U, div, j, i)) == Back(L, D, U, div, j, i)
  {
    forall k | 1 <= k < i
      ensures BackTerms(L, D, U, div, j, i)(k) == Zero
    {
      MulZeroLeft(Back(L, D, U, div, j, k));
    }
    SumAllZero(i - 1, BackTerms(L, D, U, div, j, i));
    MulOne(Back(L, D, U, div, j, i));
  }

  /** Past the diagonal the terms add up to the back-substitution sum. */
  lemma {:induction false} BackTermsPastDiagonal(L: Mat, D: Mat, U: Mat, div: Division, j: nat, i: nat, m: nat)
    requires IsSquare(U) && UnitUpper(U) && 1 <= i <= m <= |U|
    ensures Sum(m, BackTerms(L, D, U, div, j, i)) == Add(Back(L, D, U, div, j, i), BackAcc(L, D, U, div, j, i, m))
  {
    if m == i {
      BackTermsUpToDiagonal(L, D, U, div, j, i);
    } else {
      BackTermsPastDiagonal(L, D, U, div, j, i, m - 1);
    }
  }

  lemma SubAddCancel(total: Complex, h: Complex, s: Complex)
    requires total == Add(Sub(h, s), s)
    ensures total == h
  {
  }

  /** The back substitution solves U * z == h. */
  lemma BackIdentity(L: Mat, D: Mat, U: Mat, div: Division, j: nat, i: nat)
    requires IsSquare(U) && UnitUpper(U) && 1 <= i <= |U|
    ensures Sum(|U|, BackTerms(L, D, U, div, j, i)) == Scaled(L, D, div, j, i)
  {
    BackTermsPastDiagonal(L, D, U, div, j, i, |U|);
    SubAddCancel(Sum(|U|, BackTerms(L, D, U, div, j, i)), Scaled(L, D, div, j, i), BackAcc(L, D, U, div, j, i, |U|));
  }

  // ---------------------------------------------------------------------
  // Y * Z == I

  /** L, D, U are unit-lower, diagonal with nonzero pivots, unit-upper
      factors of Y that multiply back to Y. */
  ghost predicate Factors(Y: Mat, L: Mat, D: Mat, U: Mat)
  {
    && IsSquare(Y) && IsSquare(L) && IsSquare(U)
    && |L| == |Y| && |D| == |Y| && |U| == |Y|
    && UnitLower(L) && UnitUpper(U)
    && (forall i :: 1 <= i <= |Y| ==> At(D, i, i) != Zero)
    && (forall i, t :: 1 <= i <= |Y| && 1 <= t <= |Y| ==> Sum(|Y|, TripleTerms(L, D, U, i, t)) == At(Y, i, t))
  }

  /** The terms of (Y * Z)[i][j] with Y written as L * D * U:
      Z[t][j] * (L[i][s] * D[s][s] * U[s][t]). */
  ghost function SolveTerms(L: Mat, D: Mat, U: Mat, Z: Mat, i: int, j: int): (int, int) -> Complex
  {
    (t, s) => Mul(At(Z, t, j), TripleTerms(L, D, U, i, t)(s))
  }

  lemma MulRegroup(z: Complex, c: Complex, u: Complex)
    ensures Mul(z, Mul(c, u)) == Mul(c, Mul(u, z))
  {
    MulComm(z, Mul(c, u));
    MulAssoc(c, u, z);
  }

  lemma SolveRow(Y: Mat, L: Mat, D: Mat, U: Mat, Z: Mat, i: nat, j: nat, t: nat)
    requires Factors(Y, L, D, U) && 1 <= i <= |Y| && 1 <= t <= |Y|
    ensures ProductTerms(Y, Z, i, j)(t) == RowSums(SolveTerms(L, D, U, Z, i, j), |Y|)(t)
  {
    var F := SolveTerms(L, D, U, Z, i, j);
    var z := At(Z, t, j);
    assert At(Y, i, t) == Sum(|Y|, TripleTerms(L, D, U, i, t));
    SumScale(|Y|, z, TripleTerms(L, D, U, i, t), Row(F, t));
    MulComm(At(Y, i, t), z);
  }

  /** (Y * Z)[i][j] as the double sum over t, then s. */
  lemma SolveRows(Y: Mat, L: Mat, D: Mat, U: Mat, Z: Mat, i: nat, j: nat)
    requires Factors(Y, L, D, U) && 1 <= i <= |Y|
    ensures ProductAt(|Y|, Y, Z, i, j) == Sum(|Y|, RowSums(SolveTerms(L, D, U, Z, i, j), |Y|))
  {
    forall t | 1 <= t <= |Y|
      ensures ProductTerms(Y, Z, i, j)(t) == RowSums(SolveTerms(L, D, U, Z, i, j), |Y|)(t)
    {
      SolveRow(Y, L, D, U, Z, i, j, t);
    }
    SumExt(|Y|, ProductTerms(Y, Z, i, j), RowSums(SolveTerms(L, D, U, Z, i, j), |Y|));
  }

  /** Summing over t first: L[i][s] * D[s][s] * (U * z)[s] == L[i][s] * f[s]. */
  lemma SolveColumn(Y: Mat, L: Mat, D: Mat, U: Mat, div: Division, i: nat, j: nat, s: nat)
    requires Factors(Y, L, D, U) && IsDivision(div)
    requires 1 <= i <= |Y| && 1 <= j <= |Y| && 1 <= s <= |Y|
    ensures ColSums(SolveTerms(L, D, U, ZMat(L, D, U, div), i, j), |Y|)(s) == FwdTerms(L, j, i)(s)
  {
    var Z := ZMat(L, D, U, div);
    var F := SolveTerms(L, D, U, Z, i, j);
    var c := Mul(At(L, i, s), At(D, s, s));
    forall t | 1 <= t <= |Y|
      ensures Col(F, s)(t) == Mul(c, BackTerms(L, D, U, div, j, s)(t))
    {
      assert At(Z, t, j) == Back(L, D, U, div, j, t);
      MulRegroup(At(Z, t, j), c, At(U, s, t));
    }
    SumScale(|Y|, c, BackTerms(L, D, U, div, j, s), Col(F, s));
    BackIdentity(L, D, U, div, j, s);
    ScaleIdentity(L, D, div, j, s);
    MulAssoc(At(L, i, s), At(D, s, s), Scaled(L, D, div, j, s));
  }

  /** Column j of Z solves Y * z == e_j. */
  lemma SolveEntry(Y: Mat, L: Mat, D: Mat, U: Mat, div: Division, i: nat, j: nat)
    requires Factors(Y, L, D, U) && IsDivision(div)
    requires 1 <= i <= |Y| && 1 <= j <= |Y|
    ensures ProductAt(|Y|, Y, ZMat(L, D, U, div), i, j) == Delta(i, j)
  {
    var Z := ZMat(L, D, U, div);
    var F := SolveTerms(L, D, U, Z, i, j);
    SolveRows(Y, L, D, U, Z, i, j);
    SumSwap(|Y|, |Y|, F);
    forall s | 1 <= s <= |Y|
      ensures ColSums(F, |Y|)(s) == FwdTerms(L, j, i)(s)
    {
      SolveColumn(Y, L, D, U, div, i, j, s);
    }
    SumExt(|Y|, ColSums(F, |Y|), FwdTerms(L, j, i));
    ForwardIdentity(L, j, i);
  }

  /** Nonzero pivots include what LDU needs: Y[1][1] is the first pivot. */
  lemma NonzeroPivotsDefined(Y: Mat, div: Division)
    requires IsSquare(Y) && NonzeroPivots(Y, div)
    ensures LduDefined(Y, div)
  {
    if |Y| >= 1 {
      FirstColumn(Y, div);
    }
  }

  lemma FactorsOfSymmetric(Y: Mat, div: Division)
    requires IsSquare(Y) && Symmetric(Y) && NonzeroPivots(Y, div) && IsDivision(div)
    ensures Factors(Y, LMat(Y, div), DMat(Y, div), UMat(Y, div))
  {
    NonzeroPivotsDefined(Y, div);
    LduProduct(Y, div);
  }

  /** computeZ(LDU()) as a value: the matrix whose column j is computeZj(j)
      on the factors of Y, with Go's quotient. */
  ghost function ZBus(Y: Mat): (Z: Mat)
    ensures |Z| == |Y| && IsSquare(Z)
  {
    ZMat(LMat(Y, DivOr0), DMat(Y, DivOr0), UMat(Y, DivOr0), DivOr0)
  }

  /** For a symmetric Y with nonzero pivots, Z is the inverse of Y: Y * Z == I. */
  lemma ZBusIsInverse(Y: Mat)
    requires IsSquare(Y) && Symmetric(Y) && NonzeroPivots(Y, DivOr0)
    ensures forall i, j :: 1 <= i <= |Y| && 1 <= j <= |Y| ==> ProductAt(|Y|, Y, ZBus(Y), i, j) == Delta(i, j)
  {
    DivOr0IsDivision();
    FactorsOfSymmetric(Y, DivOr0);
    forall i, j | 1 <= i <= |Y| && 1 <= j <= |Y|
      ensures ProductAt(|Y|, Y, ZBus(Y), i, j) == Delta(i, j)
    {
      SolveEntry(Y, LMat(Y, DivOr0), DMat(Y, DivOr0), UMat(Y, DivOr0), DivOr0, i, j);
    }
  }
}

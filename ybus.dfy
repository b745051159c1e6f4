/** The bus admittance matrix as a value: what the assembly loop of
    computeResult leaves in the matrix (the pre-pass), what the diagonal
    pass then makes of it, and the facts proved about both. */
module Admittance {
  import opened ComplexArith
  import opened Matrices
  import opened Branches

  /** How computeYij stores a branch admittance: lab1 and lab2 assign
      (`=`), lab3 and lab4 add (`+=`). */
  datatype YijMode = Overwrite | Accumulate

  /** The mutual admittance of a branch, -1 / (R + jX). */
  function BranchY(b: Branch): (y: Complex)
    requires Impedance(b) != Zero
    ensures Mul(y, Impedance(b)) == Complex(-1.0, 0.0)
  {
    Div(Complex(-1.0, 0.0), Impedance(b))
  }

  /** The branch connects bus r to bus c, in either direction. */
  predicate Joins(b: Branch, r: int, c: int)
  {
    (r == b.node1 && c == b.node2) || (r == b.node2 && c == b.node1)
  }

  /** The shunt term -j*Admittance the branch adds at each of its terminals. */
  ghost function ShuntTerm(b: Branch, i: int): Complex
  {
    var shunt := Neg(Complex(0.0, b.admittance));
    var s1 := if b.admittance != 0.0 && i == b.node1 then shunt else Zero;
    var s2 := if b.admittance != 0.0 && i == b.node2 then shunt else Zero;
    Add(s1, s2)
  }

  /** The term -1/(R + jX) a ground branch with nonzero impedance adds at its bus. */
  ghost function GroundTerm(b: Branch, i: int): Complex
  {
    if IsGround(b) && Impedance(b) != Zero && i == GroundNode(b) then BranchY(b) else Zero
  }

  /** What the branch adds to the pre-pass diagonal entry of bus i. */
  ghost function DiagonalTerm(b: Branch, i: int): Complex
  {
    Add(ShuntTerm(b, i), GroundTerm(b, i))
  }

  /** How computeYij stores y over the value x already there. */
  ghost function Stored(x: Complex, y: Complex, mode: YijMode): Complex
  {
    match mode
    case Overwrite => y
    case Accumulate => Add(x, y)
  }

  /** Entry (r, c), holding x, after one branch has been assembled. */
  ghost function EntryUpdate(x: Complex, b: Branch, mode: YijMode, r: int, c: int): Complex
    requires !IsGround(b) ==> Impedance(b) != Zero
  {
    if r == c then Add(x, DiagonalTerm(b, r))
    else if !IsGround(b) && Joins(b, r, c) then Stored(x, BranchY(b), mode)
    else x
  }

  /** Entry (r, c) after one branch has been assembled into M. */
  ghost function ApplyEntry(M: Mat, b: Branch, mode: YijMode, r: int, c: int): Complex
    requires !IsGround(b) ==> Impedance(b) != Zero
  {
    EntryUpdate(At(M, r, c), b, mode, r, c)
  }

  /** One iteration of the assembly loop, as a matrix value. */
  ghost function ApplyBranch(M: Mat, b: Branch, mode: YijMode): (M': Mat)
    requires !IsGround(b) ==> Impedance(b) != Zero
    ensures |M'| == |M| && IsSquare(M')
    ensures forall r, c :: 1 <= r <= |M| && 1 <= c <= |M| ==> At(M', r, c) == ApplyEntry(M, b, mode, r, c)
  {
    var M' := seq(|M|, i => seq(|M|, j => ApplyEntry(M, b, mode, i + 1, j + 1)));
    assert forall r :: 0 <= r < |M| ==> |M'[r]| == |M|;
    forall r, c | 1 <= r <= |M| && 1 <= c <= |M|
      ensures At(M', r, c) == ApplyEntry(M, b, mode, r, c)
    {
      assert M'[r - 1][c - 1] == ApplyEntry(M, b, mode, (r - 1) + 1, (c - 1) + 1);
    }
    M'
  }

  /** The matrix after the assembly loop has run over bs, starting from Y0. */
  ghost function PrePass(Y0: Mat, bs: seq<Branch>, mode: YijMode): (P: Mat)
    requires WellFormed(bs, |Y0|)
    ensures |P| == |Y0|
    ensures IsSquare(Y0) ==> IsSquare(P)
    decreases |bs|
  {
    if bs == [] then Y0
    else
      assert WellFormed(bs[..|bs| - 1], |Y0|);
      ApplyBranch(PrePass(Y0, bs[..|bs| - 1], mode), bs[|bs| - 1], mode)
  }

  /** The sum of the entries of row i. */
  ghost function RowSum(M: Mat, i: int): Complex
  {
    Sum(|M|, RowTerms(M, i))
  }

  ghost function RowTerms(M: Mat, i: int): int -> Complex
  {
    k => At(M, i, k)
  }

  /** The diagonal pass: each diagonal entry becomes minus its row sum,
      taken over the whole row including the pre-pass diagonal itself. */
  ghost function DiagonalPass(P: Mat): (Y: Mat)
    requires IsSquare(P)
    ensures |Y| == |P| && IsSquare(Y)
    ensures forall r, c :: 1 <= r <= |P| && 1 <= c <= |P| && r != c ==> At(Y, r, c) == At(P, r, c)
    ensures forall r :: 1 <= r <= |P| ==> At(Y, r, r) == Neg(RowSum(P, r))
  {
    seq(|P|, i requires 0 <= i < |P| => seq(|P|, j requires 0 <= j < |P| =>
      if i == j then Neg(RowSum(P, i + 1)) else P[i][j]))
  }

  /** The admittance matrix computeResult leaves behind, starting from Y0. */
  ghost function YBus(Y0: Mat, bs: seq<Branch>, mode: YijMode): (Y: Mat)
    requires IsSquare(Y0) && WellFormed(bs, |Y0|)
    ensures |Y| == |Y0| && IsSquare(Y)
  {
    DiagonalPass(PrePass(Y0, bs, mode))
  }

  // ---------------------------------------------------------------------
  // Reference definitions, branch by branch

  /** All the diagonal terms the branches contribute to bus i. */
  ghost function DiagonalTerms(bs: seq<Branch>, i: int): Complex
    decreases |bs|
  {
    if bs == [] then Zero else Add(DiagonalTerms(bs[..|bs| - 1], i), DiagonalTerm(bs[|bs| - 1], i))
  }

  /** The sum of -1/(R + jX) over the non-ground branches joining r and c. */
  ghost function ParallelY(bs: seq<Branch>, r: int, c: int): Complex
    requires forall k :: 0 <= k < |bs| ==> !IsGround(bs[k]) ==> Impedance(bs[k]) != Zero
    decreases |bs|
  {
    if bs == [] then Zero
    else
      var b := bs[|bs| - 1];
      var rest := ParallelY(bs[..|bs| - 1], r, c);
      if !IsGround(b) && Joins(b, r, c) then Add(rest, BranchY(b)) else rest
  }

  predicate JoinsAt(bs: seq<Branch>, k: int, r: int, c: int)
    requires 0 <= k < |bs|
  {
    !IsGround(bs[k]) && Joins(bs[k], r, c)
  }

  // ---------------------------------------------------------------------
  // Properties of the pre-pass

  /** Whatever the mode, a diagonal entry collects exactly the diagonal terms. */
  lemma {:induction false} PrePassDiagonal(Y0: Mat, bs: seq<Branch>, mode: YijMode, i: int)
    requires IsSquare(Y0) && WellFormed(bs, |Y0|) && 1 <= i <= |Y0|
    ensures At(PrePass(Y0, bs, mode), i, i) == Add(At(Y0, i, i), DiagonalTerms(bs, i))
    decreases |bs|
  {
    if bs != [] {
      var init, b := bs[..|bs| - 1], bs[|bs| - 1];
      assert WellFormed(init, |Y0|);
      var P := PrePass(Y0, init, mode);
      PrePassDiagonal(Y0, init, mode, i);
      assert At(PrePass(Y0, bs, mode), i, i) == Add(At(P, i, i), DiagonalTerm(b, i));
    }
  }

  /** Accumulating mode (lab3, lab4): an off-diagonal entry gains the sum of
      the admittances of all the branches joining the two buses. */
  lemma {:induction false} PrePassAccumulates(Y0: Mat, bs: seq<Branch>, r: int, c: int)
    requires IsSquare(Y0) && WellFormed(bs, |Y0|)
    requires 1 <= r <= |Y0| && 1 <= c <= |Y0| && r != c
    ensures At(PrePass(Y0, bs, Accumulate), r, c) == Add(At(Y0, r, c), ParallelY(bs, r, c))
    decreases |bs|
  {
    if bs != [] {
      PrePassAccumulates(Y0, bs[..|bs| - 1], r, c);
    }
  }

  /** Overwriting mode (lab1, lab2): an off-diagonal entry holds the
      admittance of the last branch joining the two buses. */
  lemma {:induction false} PrePassOverwriteLastWins(Y0: Mat, bs: seq<Branch>, r: int, c: int, k: int)
    requires IsSquare(Y0) && WellFormed(bs, |Y0|)
    requires 1 <= r <= |Y0| && 1 <= c <= |Y0| && r != c
    requires 0 <= k < |bs| && JoinsAt(bs, k, r, c)
    requires forall k' :: k < k' < |bs| ==> !JoinsAt(bs, k', r, c)
    ensures At(PrePass(Y0, bs, Overwrite), r, c) == BranchY(bs[k])
    decreases |bs|
  {
    if k < |bs| - 1 {
      var init := bs[..|bs| - 1];
      assert forall k' :: 0 <= k' < |init| ==> init[k'] == bs[k'] && (JoinsAt(init, k', r, c) <==> JoinsAt(bs, k', r, c));
      assert !JoinsAt(bs, |bs| - 1, r, c);
      PrePassOverwriteLastWins(Y0, init, r, c, k);
    }
  }

  /** In either mode, buses that no branch joins keep their entry. */
  lemma {:induction false} PrePassUnjoined(Y0: Mat, bs: seq<Branch>, mode: YijMode, r: int, c: int)
    requires IsSquare(Y0) && WellFormed(bs, |Y0|)
    requires 1 <= r <= |Y0| && 1 <= c <= |Y0| && r != c
    requires forall k :: 0 <= k < |bs| ==> !JoinsAt(bs, k, r, c)
    ensures At(PrePass(Y0, bs, mode), r, c) == At(Y0, r, c)
    decreases |bs|
  {
    if bs != [] {
      var init := bs[..|bs| - 1];
      assert forall k :: 0 <= k < |init| ==> init[k] == bs[k] && (JoinsAt(init, k, r, c) <==> JoinsAt(bs, k, r, c));
      PrePassUnjoined(Y0, init, mode, r, c);
      assert !JoinsAt(bs, |bs| - 1, r, c);
    }
  }

  /** The assembly keeps a symmetric matrix symmetric. */
  lemma {:induction false} PrePassSymmetric(Y0: Mat, bs: seq<Branch>, mode: YijMode)
    requires IsSquare(Y0) && WellFormed(bs, |Y0|) && Symmetric(Y0)
    ensures Symmetric(PrePass(Y0, bs, mode))
    decreases |bs|
  {
    if bs != [] {
      PrePassSymmetric(Y0, bs[..|bs| - 1], mode);
    }
  }

  /** A ground branch with zero impedance leaves the matrix as it was. */
  lemma ZeroImpedanceGroundIsInert(M: Mat, b: Branch, mode: YijMode)
    requires IsSquare(M) && WellFormedBranch(b, |M|)
    requires IsGround(b) && Impedance(b) == Zero
    ensures ApplyBranch(M, b, mode) == M
  {
    var M' := ApplyBranch(M, b, mode);
    forall r, c | 1 <= r <= |M| && 1 <= c <= |M|
      ensures At(M', r, c) == At(M, r, c)
    {
      assert b.admittance == 0.0;
    }
    MatEq(M', M);
  }

  // ---------------------------------------------------------------------
  // Properties of the finished matrix

  /** The diagonal pass keeps symmetry, so Y is symmetric whenever Y0 is
      (in particular for the all-zero matrix NewParser allocates). */
  lemma YBusSymmetric(Y0: Mat, bs: seq<Branch>, mode: YijMode)
    requires IsSquare(Y0) && WellFormed(bs, |Y0|) && Symmetric(Y0)
    ensures Symmetric(YBus(Y0, bs, mode))
  {
    PrePassSymmetric(Y0, bs, mode);
  }

  /** Row i of f with entry i replaced: how the diagonal pass changes one row. */
  lemma {:induction false} SumReplaceOne(n: nat, i: int, f: int -> Complex, g: int -> Complex)
    requires 1 <= i <= n
    requires forall k :: 1 <= k <= n && k != i ==> f(k) == g(k)
    ensures Sum(n, g) == Add(Sub(Sum(n, f), f(i)), g(i))
  {
    if n > i {
      SumReplaceOne(n - 1, i, f, g);
    } else {
      SumExt(n - 1, f, g);
    }
  }

  /** The diagonal rule: Y[i][i] = -(pre-pass Y[i][i]) - (the sum of the
      other entries of row i), and therefore each row of Y sums to minus its
      pre-pass diagonal. */
  lemma YBusDiagonalRule(Y0: Mat, bs: seq<Branch>, mode: YijMode, i: int)
    requires IsSquare(Y0) && WellFormed(bs, |Y0|) && 1 <= i <= |Y0|
    ensures var P := PrePass(Y0, bs, mode);
            var Y := YBus(Y0, bs, mode);
            At(Y, i, i) == Sub(Neg(At(P, i, i)), Sum(|Y0|, k => if k == i then Zero else At(Y, i, k))) &&
            RowSum(Y, i) == Neg(At(P, i, i))
  {
    var P := PrePass(Y0, bs, mode);
    var Y := YBus(Y0, bs, mode);
    var n := |Y0|;
    var off := k => if k == i then Zero else At(Y, i, k);
    SumReplaceOne(n, i, RowTerms(P, i), off);
    SumReplaceOne(n, i, RowTerms(P, i), RowTerms(Y, i));
  }

  /** Off-diagonal entries of an accumulated Y, starting from the all-zero
      matrix: Y[r][c] is the sum of -1/(R + jX) over the branches joining r
      and c; it is Zero when none does. */
  lemma YBusAccumulatedOffDiagonal(bs: seq<Branch>, n: nat, r: int, c: int)
    requires WellFormed(bs, n)
    requires 1 <= r <= n && 1 <= c <= n && r != c
    ensures At(YBus(ZeroMat(n), bs, Accumulate), r, c) == ParallelY(bs, r, c)
  {
    PrePassAccumulates(ZeroMat(n), bs, r, c);
  }

  /** The diagonal of Y from the all-zero matrix, in terms of the branches:
      the negated diagonal terms minus the off-diagonal entries of the row. */
  lemma YBusDiagonalFromBranches(bs: seq<Branch>, n: nat, mode: YijMode, i: int)
    requires WellFormed(bs, n) && 1 <= i <= n
    ensures RowSum(YBus(ZeroMat(n), bs, mode), i) == Neg(DiagonalTerms(bs, i))
  {
    YBusDiagonalRule(ZeroMat(n), bs, mode, i);
    PrePassDiagonal(ZeroMat(n), bs, mode, i);
  }

  /** Two matrices that agree along row i have the same row sum there. */
  lemma SameRowSum(A: Mat, B: Mat, i: int)
    requires |A| == |B|
    requires forall k :: 1 <= k <= |A| ==> At(A, i, k) == At(B, i, k)
    ensures RowSum(A, i) == RowSum(B, i)
  {
    SumExt(|A|, RowTerms(A, i), RowTerms(B, i));
  }
}

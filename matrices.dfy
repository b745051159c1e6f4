/** Complex matrices: the heap-allocated ComplexMatrix with its 1-based
    accessors, and the matrix values (sequences of rows) that the
    specifications of every stage are written over. */
module Matrices {
  import opened ComplexArith

  /** A matrix value, row by row; entry (i, j) in 1-based terms is M[i-1][j-1]. */
  type Mat = seq<seq<Complex>>

  ghost predicate IsSquare(M: Mat)
  {
    forall i :: 0 <= i < |M| ==> |M[i]| == |M|
  }

  /** The 1-based entry (i, j), as rcAt reads it; Zero outside the matrix,
      so that sums over entries need no guards. */
  ghost function At(M: Mat, i: int, j: int): Complex
  {
    if 1 <= i <= |M| && 1 <= j <= |M[i - 1]| then M[i - 1][j - 1] else Zero
  }

  /** Two square matrices of one size with the same entries are equal. */
  lemma MatEq(A: Mat, B: Mat)
    requires IsSquare(A) && IsSquare(B) && |A| == |B|
    requires forall i, j :: 1 <= i <= |A| && 1 <= j <= |A| ==> At(A, i, j) == At(B, i, j)
    ensures A == B
  {
    forall i | 0 <= i < |A|
      ensures A[i] == B[i]
    {
      forall j | 0 <= j < |A|
        ensures A[i][j] == B[i][j]
      {
        assert At(A, i + 1, j + 1) == At(B, i + 1, j + 1);
      }
    }
  }

  ghost function ZeroMat(n: nat): (Z: Mat)
    ensures |Z| == n && IsSquare(Z)
    ensures forall i, j :: 1 <= i <= n && 1 <= j <= n ==> At(Z, i, j) == Zero
  {
    seq(n, i => seq(n, j => Zero))
  }

  ghost predicate Symmetric(M: Mat)
  {
    forall i, j :: 1 <= i <= |M| && 1 <= j <= |M| ==> At(M, i, j) == At(M, j, i)
  }

  /** Unit lower-triangular: ones on the diagonal, zeros above it. */
  ghost predicate UnitLower(M: Mat)
  {
    forall i, j :: 1 <= i <= |M| && 1 <= j <= |M| ==>
      (i == j ==> At(M, i, j) == One) && (j > i ==> At(M, i, j) == Zero)
  }

  /** Unit upper-triangular: ones on the diagonal, zeros below it. */
  ghost predicate UnitUpper(M: Mat)
  {
    forall i, j :: 1 <= i <= |M| && 1 <= j <= |M| ==>
      (i == j ==> At(M, i, j) == One) && (j < i ==> At(M, i, j) == Zero)
  }

  ghost predicate Diagonal(M: Mat)
  {
    forall i, j :: 1 <= i <= |M| && 1 <= j <= |M| && i != j ==> At(M, i, j) == Zero
  }

  /** The value held by a two-dimensional array. */
  ghost function Snapshot(a: array2<Complex>): (M: Mat)
    reads a
    ensures |M| == a.Length0
    ensures forall i :: 0 <= i < |M| ==> |M[i]| == a.Length1
    ensures forall i, j :: 0 <= i < a.Length0 && 0 <= j < a.Length1 ==> M[i][j] == a[i, j]
  {
    seq(a.Length0, i requires 0 <= i < a.Length0 reads a =>
      seq(a.Length1, j requires 0 <= j < a.Length1 reads a => a[i, j]))
  }

  /** An n x n array holds the matrix value M when every entry agrees. */
  lemma SnapshotIs(a: array2<Complex>, M: Mat)
    requires IsSquare(M) && a.Length0 == |M| && a.Length1 == |M|
    requires forall r, c :: 1 <= r <= |M| && 1 <= c <= |M| ==> a[r - 1, c - 1] == At(M, r, c)
    ensures Snapshot(a) == M
  {
    var S := Snapshot(a);
    forall r, c | 1 <= r <= |M| && 1 <= c <= |M|
      ensures At(S, r, c) == At(M, r, c)
    {
      assert S[r - 1][c - 1] == a[r - 1, c - 1];
    }
    MatEq(S, M);
  }

  // ---------------------------------------------------------------------
  // Finite sums

  /** f(1) + f(2) + ... + f(n), added left to right. */
  ghost function Sum(n: nat, f: int -> Complex): Complex
    decreases n
  {
    if n == 0 then Zero else Add(Sum(n - 1, f), f(n))
  }

  lemma {:induction false} SumExt(n: nat, f: int -> Complex, g: int -> Complex)
    requires forall k :: 1 <= k <= n ==> f(k) == g(k)
    ensures Sum(n, f) == Sum(n, g)
  {
    if n > 0 {
      SumExt(n - 1, f, g);
    }
  }

  /** Terms past m that vanish do not change the sum. */
  lemma {:induction false} SumZeroTail(n: nat, m: nat, f: int -> Complex)
    requires m <= n
    requires forall k :: m < k <= n ==> f(k) == Zero
    ensures Sum(n, f) == Sum(m, f)
  {
    if n > m {
      SumZeroTail(n - 1, m, f);
    }
  }

  /** A sum whose only nonvanishing term is f(k). */
  lemma {:induction false} SumSingle(n: nat, k: int, f: int -> Complex)
    requires 1 <= k <= n
    requires forall t :: 1 <= t <= n && t != k ==> f(t) == Zero
    ensures Sum(n, f) == f(k)
  {
    SumZeroTail(n, k, f);
    SumZeroTail(k - 1, 0, f);
  }

  /** A sum whose terms past m vanish is its first m - 1 terms plus term m. */
  lemma SumLastTerm(n: nat, m: nat, f: int -> Complex)
    requires 1 <= m <= n
    requires forall t :: m < t <= n ==> f(t) == Zero
    ensures Sum(n, f) == Add(Sum(m - 1, f), f(m))
  {
    SumZeroTail(n, m, f);
  }

  lemma {:induction false} SumAllZero(n: nat, f: int -> Complex)
    requires forall t :: 1 <= t <= n ==> f(t) == Zero
    ensures Sum(n, f) == Zero
  {
    SumZeroTail(n, 0, f);
  }

  /** c * (f(1) + ... + f(n)) == c * f(1) + ... + c * f(n). */
  lemma {:induction false} SumScale(n: nat, c: Complex, f: int -> Complex, g: int -> Complex)
    requires forall k :: 1 <= k <= n ==> g(k) == Mul(c, f(k))
    ensures Mul(c, Sum(n, f)) == Sum(n, g)
  {
    if n == 0 {
      MulZeroLeft(c);
    } else {
      SumScale(n - 1, c, f, g);
      MulAddRight(c, Sum(n - 1, f), f(n));
    }
  }

  lemma {:induction false} SumAddPointwise(n: nat, f: int -> Complex, g: int -> Complex, h: int -> Complex)
    requires forall k :: 1 <= k <= n ==> h(k) == Add(f(k), g(k))
    ensures Sum(n, h) == Add(Sum(n, f), Sum(n, g))
  {
    if n > 0 {
      SumAddPointwise(n - 1, f, g, h);
    }
  }

  /** Row a and column c of a doubly indexed family of terms. */
  ghost function Row(f: (int, int) -> Complex, a: int): int -> Complex
  {
    c => f(a, c)
  }

  ghost function Col(f: (int, int) -> Complex, c: int): int -> Complex
  {
    a => f(a, c)
  }

  /** The row sums over c = 1..m and the column sums over a = 1..n. */
  ghost function RowSums(f: (int, int) -> Complex, m: nat): int -> Complex
  {
    a => Sum(m, Row(f, a))
  }

  ghost function ColSums(f: (int, int) -> Complex, n: nat): int -> Complex
  {
    c => Sum(n, Col(f, c))
  }

  /** The order of a double sum does not matter. */
  lemma {:induction false} SumSwap(n: nat, m: nat, f: (int, int) -> Complex)
    ensures Sum(n, RowSums(f, m)) == Sum(m, ColSums(f, n))
    decreases n
  {
    if n > 0 {
      SumSwap(n - 1, m, f);
      forall c | 1 <= c <= m
        ensures ColSums(f, n)(c) == Add(ColSums(f, n - 1)(c), Row(f, n)(c))
      {
      }
      SumAddPointwise(m, ColSums(f, n - 1), Row(f, n), ColSums(f, n));
    } else {
      SumAllZero(m, ColSums(f, 0));
    }
  }

  // ---------------------------------------------------------------------
  // Products

  /** The Kronecker delta: the (i, j) entry of the identity. */
  ghost function Delta(i: int, j: int): Complex
  {
    if i == j then One else Zero
  }

  /** Entry (i, j) of the n x n product A * B. */
  ghost function ProductAt(n: nat, A: Mat, B: Mat, i: int, j: int): Complex
  {
    Sum(n, ProductTerms(A, B, i, j))
  }

  ghost function ProductTerms(A: Mat, B: Mat, i: int, j: int): int -> Complex
  {
    k => Mul(At(A, i, k), At(B, k, j))
  }

  /** The terms L[i][t] * D[t][t] * U[t][j] of entry (i, j) of L * D * U
      for a diagonal D, as one function of t. */
  ghost function TripleTerms(L: Mat, D: Mat, U: Mat, i: int, j: int): int -> Complex
  {
    t => Mul(Mul(At(L, i, t), At(D, t, t)), At(U, t, j))
  }

  // ---------------------------------------------------------------------
  // The source's ComplexMatrix: a rows x columns array with 1-based access

  class ComplexMatrix {
    const m: array2<Complex>

    /** NewComplexMatrix: a fresh all-zero rows x columns matrix. */
    constructor (rows: nat, columns: nat)
      ensures m.Length0 == rows && m.Length1 == columns && fresh(m)
      ensures forall r, c :: 0 <= r < rows && 0 <= c < columns ==> m[r, c] == Zero
    {
      m := new Complex[rows, columns]((_, _) => Zero);
    }

    /** rcAt: the entry at 1-based (row, column). */
    function RcAt(row: int, column: int): Complex
      requires 1 <= row <= m.Length0 && 1 <= column <= m.Length1
      reads m
    {
      m[row - 1, column - 1]
    }

    /** rcSet: store v at 1-based (row, column), leaving every other entry alone. */
    method RcSet(row: int, column: int, v: Complex)
      requires 1 <= row <= m.Length0 && 1 <= column <= m.Length1
      modifies m
      ensures RcAt(row, column) == v
      ensures forall r, c :: 0 <= r < m.Length0 && 0 <= c < m.Length1 && (r != row - 1 || c != column - 1) ==>
        m[r, c] == old(m[r, c])
    {
      m[row - 1, column - 1] := v;
    }
  }
}

/** The three loops of computeZj for one column j of Z: forward elimination
    into f, scaling into h and back substitution into column j of Z, each
    proved to produce the Substitution module's Fwd, Scaled and Back. */
module SolveLoops {
  import opened ComplexArith
  import opened Matrices
  import opened Factorization
  import opened Substitution

  /** f[1][1..rows] holds the forward-elimination values for column j. */
  ghost predicate FwdUpTo(f: array2<Complex>, L: Mat, j: nat, rows: int)
    reads f
  {
    f.Length0 == 1 && f.Length1 == |L|
    && forall r, c :: r == 0 && 0 <= c < rows && c < |L| ==> f[r, c] == Fwd(L, j, c + 1)
  }

  /** The inner loop of the forward step: 0 - L[i][j] * f[j] - ... - L[i][i-1] * f[i-1]. */
  method ForwardSum(l: ComplexMatrix, f: ComplexMatrix, ghost L: Mat, j: nat, i: nat) returns (s: Complex)
    requires IsSquare(L) && Snapshot(l.m) == L && 1 <= j < i <= |L|
    requires FwdUpTo(f.m, L, j, i - 1)
    ensures s == Fwd(L, j, i)
  {
    s := Zero;
    var k := j;
    while k <= i - 1
      invariant j <= k <= i
      invariant s == FwdAcc(L, j, i, k - 1)
    {
      s := Sub(s, Mul(l.RcAt(i, k), f.RcAt(1, k)));
      k := k + 1;
    }
  }

  /** The first loop of computeZj: f[i] = 0 above row j, 1 at row j, and the
      forward sum below it. */
  method ForwardColumn(l: ComplexMatrix, f: ComplexMatrix, ghost L: Mat, j: nat)
    requires IsSquare(L) && Snapshot(l.m) == L && 1 <= j <= |L|
    requires f.m.Length0 == 1 && f.m.Length1 == |L| && f.m != l.m
    modifies f.m
    ensures FwdUpTo(f.m, L, j, |L|)
  {
    var n := f.m.Length1;
    var i := 1;
    while i <= n
      invariant 1 <= i <= n + 1
      invariant FwdUpTo(f.m, L, j, i - 1)
    {
      if i < j {
        f.RcSet(1, i, Zero);
      } else if i == j {
        f.RcSet(1, i, One);
      } else {
        var sum := ForwardSum(l, f, L, j, i);
        f.RcSet(1, i, sum);
      }
      i := i + 1;
    }
  }

  /** The second loop: h[i] = f[i] / D[i][i] from row j on, 0 above it. */
  method ScaleColumn(f: ComplexMatrix, d: ComplexMatrix, h: ComplexMatrix, ghost L: Mat, ghost D: Mat, ghost div: Division, j: nat)
    requires IsSquare(L) && IsSquare(D) && |D| == |L| && IsQuotient(div)
    requires d.m.Length0 == |L| && d.m.Length1 == |L| && Snapshot(d.m) == D
    requires 1 <= j <= |L| && FwdUpTo(f.m, L, j, |L|)
    requires forall i :: j <= i <= |L| ==> At(D, i, i) != Zero
    requires h.m.Length0 == 1 && h.m.Length1 == |L| && h.m != f.m && h.m != d.m
    modifies h.m
    ensures forall r, c :: r == 0 && 0 <= c < |L| ==> h.m[r, c] == Scaled(L, D, div, j, c + 1)
  {
    var n := h.m.Length1;
    var i := 1;
    while i <= n
      invariant 1 <= i <= n + 1
      invariant forall r, c :: r == 0 && 0 <= c < i - 1 ==> h.m[r, c] == Scaled(L, D, div, j, c + 1)
    {
      if i < j {
        h.RcSet(1, i, Zero);
      } else {
        assert d.m[i - 1, i - 1] == At(D, i, i);
        h.RcSet(1, i, Div(f.RcAt(1, i), d.RcAt(i, i)));
      }
      i := i + 1;
    }
  }

  /** Rows below i of column j of Z hold the back-substitution values. */
  ghost predicate BackFrom(z: array2<Complex>, L: Mat, D: Mat, U: Mat, div: Division, j: nat, i: int)
    reads z
  {
    z.Length0 == |U| && z.Length1 == |U| && 1 <= j <= |U|
    && forall r, c :: c == j - 1 && i <= r < |U| && 0 <= r ==> z[r, c] == Back(L, D, U, div, j, r + 1)
  }

  /** The inner loop of back substitution: U[i][i+1] * Z[i+1][j] + ... + U[i][n] * Z[n][j]. */
  method BackSum(u: ComplexMatrix, z: ComplexMatrix, ghost L: Mat, ghost D: Mat, ghost U: Mat, ghost div: Division, j: nat, i: nat)
    returns (s: Complex)
    requires IsSquare(U) && Snapshot(u.m) == U && 1 <= i <= |U|
    requires BackFrom(z.m, L, D, U, div, j, i)
    ensures s == BackAcc(L, D, U, div, j, i, |U|)
  {
    var n := z.m.Length0;
    s := Zero;
    var k := i + 1;
    while k <= n
      invariant i + 1 <= k <= n + 1
      invariant s == BackAcc(L, D, U, div, j, i, k - 1)
    {
      s := Add(s, Mul(u.RcAt(i, k), z.RcAt(k, j)));
      k := k + 1;
    }
  }

  /** The third loop: Z[i][j] = h[i] - sum, for i = n down to 1. Only column
      j of Z changes. */
  method BackColumn(u: ComplexMatrix, h: ComplexMatrix, z: ComplexMatrix, ghost L: Mat, ghost D: Mat, ghost U: Mat,
                    ghost div: Division, j: nat)
    requires IsSquare(U) && Snapshot(u.m) == U && 1 <= j <= |U|
    requires z.m.Length0 == |U| && z.m.Length1 == |U| && z.m != u.m && z.m != h.m
    requires h.m.Length0 == 1 && h.m.Length1 == |U|
    requires forall r, c :: r == 0 && 0 <= c < |U| ==> h.m[r, c] == Scaled(L, D, div, j, c + 1)
    modifies z.m
    ensures BackFrom(z.m, L, D, U, div, j, 0)
    ensures forall r, c :: 0 <= r < |U| && 0 <= c < |U| && c != j - 1 ==> z.m[r, c] == old(z.m[r, c])
  {
    var n := z.m.Length0;
    var i := n;
    while i >= 1
      invariant 0 <= i <= n
      invariant BackFrom(z.m, L, D, U, div, j, i)
      invariant forall r, c :: 0 <= r < n && 0 <= c < n && c != j - 1 ==> z.m[r, c] == old(z.m[r, c])
    {
      var sumUikZkj := BackSum(u, z, L, D, U, div, j, i);
      z.RcSet(i, j, Sub(h.RcAt(1, i), sumUikZkj));
      i := i - 1;
    }
  }
}

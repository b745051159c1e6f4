/** Three-phase and sequence-network fault formulas over an impedance
    matrix (lab4), the keys of the branch-current table, and the entries
    lab1 shows for a short circuit at one bus. */
module Faults {
  import opened ComplexArith
  import opened Matrices

  /** The fault impedance zf, fixed at 0 in every formula. */
  const FaultImpedance: Complex := Zero

  /** computeShortIf: the fault current 1 / (Z[f][f] + zf) for a prefault
      voltage of 1 per unit; times the Thevenin impedance it gives back that
      voltage. */
  function ShortIf(zff: Complex): (r: Complex)
    requires Add(zff, FaultImpedance) != Zero
    ensures Mul(r, zff) == One
  {
    Div(One, Add(zff, FaultImpedance))
  }

  /** The post-fault voltage 1 - Z[i][f] / (Z[f][f] + zf) of bus i: the
      voltage it has lost, times Z[f][f], is Z[i][f]. */
  function ShortU(zif: Complex, zff: Complex): (u: Complex)
    requires Add(zff, FaultImpedance) != Zero
    ensures Mul(Sub(One, u), zff) == zif
  {
    Sub(One, Div(zif, Add(zff, FaultImpedance)))
  }

  /** The faulted bus itself is at zero voltage. */
  lemma ShortUAtFault(zff: Complex)
    requires Add(zff, FaultImpedance) != Zero
    ensures ShortU(zff, zff) == Zero
  {
    assert Add(zff, FaultImpedance) == zff;
    MulOne(zff);
    DivUnique(zff, zff, One);
  }

  /** Every post-fault voltage is the prefault voltage less the drop that the
      fault current causes through Z[i][f]. */
  lemma ShortUIsDrop(zif: Complex, zff: Complex)
    requires Add(zff, FaultImpedance) != Zero
    ensures ShortU(zif, zff) == Sub(One, Mul(zif, ShortIf(zff)))
  {
    assert Add(zff, FaultImpedance) == zff;
    var c := Mul(zif, ShortIf(zff));
    MulAssoc(zif, ShortIf(zff), zff);
    MulOne(zif);
    DivUnique(zif, zff, c);
  }

  /** Column f of M, top to bottom. */
  ghost function Column(M: Mat, f: int): (col: seq<Complex>)
    ensures |col| == |M|
    ensures forall k :: 0 <= k < |M| ==> col[k] == At(M, k + 1, f)
  {
    seq(|M|, k => At(M, k + 1, f))
  }

  /** computeAllNodeShortU for a fault at the bus whose column of Z is `col`
      and whose Thevenin impedance is zff: every bus has lost the drop
      Z[i][f] * If through it. */
  function ShortUs(col: seq<Complex>, zff: Complex): (U: seq<Complex>)
    requires Add(zff, FaultImpedance) != Zero
    ensures |U| == |col|
    ensures forall k :: 0 <= k < |U| ==> Mul(Sub(One, U[k]), zff) == col[k]
  {
    seq(|col|, k requires 0 <= k < |col| => ShortU(col[k], zff))
  }

  /** Each post-fault voltage is 1 less Z[i][f] times the fault current. */
  lemma ShortUsAreDrops(col: seq<Complex>, zff: Complex)
    requires Add(zff, FaultImpedance) != Zero
    ensures forall k :: 0 <= k < |col| ==> ShortUs(col, zff)[k] == Sub(One, Mul(col[k], ShortIf(zff)))
  {
    forall k | 0 <= k < |col|
      ensures ShortUs(col, zff)[k] == Sub(One, Mul(col[k], ShortIf(zff)))
    {
      ShortUIsDrop(col[k], zff);
    }
  }

  /** The faulted bus, whose entry of its own column is zff, is at zero. */
  lemma ShortUsAtFault(col: seq<Complex>, zff: Complex, f: int)
    requires Add(zff, FaultImpedance) != Zero
    requires 0 <= f < |col| && col[f] == zff
    ensures ShortUs(col, zff)[f] == Zero
  {
    ShortUsAreDrops(col, zff);
    ShortUAtFault(zff);
    ShortUIsDrop(zff, zff);
  }

  /** Ifa(1) = 1 / (Zff(2) + Zff(1) + Zff(0)): the positive-sequence current
      of a single line-to-ground fault, the three sequence networks in series. */
  function SequenceCurrent(zff1: Complex, zff2: Complex, zff0: Complex): (r: Complex)
    requires Add(Add(zff2, zff1), zff0) != Zero
    ensures Mul(r, Add(Add(zff1, zff2), zff0)) == One
  {
    assert Add(Add(zff1, zff2), zff0) == Add(Add(zff2, zff1), zff0);
    Div(One, Add(Add(zff2, zff1), zff0))
  }

  /** If(1) = 3 * Ifa(1): the fault current is the sum of the three equal
      sequence currents. */
  function FaultCurrent(ifa1: Complex): (r: Complex)
    ensures r == Add(Add(ifa1, ifa1), ifa1)
  {
    Mul(Complex(3.0, 0.0), ifa1)
  }

  /** The series combination is an ordinary three-phase fault through the
      summed impedance: Ifa(1) is ShortIf of Zff(1) + Zff(2) + Zff(0). */
  lemma SequenceCurrentIsSeriesShortIf(zff1: Complex, zff2: Complex, zff0: Complex)
    requires Add(Add(zff2, zff1), zff0) != Zero
    ensures Add(Add(Add(zff1, zff2), zff0), FaultImpedance) != Zero
    ensures SequenceCurrent(zff1, zff2, zff0) == ShortIf(Add(Add(zff1, zff2), zff0))
  {
    var s := Add(Add(zff1, zff2), zff0);
    assert Add(s, FaultImpedance) == s == Add(Add(zff2, zff1), zff0);
  }

  // ---------------------------------------------------------------------
  // Keys of the branch-current table

  /** The key computeIij files the current between buses i and j under:
      the smaller bus number first, so both orders share one key. */
  function PairKey(i: int, j: int): (key: (int, int))
    ensures key.0 <= key.1
    ensures (key.0 == i && key.1 == j) || (key.0 == j && key.1 == i)
  {
    if i <= j then (i, j) else (j, i)
  }

  /** Two bus pairs share a key exactly when they are the same unordered pair. */
  lemma PairKeyInjective(i: int, j: int, k: int, l: int)
    ensures PairKey(i, j) == PairKey(k, l) <==> (i == k && j == l) || (i == l && j == k)
  {
  }

  /** The decimal digits of n, as fmt's %d writes them. */
  function Decimal(n: nat): (s: string)
    ensures |s| >= 1
    ensures forall k :: 0 <= k < |s| ==> '0' <= s[k] <= '9'
    ensures n >= 10 ==> s[0] != '0'
    decreases n
  {
    var d := [('0' as int + n % 10) as char];
    if n < 10 then d else Decimal(n / 10) + d
  }

  /** The key as written: Sprintf("I%d%d", min, max). */
  function IijKey(small: nat, large: nat): (key: string)
    ensures |key| >= 3 && key[0] == 'I'
  {
    "I" + Decimal(small) + Decimal(large)
  }

  /** The written key tells pairs apart only while bus numbers have one digit. */
  lemma IijKeySingleDigit(a: nat, b: nat, c: nat, d: nat)
    requires 1 <= a <= 9 && 1 <= b <= 9 && 1 <= c <= 9 && 1 <= d <= 9
    ensures IijKey(a, b) == IijKey(c, d) <==> a == c && b == d
  {
    assert IijKey(a, b) == ['I', ('0' as int + a) as char, ('0' as int + b) as char];
    assert IijKey(c, d) == ['I', ('0' as int + c) as char, ('0' as int + d) as char];
    if IijKey(a, b) == IijKey(c, d) {
      assert IijKey(a, b)[1] == IijKey(c, d)[1] && IijKey(a, b)[2] == IijKey(c, d)[2];
    }
  }

  /** With 112 buses the pairs (1, 112) and (11, 12) get the same key "I1112"
      (WrittenIijLosesPair shows which current the table keeps under it). */
  lemma IijKeyCollision()
    ensures IijKey(1, 112) == IijKey(11, 12)
    ensures PairKey(1, 112) != PairKey(11, 12)
  {
    var one, two := Decimal(1), [('0' as int + 2) as char];
    assert Decimal(11) == one + one;
    assert Decimal(12) == one + two;
    assert Decimal(112) == Decimal(11) + two;
    assert IijKey(1, 112) == "I" + one + (one + one + two);
    assert IijKey(11, 12) == "I" + (one + one) + (one + two);
  }

  /** The written decimal form determines the number. */
  lemma {:induction false} DecimalInjective(a: nat, b: nat)
    requires Decimal(a) == Decimal(b)
    ensures a == b
    decreases a
  {
    var da, db := Decimal(a), Decimal(b);
    assert da[|da| - 1] == ('0' as int + a % 10) as char;
    assert db[|db| - 1] == ('0' as int + b % 10) as char;
    assert a % 10 == b % 10;
    if a >= 10 && b >= 10 {
      assert Decimal(a / 10) == da[..|da| - 1];
      assert Decimal(b / 10) == db[..|db| - 1];
      DecimalInjective(a / 10, b / 10);
    }
  }

  /** Two written keys with the same smaller bus differ when the larger buses do. */
  lemma IijKeySameSmall(a: nat, b: nat, c: nat)
    requires IijKey(a, b) == IijKey(a, c)
    ensures b == c
  {
    var h := 1 + |Decimal(a)|;
    assert IijKey(a, b)[h..] == Decimal(b);
    assert IijKey(a, c)[h..] == Decimal(c);
    DecimalInjective(b, c);
  }

  /** Entry i (1-based) of a voltage vector, Zero outside it. */
  ghost function VAt(U: seq<Complex>, i: int): Complex
  {
    if 1 <= i <= |U| then U[i - 1] else Zero
  }

  /** The current computeIij computes in the pass (i, j): the voltage drop
      from the smaller bus to the larger, times Y[i][j]. */
  ghost function PassCurrent(Y: Mat, U: seq<Complex>, i: int, j: int): Complex
  {
    if i < j then Mul(Sub(VAt(U, i), VAt(U, j)), At(Y, i, j)) else Mul(Sub(VAt(U, j), VAt(U, i)), At(Y, i, j))
  }

  /** The written key of the pass (i, j). */
  function PassKey(p: (nat, nat)): string
  {
    if p.0 <= p.1 then IijKey(p.0, p.1) else IijKey(p.1, p.0)
  }

  /** The passes (i, j) of one outer iteration i: j = 1..n without j = i. */
  ghost function Passes(i: nat, n: nat): seq<(nat, nat)>
    requires 1 <= i <= n
  {
    seq(n - 1, c requires 0 <= c < n - 1 => (i, if c + 1 < i then c + 1 else c + 2))
  }

  /** The passes of the outer iterations 1..m, in loop order. */
  ghost function AllPasses(n: nat, m: nat): seq<(nat, nat)>
    requires m <= n
    decreases m
  {
    if m == 0 then [] else AllPasses(n, m - 1) + Passes(m, n)
  }

  /** The outer iteration i = 1 comes first. */
  lemma {:induction false} FirstRowFirst(n: nat, m: nat)
    requires 1 <= m <= n
    ensures |AllPasses(n, m)| >= n - 1 && AllPasses(n, m)[..n - 1] == Passes(1, n)
    decreases m
  {
    if m > 1 {
      FirstRowFirst(n, m - 1);
      var A := AllPasses(n, m - 1);
      assert (A + Passes(m, n))[..n - 1] == A[..n - 1];
    } else {
      assert AllPasses(n, 1) == [] + Passes(1, n);
    }
  }

  /** computeIij as written, after the passes ps: the table is keyed by the
      written string, and a pass whose key is already present is skipped. */
  ghost function WrittenIij(Y: Mat, U: seq<Complex>, ps: seq<(nat, nat)>): map<string, Complex>
    decreases |ps|
  {
    if ps == [] then map[]
    else
      var T := WrittenIij(Y, U, ps[..|ps| - 1]);
      var p := ps[|ps| - 1];
      if PassKey(p) in T then T else T[PassKey(p) := PassCurrent(Y, U, p.0, p.1)]
  }

  /** A key no pass has produced is absent from the table. */
  lemma {:induction false} WrittenIijAbsent(Y: Mat, U: seq<Complex>, ps: seq<(nat, nat)>, key: string)
    requires forall k :: 0 <= k < |ps| ==> PassKey(ps[k]) != key
    ensures key !in WrittenIij(Y, U, ps)
    decreases |ps|
  {
    if ps != [] {
      var init := ps[..|ps| - 1];
      forall k | 0 <= k < |init|
        ensures PassKey(init[k]) != key
      {
        assert init[k] == ps[k];
      }
      WrittenIijAbsent(Y, U, init, key);
    }
  }

  /** The first pass with a given key decides that key's entry for good. */
  lemma {:induction false} WrittenIijFirstWins(Y: Mat, U: seq<Complex>, ps: seq<(nat, nat)>, k: int)
    requires 0 <= k < |ps|
    requires forall k' :: 0 <= k' < k ==> PassKey(ps[k']) != PassKey(ps[k])
    ensures PassKey(ps[k]) in WrittenIij(Y, U, ps)
    ensures WrittenIij(Y, U, ps)[PassKey(ps[k])] == PassCurrent(Y, U, ps[k].0, ps[k].1)
    decreases |ps|
  {
    var init := ps[..|ps| - 1];
    if k == |ps| - 1 {
      forall k' | 0 <= k' < |init|
        ensures PassKey(init[k']) != PassKey(ps[k])
      {
        assert init[k'] == ps[k'];
      }
      WrittenIijAbsent(Y, U, init, PassKey(ps[k]));
    } else {
      forall k' | 0 <= k' < k
        ensures PassKey(init[k']) != PassKey(init[k])
      {
        assert init[k'] == ps[k'];
      }
      WrittenIijFirstWins(Y, U, init, k);
    }
  }

  /** As written, with 112 or more buses, the key "I1112" of the pair
      (11, 12) holds the current between buses 1 and 112, written first, so
      the current between buses 11 and 12 has no entry of its own. */
  lemma WrittenIijLosesPair(Y: Mat, U: seq<Complex>, n: nat)
    requires n >= 112
    ensures IijKey(11, 12) == IijKey(1, 112)
    ensures IijKey(11, 12) in WrittenIij(Y, U, AllPasses(n, n))
    ensures WrittenIij(Y, U, AllPasses(n, n))[IijKey(11, 12)] == PassCurrent(Y, U, 1, 112)
  {
    IijKeyCollision();
    var ps := AllPasses(n, n);
    FirstRowFirst(n, n);
    assert ps[110] == Passes(1, n)[110] == (1, 112);
    forall k' | 0 <= k' < 110
      ensures PassKey(ps[k']) != PassKey(ps[110])
    {
      assert ps[k'] == Passes(1, n)[k'] == (1, k' + 2);
      if PassKey(ps[k']) == PassKey(ps[110]) {
        IijKeySameSmall(1, k' + 2, 112);
      }
    }
    WrittenIijFirstWins(Y, U, ps, 110);
  }

  // ---------------------------------------------------------------------
  // The matrix shown for a short circuit at one bus (lab1)

  /** The 1-based index of the c-th (0-based) row or column kept when row and
      column `node` are struck out; nothing is struck when node is no bus. */
  function Kept(c: int, node: int): int
  {
    if 1 <= node <= c + 1 then c + 2 else c + 1
  }

  /** How many of the first m buses remain. */
  function KeptCount(m: nat, node: int): nat
  {
    if 1 <= node <= m then m - 1 else m
  }

  /** The entries of row i, columns 1..m, with column `node` left out. */
  ghost function SelectedRow(M: Mat, node: int, i: int, m: nat): seq<Complex>
    decreases m
  {
    if m == 0 then [] else SelectedRow(M, node, i, m - 1) + (if m != node then [At(M, i, m)] else [])
  }

  /** The entries PrintShortCircuit shows from rows 1..m, in row-major order. */
  ghost function Selected(M: Mat, node: int, m: nat): seq<Complex>
    decreases m
  {
    if m == 0 then [] else Selected(M, node, m - 1) + (if m != node then SelectedRow(M, node, m, |M|) else [])
  }

  /** Row i of the selection is row i of M with column `node` struck out. */
  lemma {:induction false} SelectedRowEntries(M: Mat, node: int, i: int, m: nat)
    ensures |SelectedRow(M, node, i, m)| == KeptCount(m, node)
    ensures forall c :: 0 <= c < KeptCount(m, node) ==> SelectedRow(M, node, i, m)[c] == At(M, i, Kept(c, node))
    decreases m
  {
    if m > 0 {
      SelectedRowEntries(M, node, i, m - 1);
    }
  }

  /** The reduced matrix: M with row and column `node` struck out, row by row. */
  ghost function Reduced(M: Mat, node: int): (R: seq<seq<Complex>>)
    ensures |R| == KeptCount(|M|, node)
    ensures forall r :: 0 <= r < |R| ==> |R[r]| == KeptCount(|M|, node)
    ensures forall r, c :: 0 <= r < |R| && 0 <= c < |R| ==> R[r][c] == At(M, Kept(r, node), Kept(c, node))
  {
    var k := KeptCount(|M|, node);
    seq(k, r => seq(k, c => At(M, Kept(r, node), Kept(c, node))))
  }

  /** The rows of R, one after another. */
  ghost function Flatten(R: seq<seq<Complex>>): seq<Complex>
    decreases |R|
  {
    if R == [] then [] else Flatten(R[..|R| - 1]) + R[|R| - 1]
  }

  lemma {:induction false} FlattenLength(R: seq<seq<Complex>>, w: nat)
    requires forall r :: 0 <= r < |R| ==> |R[r]| == w
    ensures |Flatten(R)| == |R| * w
    decreases |R|
  {
    if R != [] {
      FlattenLength(R[..|R| - 1], w);
      assert |Flatten(R)| == (|R| - 1) * w + w;
    }
  }

  /** Flattening one more row of a prefix appends that row. */
  lemma FlattenPrefixStep(R: seq<seq<Complex>>, r: nat)
    requires r < |R|
    ensures Flatten(R[..r + 1]) == Flatten(R[..r]) + R[r]
  {
    var P := R[..r + 1];
    assert P[..|P| - 1] == R[..r];
  }

  /** Row r of the reduced matrix is the selected row of the r-th kept bus. */
  lemma ReducedRowIsSelected(M: Mat, node: int, r: nat)
    requires IsSquare(M) && r < KeptCount(|M|, node)
    ensures Reduced(M, node)[r] == SelectedRow(M, node, Kept(r, node), |M|)
  {
    var R := Reduced(M, node);
    SelectedRowEntries(M, node, Kept(r, node), |M|);
    assert |R[r]| == KeptCount(|M|, node);
  }

  /** If row r of R is the selected row of the r-th kept bus, the first m
      rows of the selection are the first KeptCount(m) rows of R, flattened. */
  lemma {:induction false} SelectedIsFlattenPrefix(M: Mat, node: int, m: nat, R: seq<seq<Complex>>)
    requires IsSquare(M) && m <= |M| && |R| == KeptCount(|M|, node)
    requires forall r :: 0 <= r < |R| ==> R[r] == SelectedRow(M, node, Kept(r, node), |M|)
    ensures Selected(M, node, m) == Flatten(R[..KeptCount(m, node)])
    decreases m
  {
    if m > 0 {
      SelectedIsFlattenPrefix(M, node, m - 1, R);
      var r := KeptCount(m - 1, node);
      if m != node {
        assert KeptCount(m, node) == r + 1 && Kept(r, node) == m;
        var row := SelectedRow(M, node, m, |M|);
        assert R[r] == row;
        FlattenPrefixStep(R, r);
        assert Flatten(R[..r + 1]) == Flatten(R[..r]) + row;
        assert Selected(M, node, m) == Selected(M, node, m - 1) + row;
      } else {
        assert KeptCount(m, node) == r;
        assert Selected(M, node, m) == Selected(M, node, m - 1);
      }
    }
  }

  /** PrintShortCircuit shows exactly the entries of the reduced matrix,
      row after row: (n-1)^2 of them when the node is a bus, n^2 otherwise. */
  lemma SelectedIsReduced(M: Mat, node: int)
    requires IsSquare(M)
    ensures Selected(M, node, |M|) == Flatten(Reduced(M, node))
    ensures |Selected(M, node, |M|)| == KeptCount(|M|, node) * KeptCount(|M|, node)
  {
    var R := Reduced(M, node);
    forall r | 0 <= r < |R|
      ensures R[r] == SelectedRow(M, node, Kept(r, node), |M|)
    {
      ReducedRowIsSelected(M, node, r);
    }
    SelectedIsFlattenPrefix(M, node, |M|, R);
    assert R[..KeptCount(|M|, node)] == R;
    FlattenLength(R, KeptCount(|M|, node));
  }
}

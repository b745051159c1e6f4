/** The Parser of the four labs: it collects the network's branches, sizes
    the bus matrices, assembles the admittance matrix resultY in place,
    factors it into L, D and U, solves for the impedance matrix resultZ and
    evaluates the fault quantities on it. The labs differ in how branches
    are obtained (the constructors) and in how computeYij stores a branch
    admittance (`mode`). */
module PowerParser {
  import opened ComplexArith
  import opened Matrices
  import opened Branches
  import opened Admittance
  import opened Factorization
  import opened Substitution
  import opened PerUnit
  import opened Faults
  import opened Sources
  import opened LduLoops
  import opened SolveLoops

  class Parser {
    /** The system base power SB and the average base voltage Vav. */
    const sb: real
    const vav: real
    /** Overwrite for lab1 and lab2, Accumulate for lab3 and lab4. */
    const mode: YijMode
    var branches: seq<Branch>
    var nodeNum: nat
    var resultY: array2<Complex>
    var resultZ: ComplexMatrix?

    /** resultY is nodeNum x nodeNum. */
    ghost predicate Valid()
      reads this
    {
      resultY.Length0 == nodeNum && resultY.Length1 == nodeNum
    }

    /** NewParser of lab1 (mode Overwrite) and lab3 (mode Accumulate): the
        network's circuits, generators and transformers become branches, in
        that order, and resultY is an all-zero nodeNum x nodeNum matrix. */
    constructor FromNetwork(network: Network, mode: YijMode)
      requires RatingsNonzero(network)
      ensures sb == network.sb && vav == network.vav && this.mode == mode
      ensures branches == NetworkBranches(network)
      ensures nodeNum == MaxNode(branches)
      ensures Valid() && fresh(resultY) && Snapshot(resultY) == ZeroMat(nodeNum)
      ensures resultZ == null
    {
      sb := network.sb;
      vav := network.vav;
      this.mode := mode;
      branches := [];
      nodeNum := 0;
      resultY := new Complex[0, 0];
      resultZ := null;
      new;
      EmptyAppend(NetworkBranches(network));
      ParsePowerNetwork(network);
      SizeBuses();
    }

    /** NewParser of lab2: circuits, generators, transformers and loads, each
        record on its own base voltage; lab2 overwrites off-diagonals and
        leaves Vav at 0. */
    constructor FromBaseNetwork(network: BaseNetwork)
      requires BaseRatingsNonzero(network)
      ensures sb == network.sb && vav == 0.0 && mode == Overwrite
      ensures branches == BaseNetworkBranches(network)
      ensures nodeNum == MaxNode(branches)
      ensures Valid() && fresh(resultY) && Snapshot(resultY) == ZeroMat(nodeNum)
      ensures resultZ == null
    {
      sb := network.sb;
      vav := 0.0;
      mode := Overwrite;
      branches := [];
      nodeNum := 0;
      resultY := new Complex[0, 0];
      resultZ := null;
      new;
      EmptyAppend(BaseNetworkBranches(network));
      ParseBaseNetwork(network);
      SizeBuses();
    }

    /** NewParser of lab4: the branch list is kept as given. */
    constructor FromBranches(bs: seq<Branch>)
      ensures sb == 0.0 && vav == 0.0 && mode == Accumulate
      ensures branches == bs
      ensures nodeNum == MaxNode(bs)
      ensures Valid() && fresh(resultY) && Snapshot(resultY) == ZeroMat(nodeNum)
      ensures resultZ == null
    {
      sb := 0.0;
      vav := 0.0;
      mode := Accumulate;
      branches := bs;
      nodeNum := 0;
      resultY := new Complex[0, 0];
      resultZ := null;
      new;
      SizeBuses();
    }

    /** The bus count is the running maximum of the terminals, and resultY a
        fresh all-zero square matrix of that size. */
    method SizeBuses()
      modifies this
      ensures branches == old(branches) && resultZ == old(resultZ)
      ensures nodeNum == MaxNode(branches)
      ensures Valid() && fresh(resultY) && Snapshot(resultY) == ZeroMat(nodeNum)
    {
      nodeNum := 0;
      var i := 0;
      while i < |branches|
        invariant 0 <= i <= |branches|
        invariant branches == old(branches) && resultZ == old(resultZ)
        invariant nodeNum == MaxNode(branches[..i])
      {
        var branch := branches[i];
        assert branches[..i + 1][..i] == branches[..i];
        if branch.node1 > nodeNum {
          nodeNum := branch.node1;
        }
        if branch.node2 > nodeNum {
          nodeNum := branch.node2;
        }
        i := i + 1;
      }
      assert branches[..|branches|] == branches;
      resultY := new Complex[nodeNum, nodeNum]((_, _) => Zero);
      SnapshotIs(resultY, ZeroMat(nodeNum));
    }

    // -------------------------------------------------------------------
    // Normalisation (the *ArgsToBranch methods and parsePowerNetwork)

    /** circuitArgsToBranch (lab1, lab3): appends the circuit's branch on Vav. */
    method CircuitArgsToBranch(circuit: Circuit)
      requires sb != 0.0 && vav != 0.0
      modifies this
      ensures branches == old(branches) + [CircuitBranch(circuit, sb, vav)]
      ensures nodeNum == old(nodeNum) && resultY == old(resultY) && resultZ == old(resultZ)
    {
      branches := branches + [CircuitBranch(circuit, sb, vav)];
    }

    /** powerGeneratorArgsToBranch (lab1, lab3). */
    method PowerGeneratorArgsToBranch(generator: Generator)
      requires generator.sn != 0.0
      modifies this
      ensures branches == old(branches) + [GeneratorBranch(generator, sb)]
      ensures nodeNum == old(nodeNum) && resultY == old(resultY) && resultZ == old(resultZ)
    {
      branches := branches + [GeneratorBranch(generator, sb)];
    }

    /** transformerArgsToBranch (lab1, lab3). */
    method TransformerArgsToBranch(transformer: Transformer)
      requires transformer.sn != 0.0
      modifies this
      ensures branches == old(branches) + [TransformerBranch(transformer, sb)]
      ensures nodeNum == old(nodeNum) && resultY == old(resultY) && resultZ == old(resultZ)
    {
      branches := branches + [TransformerBranch(transformer, sb)];
    }

    /** parsePowerNetwork (lab1, lab3): one branch per record, circuits first,
        then generators, then transformers. */
    method ParsePowerNetwork(network: Network)
      requires RatingsNonzero(network) && sb == network.sb && vav == network.vav
      modifies this
      ensures branches == old(branches) + NetworkBranches(network)
      ensures nodeNum == old(nodeNum) && resultY == old(resultY) && resultZ == old(resultZ)
    {
      ParseCircuits(network.circuits);
      ParseGenerators(network.generators);
      ParseTransformers(network.transformers);
      assert branches == old(branches) + (CircuitBranches(network.circuits, sb, vav)
        + GeneratorBranches(network.generators, sb) + TransformerBranches(network.transformers, sb));
    }

    /** The circuit loop of parsePowerNetwork. */
    method ParseCircuits(circuits: seq<Circuit>)
      requires |circuits| > 0 ==> sb != 0.0 && vav != 0.0
      modifies this
      ensures branches == old(branches) + CircuitBranches(circuits, sb, vav)
      ensures nodeNum == old(nodeNum) && resultY == old(resultY) && resultZ == old(resultZ)
    {
      var i := 0;
      while i < |circuits|
        invariant 0 <= i <= |circuits|
        invariant branches == old(branches) + CircuitBranches(circuits[..i], sb, vav)
        invariant nodeNum == old(nodeNum) && resultY == old(resultY) && resultZ == old(resultZ)
      {
        assert circuits[..i + 1][..i] == circuits[..i];
        CircuitArgsToBranch(circuits[i]);
        i := i + 1;
      }
      assert circuits[..i] == circuits;
    }

    /** The generator loop of parsePowerNetwork. */
    method ParseGenerators(generators: seq<Generator>)
      requires forall k :: 0 <= k < |generators| ==> generators[k].sn != 0.0
      modifies this
      ensures branches == old(branches) + GeneratorBranches(generators, sb)
      ensures nodeNum == old(nodeNum) && resultY == old(resultY) && resultZ == old(resultZ)
    {
      var i := 0;
      while i < |generators|
        invariant 0 <= i <= |generators|
        invariant branches == old(branches) + GeneratorBranches(generators[..i], sb)
        invariant nodeNum == old(nodeNum) && resultY == old(resultY) && resultZ == old(resultZ)
      {
        assert generators[..i + 1][..i] == generators[..i];
        PowerGeneratorArgsToBranch(generators[i]);
        i := i + 1;
      }
      assert generators[..i] == generators;
    }

    /** The transformer loop of parsePowerNetwork. */
    method ParseTransformers(transformers: seq<Transformer>)
      requires forall k :: 0 <= k < |transformers| ==> transformers[k].sn != 0.0
      modifies this
      ensures branches == old(branches) + TransformerBranches(transformers, sb)
      ensures nodeNum == old(nodeNum) && resultY == old(resultY) && resultZ == old(resultZ)
    {
      var i := 0;
      while i < |transformers|
        invariant 0 <= i <= |transformers|
        invariant branches == old(branches) + TransformerBranches(transformers[..i], sb)
        invariant nodeNum == old(nodeNum) && resultY == old(resultY) && resultZ == old(resultZ)
      {
        assert transformers[..i + 1][..i] == transformers[..i];
        TransformerArgsToBranch(transformers[i]);
        i := i + 1;
      }
      assert transformers[..i] == transformers;
    }

    /** circuitArgsToBranch (lab2): the circuit's branch on its own VB. */
    method BaseCircuitArgsToBranch(circuit: BaseCircuit)
      requires sb != 0.0 && circuit.vb != 0.0
      modifies this
      ensures branches == old(branches) + [BaseCircuitBranch(circuit, sb)]
      ensures nodeNum == old(nodeNum) && resultY == old(resultY) && resultZ == old(resultZ)
    {
      branches := branches + [BaseCircuitBranch(circuit, sb)];
    }

    /** powerGeneratorArgsToBranch (lab2): a source branch with E = 1. */
    method BaseGeneratorArgsToBranch(generator: BaseGenerator)
      requires GeneratorRated(generator)
      modifies this
      ensures branches == old(branches) + [BaseGeneratorBranch(generator, sb)]
      ensures nodeNum == old(nodeNum) && resultY == old(resultY) && resultZ == old(resultZ)
    {
      branches := branches + [BaseGeneratorBranch(generator, sb)];
    }

    /** transformerArgsToBranch (lab2): the voltage-corrected reactance. */
    method BaseTransformerArgsToBranch(transformer: BaseTransformer)
      requires transformer.sn != 0.0 && transformer.vb != 0.0
      modifies this
      ensures branches == old(branches) + [BaseTransformerBranch(transformer, sb)]
      ensures nodeNum == old(nodeNum) && resultY == old(resultY) && resultZ == old(resultZ)
    {
      branches := branches + [BaseTransformerBranch(transformer, sb)];
    }

    /** LdArgsToBranch (lab2): a source branch with E = 0.8. */
    method LdArgsToBranch(ld: Load)
      requires ld.ld != 0.0
      modifies this
      ensures branches == old(branches) + [LoadBranch(ld, sb)]
      ensures nodeNum == old(nodeNum) && resultY == old(resultY) && resultZ == old(resultZ)
    {
      branches := branches + [LoadBranch(ld, sb)];
    }

    /** parsePowerNetwork (lab2): circuits, generators, transformers, then loads. */
    method ParseBaseNetwork(network: BaseNetwork)
      requires BaseRatingsNonzero(network) && sb == network.sb
      modifies this
      ensures branches == old(branches) + BaseNetworkBranches(network)
      ensures nodeNum == old(nodeNum) && resultY == old(resultY) && resultZ == old(resultZ)
    {
      ghost var c := BaseCircuitBranches(network.circuits, sb);
      ghost var g := BaseGeneratorBranches(network.generators, sb);
      ghost var t := BaseTransformerBranches(network.transformers, sb);
      ghost var l := LoadBranches(network.loads, sb);
      ParseBaseCircuits(network.circuits);
      ParseBaseGenerators(network.generators);
      ParseBaseTransformers(network.transformers);
      ParseLds(network.loads);
      assert branches == old(branches) + c + g + t + l;
      AppendFour(old(branches), c, g, t, l);
    }

    /** The circuit loop of parsePowerNetwork (lab2). */
    method ParseBaseCircuits(circuits: seq<BaseCircuit>)
      requires (|circuits| > 0 ==> sb != 0.0) && forall k :: 0 <= k < |circuits| ==> circuits[k].vb != 0.0
      modifies this
      ensures branches == old(branches) + BaseCircuitBranches(circuits, sb)
      ensures nodeNum == old(nodeNum) && resultY == old(resultY) && resultZ == old(resultZ)
    {
      var i := 0;
      while i < |circuits|
        invariant 0 <= i <= |circuits|
        invariant branches == old(branches) + BaseCircuitBranches(circuits[..i], sb)
        invariant nodeNum == old(nodeNum) && resultY == old(resultY) && resultZ == old(resultZ)
      {
        assert circuits[..i + 1][..i] == circuits[..i];
        BaseCircuitArgsToBranch(circuits[i]);
        i := i + 1;
      }
      assert circuits[..i] == circuits;
    }

    /** The generator loop of parsePowerNetwork (lab2). */
    method ParseBaseGenerators(generators: seq<BaseGenerator>)
      requires forall k :: 0 <= k < |generators| ==> GeneratorRated(generators[k])
      modifies this
      ensures branches == old(branches) + BaseGeneratorBranches(generators, sb)
      ensures nodeNum == old(nodeNum) && resultY == old(resultY) && resultZ == old(resultZ)
    {
      var i := 0;
      while i < |generators|
        invariant 0 <= i <= |generators|
        invariant branches == old(branches) + BaseGeneratorBranches(generators[..i], sb)
        invariant nodeNum == old(nodeNum) && resultY == old(resultY) && resultZ == old(resultZ)
      {
        assert generators[..i + 1][..i] == generators[..i];
        BaseGeneratorArgsToBranch(generators[i]);
        i := i + 1;
      }
      assert generators[..i] == generators;
    }

    /** The transformer loop of parsePowerNetwork (lab2). */
    method ParseBaseTransformers(transformers: seq<BaseTransformer>)
      requires forall k :: 0 <= k < |transformers| ==> transformers[k].sn != 0.0 && transformers[k].vb != 0.0
      modifies this
      ensures branches == old(branches) + BaseTransformerBranches(transformers, sb)
      ensures nodeNum == old(nodeNum) && resultY == old(resultY) && resultZ == old(resultZ)
    {
      var i := 0;
      while i < |transformers|
        invariant 0 <= i <= |transformers|
        invariant branches == old(branches) + BaseTransformerBranches(transformers[..i], sb)
        invariant nodeNum == old(nodeNum) && resultY == old(resultY) && resultZ == old(resultZ)
      {
        assert transformers[..i + 1][..i] == transformers[..i];
        BaseTransformerArgsToBranch(transformers[i]);
        i := i + 1;
      }
      assert transformers[..i] == transformers;
    }

    /** The load loop of parsePowerNetwork (lab2). */
    method ParseLds(lds: seq<Load>)
      requires forall k :: 0 <= k < |lds| ==> lds[k].ld != 0.0
      modifies this
      ensures branches == old(branches) + LoadBranches(lds, sb)
      ensures nodeNum == old(nodeNum) && resultY == old(resultY) && resultZ == old(resultZ)
    {
      var i := 0;
      while i < |lds|
        invariant 0 <= i <= |lds|
        invariant branches == old(branches) + LoadBranches(lds[..i], sb)
        invariant nodeNum == old(nodeNum) && resultY == old(resultY) && resultZ == old(resultZ)
      {
        assert lds[..i + 1][..i] == lds[..i];
        LdArgsToBranch(lds[i]);
        i := i + 1;
      }
      assert lds[..i] == lds;
    }

    // -------------------------------------------------------------------
    // Admittance matrix (computeResult of lab1-lab3, computeResultY of lab4)

    /** computeYij: -1/(R + jX) is stored (Overwrite) or added (Accumulate)
        at (node1, node2) and at (node2, node1); nothing else changes. */
    method ComputeYij(branch: Branch)
      requires Valid() && 1 <= branch.node1 <= nodeNum && 1 <= branch.node2 <= nodeNum
      requires branch.node1 != branch.node2 && Impedance(branch) != Zero
      modifies resultY
      ensures forall r, c :: 0 <= r < nodeNum && 0 <= c < nodeNum ==>
        resultY[r, c] == if Joins(branch, r + 1, c + 1) then Stored(old(resultY[r, c]), BranchY(branch), mode)
                         else old(resultY[r, c])
    {
      var yij := BranchY(branch);
      var n1, n2 := branch.node1 - 1, branch.node2 - 1;
      match mode {
        case Overwrite =>
          resultY[n1, n2] := yij;
          resultY[n2, n1] := yij;
        case Accumulate =>
          resultY[n1, n2] := Add(resultY[n1, n2], yij);
          resultY[n2, n1] := Add(resultY[n2, n1], yij);
      }
    }

    /** The shunt lines of the assembly loop: -j*Admittance at both terminals. */
    method AddShunts(branch: Branch)
      requires Valid() && WellFormedBranch(branch, nodeNum)
      modifies resultY
      ensures forall r, c :: 0 <= r < nodeNum && 0 <= c < nodeNum ==>
        resultY[r, c] == if r == c then Add(old(resultY[r, c]), ShuntTerm(branch, r + 1)) else old(resultY[r, c])
    {
      if branch.admittance != 0.0 {
        var n1, n2 := branch.node1 - 1, branch.node2 - 1;
        resultY[n1, n1] := Add(resultY[n1, n1], Neg(Complex(0.0, branch.admittance)));
        resultY[n2, n2] := Add(resultY[n2, n2], Neg(Complex(0.0, branch.admittance)));
      }
    }

    /** The ground-branch test of the assembly loop: a ground branch with
        nonzero impedance adds -1/(R + jX) at its bus, any other branch goes
        through computeYij. */
    method AddBranchAdmittance(branch: Branch)
      requires Valid() && WellFormedBranch(branch, nodeNum)
      modifies resultY
      ensures forall r, c :: 0 <= r < nodeNum && 0 <= c < nodeNum ==>
        resultY[r, c] == if r == c then Add(old(resultY[r, c]), GroundTerm(branch, r + 1))
                         else if !IsGround(branch) && Joins(branch, r + 1, c + 1) then Stored(old(resultY[r, c]), BranchY(branch), mode)
                         else old(resultY[r, c])
    {
      var (node, isGroundBranch) := IsGroundBranch(branch);
      if isGroundBranch {
        if branch.resistance != 0.0 || branch.reactance != 0.0 {
          resultY[node - 1, node - 1] := Add(resultY[node - 1, node - 1], BranchY(branch));
        }
      } else {
        ComputeYij(branch);
      }
    }

    /** One pass of the assembly loop: the shunt terms, then the ground term
        or computeYij. The matrix becomes ApplyBranch of what it was. */
    method AssembleBranch(branch: Branch)
      requires Valid() && WellFormedBranch(branch, nodeNum)
      modifies resultY
      ensures Snapshot(resultY) == ApplyBranch(old(Snapshot(resultY)), branch, mode)
    {
      ghost var S := Snapshot(resultY);
      AddShunts(branch);
      label shunted:
      AddBranchAdmittance(branch);
      ghost var A := ApplyBranch(S, branch, mode);
      forall r, c | 1 <= r <= nodeNum && 1 <= c <= nodeNum
        ensures resultY[r - 1, c - 1] == At(A, r, c)
      {
        var x := old(resultY[r - 1, c - 1]);
        assert S[r - 1][c - 1] == x;
        assert At(A, r, c) == EntryUpdate(x, branch, mode, r, c);
        if r == c {
          assert old@shunted(resultY[r - 1, c - 1]) == Add(x, ShuntTerm(branch, r));
          assert resultY[r - 1, c - 1] == Add(Add(x, ShuntTerm(branch, r)), GroundTerm(branch, r));
          assert EntryUpdate(x, branch, mode, r, c) == Add(x, Add(ShuntTerm(branch, r), GroundTerm(branch, r)));
        } else {
          assert old@shunted(resultY[r - 1, c - 1]) == x;
          assert resultY[r - 1, c - 1] == if !IsGround(branch) && Joins(branch, r, c) then Stored(x, BranchY(branch), mode) else x;
          assert EntryUpdate(x, branch, mode, r, c) == if !IsGround(branch) && Joins(branch, r, c) then Stored(x, BranchY(branch), mode) else x;
        }
      }
      SnapshotIs(resultY, A);
    }

    /** computeYii: Y[node][node] becomes minus the sum of the whole row
        (the pre-pass diagonal included); nothing else changes. */
    method ComputeYii(node: int)
      requires Valid() && 1 <= node <= nodeNum
      modifies resultY
      ensures resultY[node - 1, node - 1] == Neg(RowSum(old(Snapshot(resultY)), node))
      ensures forall r, c :: 0 <= r < nodeNum && 0 <= c < nodeNum && (r != node - 1 || c != node - 1) ==>
        resultY[r, c] == old(resultY[r, c])
    {
      ghost var S := Snapshot(resultY);
      var yii := Zero;
      var i := 0;
      while i < nodeNum
        invariant 0 <= i <= nodeNum
        invariant yii == Neg(Sum(i, RowTerms(S, node)))
      {
        yii := Sub(yii, resultY[node - 1, i]);
        i := i + 1;
      }
      resultY[node - 1, node - 1] := yii;
    }

    /** computeResult: the assembly loop leaves the pre-pass matrix, and the
        diagonal pass then turns resultY into YBus of its initial value. */
    method ComputeResultY()
      requires Valid() && WellFormed(branches, nodeNum)
      modifies resultY
      ensures Snapshot(resultY) == YBus(old(Snapshot(resultY)), branches, mode)
    {
      ghost var Y0 := Snapshot(resultY);
      var i := 0;
      while i < |branches|
        invariant 0 <= i <= |branches|
        invariant WellFormed(branches[..i], nodeNum)
        invariant Snapshot(resultY) == PrePass(Y0, branches[..i], mode)
      {
        var branch := branches[i];
        assert branches[..i + 1][..i] == branches[..i];
        AssembleBranch(branch);
        i := i + 1;
      }
      assert branches[..i] == branches;
      DiagonalLoop();
    }

    /** The second loop of computeResult: computeYii for every bus in turn,
        each reading the row as the pre-pass left it. */
    method DiagonalLoop()
      requires Valid()
      modifies resultY
      ensures Snapshot(resultY) == DiagonalPass(old(Snapshot(resultY)))
    {
      ghost var P := Snapshot(resultY);
      var i := 1;
      while i <= nodeNum
        invariant 1 <= i <= nodeNum + 1
        invariant forall r, c :: 0 <= r < nodeNum && 0 <= c < nodeNum ==>
          resultY[r, c] == if r == c && r < i - 1 then Neg(RowSum(P, r + 1)) else At(P, r + 1, c + 1)
      {
        SameRowSum(Snapshot(resultY), P, i);
        ComputeYii(i);
        i := i + 1;
      }
      SnapshotIs(resultY, DiagonalPass(P));
    }

    // -------------------------------------------------------------------
    // Factorisation and the impedance matrix

    /** LDU: the factors of resultY, as the Factorization recurrences define
        them, in fresh matrices. It writes nothing of the parser's own. */
    method LDU() returns (l: ComplexMatrix, d: ComplexMatrix, u: ComplexMatrix)
      requires Valid() && LduDefined(Snapshot(resultY), DivOr0)
      ensures fresh(l) && fresh(d) && fresh(u) && fresh(l.m) && fresh(d.m) && fresh(u.m)
      ensures Dims(l.m, nodeNum) && Dims(d.m, nodeNum) && Dims(u.m, nodeNum)
      ensures Snapshot(l.m) == LMat(Snapshot(resultY), DivOr0)
      ensures Snapshot(d.m) == DMat(Snapshot(resultY), DivOr0)
      ensures Snapshot(u.m) == UMat(Snapshot(resultY), DivOr0)
    {
      ghost var Y := Snapshot(resultY);
      DivOr0IsQuotient();
      l, d, u := InitFactors(resultY, Y, DivOr0);
      var i := 1;
      while i <= nodeNum
        invariant 1 <= i <= nodeNum + 1
        invariant fresh(l.m) && fresh(d.m) && fresh(u.m) && l.m != d.m && l.m != u.m && d.m != u.m
        invariant LDone(l.m, Y, DivOr0, i - 1) && LPending(l.m, Y, DivOr0, i - 1)
        invariant UDone(u.m, Y, DivOr0, i - 1) && UPending(u.m, Y, i - 1)
        invariant DDone(d.m, Y, DivOr0, i - 1) && DPending(d.m, Y, i - 1)
      {
        PivotStep(u, d, resultY, Y, DivOr0, i);
        UpperRow(u, d, resultY, Y, DivOr0, i);
        LowerRow(l, d, resultY, Y, DivOr0, i);
        i := i + 1;
      }
      SnapshotIs(l.m, LMat(Y, DivOr0));
      SnapshotIs(d.m, DMat(Y, DivOr0));
      SnapshotIs(u.m, UMat(Y, DivOr0));
    }

    /** computeZj: column j of Z becomes the back-substitution solution of
        L * D * U * z = e_j; every other column is left alone. */
    method ComputeZj(j: nat, l: ComplexMatrix, d: ComplexMatrix, u: ComplexMatrix, Z: ComplexMatrix)
      requires 1 <= j <= nodeNum
      requires Dims(l.m, nodeNum) && Dims(d.m, nodeNum) && Dims(u.m, nodeNum) && Dims(Z.m, nodeNum)
      requires Z.m != l.m && Z.m != d.m && Z.m != u.m
      requires forall i :: j <= i <= nodeNum ==> At(Snapshot(d.m), i, i) != Zero
      modifies Z.m
      ensures forall r, c :: 0 <= r < nodeNum && 0 <= c < nodeNum ==>
        Z.m[r, c] == if c == j - 1 then Back(Snapshot(l.m), Snapshot(d.m), Snapshot(u.m), DivOr0, j, r + 1)
                     else old(Z.m[r, c])
    {
      ghost var L, D, U := Snapshot(l.m), Snapshot(d.m), Snapshot(u.m);
      DivOr0IsQuotient();
      var length := nodeNum;
      var f := new ComplexMatrix(1, length);
      var h := new ComplexMatrix(1, length);
      ForwardColumn(l, f, L, j);
      ScaleColumn(f, d, h, L, D, DivOr0, j);
      BackColumn(u, h, Z, L, D, U, DivOr0, j);
    }

    /** computeZ: every column of a fresh Z solved by computeZj in turn. */
    method ComputeZ(l: ComplexMatrix, d: ComplexMatrix, u: ComplexMatrix) returns (Z: ComplexMatrix)
      requires Dims(l.m, nodeNum) && Dims(d.m, nodeNum) && Dims(u.m, nodeNum)
      requires forall i :: 1 <= i <= nodeNum ==> At(Snapshot(d.m), i, i) != Zero
      ensures fresh(Z) && fresh(Z.m) && Dims(Z.m, nodeNum)
      ensures Snapshot(Z.m) == ZMat(Snapshot(l.m), Snapshot(d.m), Snapshot(u.m), DivOr0)
    {
      ghost var L, D, U := Snapshot(l.m), Snapshot(d.m), Snapshot(u.m);
      Z := new ComplexMatrix(nodeNum, nodeNum);
      var j := 1;
      while j <= nodeNum
        invariant 1 <= j <= nodeNum + 1
        invariant forall r, c :: 0 <= r < nodeNum && 0 <= c < j - 1 ==> Z.m[r, c] == Back(L, D, U, DivOr0, c + 1, r + 1)
      {
        ComputeZj(j, l, d, u, Z);
        j := j + 1;
      }
      SnapshotIs(Z.m, ZMat(L, D, U, DivOr0));
    }

    /** computeResult (lab4): resultY is assembled, then resultZ is
        computeZ(LDU()). When resultY started symmetric, as the all-zero
        matrix NewParser allocates is, resultY * resultZ is the identity. */
    method ComputeResult()
      requires Valid() && WellFormed(branches, nodeNum)
      requires NonzeroPivots(YBus(Snapshot(resultY), branches, mode), DivOr0)
      modifies this, resultY
      ensures branches == old(branches) && nodeNum == old(nodeNum) && resultY == old(resultY) && Valid()
      ensures Snapshot(resultY) == YBus(old(Snapshot(resultY)), branches, mode)
      ensures resultZ != null && fresh(resultZ) && fresh(resultZ.m) && Dims(resultZ.m, nodeNum)
      ensures Snapshot(resultZ.m) == ZBus(Snapshot(resultY))
      ensures Symmetric(old(Snapshot(resultY))) ==>
        forall i, j :: 1 <= i <= nodeNum && 1 <= j <= nodeNum ==>
          ProductAt(nodeNum, Snapshot(resultY), Snapshot(resultZ.m), i, j) == Delta(i, j)
    {
      ghost var Y0 := Snapshot(resultY);
      ComputeResultY();
      ghost var Y := Snapshot(resultY);
      NonzeroPivotsDefined(Y, DivOr0);
      var l, d, u := LDU();
      resultZ := ComputeZ(l, d, u);
      if Symmetric(Y0) {
        YBusSymmetric(Y0, branches, mode);
        ZBusIsInverse(Y);
      }
    }

    // -------------------------------------------------------------------
    // Fault quantities (lab4) and source currents (lab2)

    /** resultZ has been computed for the current bus count. */
    ghost predicate Solved()
      reads this
    {
      Valid() && resultZ != null && Dims(resultZ.m, nodeNum)
    }

    /** computeShortIf: the fault current at bus f, 1 / (Z[f][f] + zf). */
    function ComputeShortIf(f: int): (r: Complex)
      requires resultZ != null && 1 <= f <= resultZ.m.Length0 && f <= resultZ.m.Length1
      requires Add(resultZ.RcAt(f, f), FaultImpedance) != Zero
      reads this, resultZ.m
      ensures Mul(r, resultZ.RcAt(f, f)) == One
    {
      ShortIf(resultZ.RcAt(f, f))
    }

    /** computeAllNodeShortU: the post-fault voltage of every bus for a
        fault at bus f. Each bus has lost the drop Z[i][f] * If, and the
        faulted bus is at zero. */
    method ComputeAllNodeShortU(f: int) returns (U: seq<Complex>)
      requires Solved() && 1 <= f <= nodeNum
      requires Add(resultZ.RcAt(f, f), FaultImpedance) != Zero
      ensures U == ShortUs(Column(Snapshot(resultZ.m), f), resultZ.RcAt(f, f))
      ensures U[f - 1] == Zero
    {
      ghost var col := Column(Snapshot(resultZ.m), f);
      var zff := resultZ.RcAt(f, f);
      var a := new Complex[nodeNum];
      var i := 1;
      while i <= a.Length
        invariant 1 <= i <= a.Length + 1
        invariant forall k :: 0 <= k < i - 1 ==> a[k] == ShortU(col[k], zff)
      {
        a[i - 1] := ShortU(resultZ.RcAt(i, f), zff);
        i := i + 1;
      }
      U := a[..];
      assert U == ShortUs(col, zff);
      ShortUsAtFault(col, zff, f - 1);
    }

    /** computeIij: the current (U[a] - U[b]) * Y[a][b] of every bus pair
        a < b, filed under the pair; no pair a == a, and the first write to a
        key wins. */
    method ComputeIij(U: seq<Complex>) returns (iij: map<(int, int), Complex>)
      requires Valid() && |U| >= nodeNum
      ensures forall key :: key in iij <==> 1 <= key.0 < key.1 <= nodeNum
      ensures forall key :: key in iij ==>
        1 <= key.0 < key.1 <= nodeNum && iij[key] == Mul(Sub(U[key.0 - 1], U[key.1 - 1]), resultY[key.0 - 1, key.1 - 1])
    {
      iij := map[];
      for i := 1 to nodeNum + 1
        invariant forall key :: key in iij <==> 1 <= key.0 < key.1 <= nodeNum && key.0 < i
        invariant forall key :: key in iij ==>
          1 <= key.0 < key.1 <= nodeNum && iij[key] == Mul(Sub(U[key.0 - 1], U[key.1 - 1]), resultY[key.0 - 1, key.1 - 1])
      {
        for j := 1 to nodeNum + 1
          invariant forall key :: key in iij <==> 1 <= key.0 < key.1 <= nodeNum && (key.0 < i || (key.0 == i && key.1 < j))
          invariant forall key :: key in iij ==>
            1 <= key.0 < key.1 <= nodeNum && iij[key] == Mul(Sub(U[key.0 - 1], U[key.1 - 1]), resultY[key.0 - 1, key.1 - 1])
        {
          if i == j {
            continue;
          }
          var key := PairKey(i, j);
          var yij := resultY[i - 1, j - 1];
          var current := if i < j then Mul(Sub(U[i - 1], U[j - 1]), yij) else Mul(Sub(U[j - 1], U[i - 1]), yij);
          if key !in iij {
            iij := iij[key := current];
          }
        }
      }
    }

    /** computeI (lab2): the source currents of the branches, bus by bus. */
    method ComputeI() returns (I: seq<Complex>)
      requires SourcesWellFormed(branches, nodeNum)
      ensures I == SourceCurrents(branches, nodeNum)
    {
      var a := new Complex[nodeNum](_ => Zero);
      assert a[..] == SourceCurrents([], nodeNum);
      var i := 0;
      while i < |branches|
        invariant 0 <= i <= |branches|
        invariant SourcesWellFormed(branches[..i], nodeNum)
        invariant a[..] == SourceCurrents(branches[..i], nodeNum)
      {
        var branch := branches[i];
        assert branches[..i + 1][..i] == branches[..i];
        if branch.e != 0.0 {
          a[branch.node1 - 1] := Div(Complex(branch.e, 0.0), Complex(branch.resistance, branch.reactance));
        }
        i := i + 1;
      }
      assert branches[..i] == branches;
      I := a[..];
    }

    /** PrintShortCircuit (lab1): the entries it shows, in row-major order,
        with row and column `node` struck out. */
    method PrintShortCircuit(node: int) returns (entries: seq<Complex>)
      requires Valid()
      ensures entries == Selected(Snapshot(resultY), node, nodeNum)
      ensures entries == Flatten(Reduced(Snapshot(resultY), node))
      ensures |entries| == KeptCount(nodeNum, node) * KeptCount(nodeNum, node)
    {
      entries := [];
      for i := 0 to nodeNum
        invariant entries == Selected(Snapshot(resultY), node, i)
      {
        var row := ShownRow(node, i);
        entries := entries + row;
      }
      SelectedIsReduced(Snapshot(resultY), node);
    }

    /** One pass of PrintShortCircuit's outer loop: row i (0-based) without
        column `node`, or nothing for the struck-out row. */
    method ShownRow(node: int, i: int) returns (row: seq<Complex>)
      requires Valid() && 0 <= i < nodeNum
      ensures row == if i + 1 != node then SelectedRow(Snapshot(resultY), node, i + 1, nodeNum) else []
    {
      ghost var M := Snapshot(resultY);
      row := [];
      for j := 0 to nodeNum
        invariant row == if i + 1 != node then SelectedRow(M, node, i + 1, j) else []
      {
        if i == node - 1 || j == node - 1 {
          continue;
        }
        row := row + [resultY[i, j]];
      }
    }
  }

  /** Appending four lists one by one is appending their concatenation. */
  lemma AppendFour(a: seq<Branch>, c: seq<Branch>, g: seq<Branch>, t: seq<Branch>, l: seq<Branch>)
    ensures a + c + g + t + l == a + (c + g + t + l)
  {
    assert a + c + g == a + (c + g);
    assert a + (c + g) + t == a + (c + g + t);
  }

  /** Appending to the empty branch list gives the appended list. */
  lemma EmptyAppend(bs: seq<Branch>)
    ensures [] + bs == bs
  {
  }

  // ---------------------------------------------------------------------
  // The sequence-network combination of lab4's main

  /** What computeResult needs of a lab4 branch list. */
  ghost predicate Solvable(grid: seq<Branch>)
  {
    WellFormed(grid, MaxNode(grid)) && NonzeroPivots(YBus(ZeroMat(MaxNode(grid)), grid, Accumulate), DivOr0)
  }

  /** The impedance matrix lab4's parser computes for a branch list. */
  ghost function GridZBus(grid: seq<Branch>): Mat
    requires WellFormed(grid, MaxNode(grid))
  {
    ZBus(YBus(ZeroMat(MaxNode(grid)), grid, Accumulate))
  }

  /** The three sequence networks are solved by independent parsers; the
      positive-sequence current is 1 over the series sum of the three
      Thevenin impedances, and the fault current is three times it. */
  method SequenceFault(grid1: seq<Branch>, f1: int, grid2: seq<Branch>, f2: int, grid0: seq<Branch>, f0: int)
    returns (ifa1: Complex, if1: Complex)
    requires Solvable(grid1) && Solvable(grid2) && Solvable(grid0)
    requires 1 <= f1 <= MaxNode(grid1) && 1 <= f2 <= MaxNode(grid2) && 1 <= f0 <= MaxNode(grid0)
    requires Add(Add(At(GridZBus(grid2), f2, f2), At(GridZBus(grid1), f1, f1)), At(GridZBus(grid0), f0, f0)) != Zero
    ensures Mul(ifa1, Add(Add(At(GridZBus(grid1), f1, f1), At(GridZBus(grid2), f2, f2)), At(GridZBus(grid0), f0, f0))) == One
    ensures if1 == Add(Add(ifa1, ifa1), ifa1)
  {
    var zff1 := SequenceZff(grid1, f1);
    var zff2 := SequenceZff(grid2, f2);
    var zff0 := SequenceZff(grid0, f0);
    ifa1 := SequenceCurrent(zff1, zff2, zff0);
    if1 := FaultCurrent(ifa1);
  }

  /** One sequence network: a parser of its own, computeResult, and the
      Thevenin impedance Z[f][f] read from it. */
  method SequenceZff(grid: seq<Branch>, f: int) returns (zff: Complex)
    requires Solvable(grid) && 1 <= f <= MaxNode(grid)
    ensures zff == At(GridZBus(grid), f, f)
  {
    var parser := new Parser.FromBranches(grid);
    parser.ComputeResult();
    zff := parser.resultZ.RcAt(f, f);
  }
}

# Power-network fault analysis: a Dafny model

This project models the computational pipeline of four Go programs for power
system analysis (`lab1.go`, `lab2/lab2.go`, `lab3/lab3.go`, `lab4/lab4.go`).
The four are near-copies of one pipeline, and all four run in one shared
`Parser` class. The class is parameterised where the programs differ:

- **Normalisation.** Records become a uniform per-unit `Branch`:
  - lab1 and lab3 use one network-wide average voltage `Vav`;
  - lab2 uses each record's own base voltage `VB`, and also has loads, a
    source EMF `E` and a transformer formula corrected for voltage;
  - lab4 receives the branch list ready-made.
- **Bus sizing.** `nodeNum` is the largest terminal index. `resultY` is a
  fresh all-zero `nodeNum x nodeNum` matrix.
- **Y-bus assembly.** This is computeResult / computeResultY:
  - shunt terms and ground terms go on the diagonal;
  - a mutual admittance `-1/(R + jX)` goes on both off-diagonal entries.
    lab1 and lab2 overwrite it (`YijMode.Overwrite`); lab3 and lab4 add it
    (`YijMode.Accumulate`);
  - a final pass sets each diagonal entry to minus its row sum.
- **LDU factorisation.** Crout-style recurrences, filled row by row in three
  fresh matrices.
- **Z-bus solve.** Each column of Z is computed by forward elimination,
  scaling and back substitution.
- **Faults (lab4).** The fault current, the post-fault bus voltages, the
  branch-current table and the sequence-network combination.
- **Other outputs.** lab2's source currents, and the entries lab1 shows for
  a short circuit at one bus.

`complex128` is modelled by exact complex numbers over `real`
(`ComplexArith`). Matrices are `array2<Complex>`. The Go `ComplexMatrix`
type becomes the `Matrices.ComplexMatrix` class, with 1-based `RcAt` and
`RcSet`. Every imperative method is proved against a specification function
on matrix values (`Mat = seq<seq<Complex>>`):

| method | specification function |
|---|---|
| Y-bus assembly | `Admittance.YBus` |
| LDU | `Factorization.LMat`, `DMat`, `UMat` |
| Z-bus solve | `Substitution.ZMat` and `ZBus` |
| post-fault voltages | `Faults.ShortUs` |
| source currents (lab2) | `Sources.SourceCurrents` |
| short-circuit entries (lab1) | `Faults.Selected` and `Faults.Reduced` |

The algebra is then proved about those functions:

- the pre-pass and diagonal rules, and symmetry;
- the structure of L, D and U, `U = L^T`, and `L*D*U = Y`;
- the three triangular identities, and then `Y * Z = I`;
- the fault formulas.

Two behaviours of the code are worth stating up front:

- **The diagonal rule.** computeYii sums the whole row, including the
  diagonal as the pre-pass left it (lab2/lab2.go:190-197). So
  `Y[i][i] = -(pre-pass Y[i][i]) - sum_{j != i} Y[i][j]`, and each row sums
  to minus the pre-pass diagonal, not to zero. `YBusDiagonalRule` states
  this form.
- **Parallel branches.** lab1 and lab2 overwrite the mutual admittance of
  parallel branches, so the last one wins (`PrePassOverwriteLastWins`);
  lab3 and lab4 accumulate it (`PrePassAccumulates`).

Modules:

| file | module | contents |
|---|---|---|
| complex.dfy | `ComplexArith` | complex numbers |
| matrices.dfy | `Matrices` | matrix values and `ComplexMatrix` |
| branches.dfy | `Branches` | `Branch` and the ground test |
| normalize.dfy | `PerUnit` | the per-unit conversions |
| ybus.dfy | `Admittance` | the Y-bus as a value |
| ldu.dfy | `Factorization` | the LDU recurrences |
| zbus.dfy | `Substitution` | the Z-bus as a value |
| fault.dfy | `Faults` | fault formulas, table keys, short-circuit selection |
| sources.dfy | `Sources` | source currents |
| factor_loops.dfy | `LduLoops` | LDU's loops |
| solve_loops.dfy | `SolveLoops` | computeZj's loops |
| parser.dfy | `PowerParser` | the `Parser` class and the lab4 sequence-network driver |

## Model

| member | source | states |
|---|---|---|
| ComplexArith.Div | lab2/lab2.go:185 | Complex division by a nonzero divisor: the quotient times the divisor gives back the dividend |
| ComplexArith.DivUnique | lab2/lab2.go:185 | the quotient is the only value that gives back the dividend when multiplied by the divisor |
| Matrices.ComplexMatrix.constructor | lab2/lab2.go:359-366 | NewComplexMatrix allocates a fresh rows x columns matrix of zeros |
| Matrices.ComplexMatrix.RcSet | lab2/lab2.go:369-376 | after rcSet(row, column, v), rcAt(row, column) is v and every other entry is unchanged |
| Matrices.ComplexMatrix.RcAt | lab2/lab2.go:374-376 | definition: rcAt(row, column) reads the array at [row-1][column-1] |
| Branches.IsGroundBranch | lab2/lab2.go:175-182 | the flag is true exactly when a terminal is 0; the node returned is the other terminal, with Node1 tested first, and it is 0 for a non-ground branch |
| Branches.MaxNode | lab2/lab2.go:225-233 | definition: the running maximum, from 0, of Node1 and Node2 over the branches in order; MaxNodeIsMaximum states its properties |
| Branches.MaxNodeIsMaximum | lab2/lab2.go:225-233 | the running maximum bounds every Node1 and Node2; it is attained by some terminal, or it is 0 |
| PerUnit.CircuitBranch | lab1.go:81-97 | R*Vav^2 = R'*L*SB, X*Vav^2 = X'*L*SB, Admittance*SB = 0.5*B*L*Vav^2; terminals copied, no EMF |
| PerUnit.GeneratorBranch | lab1.go:99-106 | a ground branch at the generator's bus, with X*Sn = Xd*SB and no resistance, shunt or EMF |
| PerUnit.TransformerBranch | lab3/lab3.go:127-134 | X*Sn*100 = Vs*SB, with zero R and shunt, terminals copied |
| PerUnit.NetworkBranches | lab1.go:66-79 | one branch per record, circuits then generators then transformers, each converted by its own rule |
| PerUnit.BaseCircuitBranch | lab2/lab2.go:107-118 | the circuit formulas on the record's own VB |
| PerUnit.BaseGeneratorBranch | lab2/lab2.go:120-132 | E = 1; X*Sn = Xd*SB, or X*(Pn/Cos) = Xd*SB when Sn = 0 |
| PerUnit.LoadBranch | lab2/lab2.go:134-142 | a ground branch with E = 0.8 and X*Ld = Xid*SB |
| PerUnit.BaseTransformerBranch | lab2/lab2.go:144-151 | X*Sn*VB^2*100 = Vs*V1n^2*SB, with zero R and shunt |
| PerUnit.BaseNetworkBranches | lab2/lab2.go:88-105 | one branch per record, in the order circuits, generators, transformers, loads |
| PerUnit.BaseCircuitAtAverageVoltage | lab2/lab2.go:107-118 | lab2's circuit rule is lab1/lab3's rule with Vav replaced by the record's VB |
| PerUnit.BaseGeneratorWithRating | lab2/lab2.go:120-132 | with Sn nonzero, lab2's generator is lab1/lab3's generator carrying E = 1 |
| PerUnit.BaseTransformerAtRatedVoltage | lab2/lab2.go:144-151 | when V1n = VB, lab2's transformer formula reduces to lab1/lab3's (Vs/100)*(SB/Sn) |
| Admittance.BranchY | lab2/lab2.go:185 | the mutual admittance Yij times R + jX is -1 |
| Admittance.PrePass | lab2/lab2.go:154-169 | definition: the assembly loop as a value, ApplyBranch for each branch in list order; keeps the size and squareness of the start matrix |
| Admittance.YBus | lab2/lab2.go:153-173 | definition: computeResult's Y, the diagonal pass after the assembly pass; square, of the start size |
| Admittance.ApplyBranch | lab2/lab2.go:154-168 | one pass of the assembly loop on a matrix value: shunt and ground terms on the diagonal, Yij stored at both joined entries, the rest unchanged |
| Admittance.PrePassDiagonal | lab2/lab2.go:155-164 | in either mode, a pre-pass diagonal entry is its start value plus every branch's shunt and ground terms |
| Admittance.PrePassAccumulates | lab3/lab3.go:167-171 | in Accumulate mode, an off-diagonal entry gains the sum of -1/(R + jX) over all non-ground branches joining the two buses |
| Admittance.PrePassOverwriteLastWins | lab1.go:149-153 | in Overwrite mode, an off-diagonal entry holds the admittance of the last branch joining the two buses |
| Admittance.PrePassUnjoined | lab3/lab3.go:143-151 | an entry for a pair no branch joins keeps its start value, in either mode |
| Admittance.PrePassSymmetric | lab2/lab2.go:184-188 | assembly keeps a symmetric matrix symmetric |
| Admittance.ZeroImpedanceGroundIsInert | lab2/lab2.go:160-164 | a ground branch with R = X = 0 (and hence no shunt) leaves the matrix exactly as it was |
| Admittance.DiagonalPass | lab2/lab2.go:190-197 | the diagonal pass sets each diagonal entry to minus its whole row sum and changes no off-diagonal entry |
| Admittance.YBusSymmetric | lab4/lab4.go:68-88 | Y is symmetric whenever its start matrix is, including the all-zero one |
| Admittance.YBusDiagonalRule | lab1.go:155-162 | Y[i][i] = -(pre-pass Y[i][i]) - sum of the other entries of row i, so row i of Y sums to minus the pre-pass diagonal |
| Admittance.YBusAccumulatedOffDiagonal | lab3/lab3.go:136-156 | from the zero matrix, an accumulated Y[r][c] (r != c) is the sum of -1/(R + jX) over the non-ground branches joining r and c, and zero when none does |
| Admittance.YBusDiagonalFromBranches | lab4/lab4.go:69-87 | from the zero matrix, row i of Y sums to minus the shunt and ground terms the branches put at bus i |
| Admittance.SameRowSum | lab2/lab2.go:190-197 | computeYii only reads its own row: rows that agree give the same diagonal |
| Factorization.LMat | lab2/lab2.go:241-289 | L is unit lower-triangular, and its entries are the Crout recurrences |
| Factorization.DMat | lab2/lab2.go:241-289 | D is diagonal, and its diagonal holds the pivots |
| Factorization.UMat | lab2/lab2.go:241-289 | U is unit upper-triangular, and its entries are the recurrences |
| Factorization.PivotD | lab2/lab2.go:252-258 | definition: D[i][i] = Y[i][i] - sum over k < i of U[k][i]*U[k][i]*D[k][k] |
| Factorization.UpperU | lab2/lab2.go:260-271 | definition: U[i][j] = (Y[i][j] - sum over k < i of U[k][i]*U[k][j]*D[k][k]) / D[i][i] for i < j |
| Factorization.LowerL | lab2/lab2.go:277-286 | definition: L[i][j] = (Y[i][j] - sum over k < j of L[i][k]*L[j][k]*D[k][k]) / D[j][j] for j < i |
| Factorization.FirstColumn | lab3/lab3.go:272-276 | D[1][1] = Y[1][1] and L[i][1] = Y[i][1] / Y[1][1] |
| Factorization.UIsLTransposed | lab3/lab3.go:267-315 | for a symmetric Y, U[i][j] = L[j][i] |
| Factorization.LduProduct | lab2/lab2.go:241-289 | for a symmetric Y whose pivots below the last are nonzero, L*D*U = Y entry by entry |
| Substitution.ForwardIdentity | lab2/lab2.go:303-315 | the forward step solves L*f = e_j |
| Substitution.Fwd | lab2/lab2.go:303-315 | definition: computeZj's f for column j: 0 above j, 1 at j, and the forward sum below it |
| Substitution.Scaled | lab2/lab2.go:316-322 | definition: computeZj's h: f[i]/D[i][i] from row j on, 0 above it |
| Substitution.Back | lab2/lab2.go:323-329 | definition: computeZj's Z[i][j] = h[i] - sum over k > i of U[i][k]*Z[k][j] |
| Substitution.ZMat | lab2/lab2.go:291-297 | computeZ's result: a square matrix of the size of U whose entry (i, j) is Back for column j, row i |
| Substitution.ZBus | lab4/lab4.go:244-247 | computeResult's resultZ = computeZ(LDU()) of Y with Go's quotient: square, of the size of Y |
| Substitution.ScaleIdentity | lab2/lab2.go:316-322 | D[i][i]*h[i] = f[i] for i >= j |
| Substitution.BackIdentity | lab2/lab2.go:323-329 | the back substitution solves U*z = h |
| Substitution.SolveEntry | lab3/lab3.go:234-265 | column j of Z solves Y*z = e_j whenever L, D, U are factors of Y with nonzero pivots |
| Substitution.ZBusIsInverse | lab3/lab3.go:327 | for a symmetric Y with nonzero pivots, Y * computeZ(LDU()) is the identity |
| Faults.ShortIf | lab4/lab4.go:249-252 | If times Z[f][f] is 1, with the fault impedance fixed at 0 |
| Faults.ShortU | lab4/lab4.go:254-262 | the voltage bus i has lost, times Z[f][f], is Z[i][f] |
| Faults.ShortUAtFault | lab4/lab4.go:254-262 | the faulted bus is at zero voltage |
| Faults.ShortUIsDrop | lab4/lab4.go:254-262 | each post-fault voltage is 1 - Z[i][f]*If |
| Faults.ShortUs | lab4/lab4.go:254-262 | the voltage vector has length n, and its entries satisfy the ShortU relation |
| Faults.ShortUsAreDrops | lab4/lab4.go:254-262 | every entry of the voltage vector is 1 - Z[i][f]*If |
| Faults.ShortUsAtFault | lab4/lab4.go:254-262 | the faulted bus's entry of the vector is zero |
| Faults.SequenceCurrent | lab4/lab4.go:304-305 | Ifa(1) times Zff(1) + Zff(2) + Zff(0) is 1 |
| Faults.FaultCurrent | lab4/lab4.go:306-307 | If = 3*Ifa(1), the sum of three equal sequence currents |
| Faults.SequenceCurrentIsSeriesShortIf | lab4/lab4.go:304-305 | Ifa(1) is a three-phase fault current through the series sum of the three sequence impedances |
| Faults.PairKey | lab4/lab4.go:271-272 | the key is the pair (min, max) |
| Faults.PairKeyInjective | lab4/lab4.go:271-272 | two bus pairs share a key exactly when they are the same unordered pair |
| Faults.Decimal | lab4/lab4.go:273 | %d writes a nonempty string of digits, with no leading zero |
| Faults.IijKey | lab4/lab4.go:273 | the written key is "I" followed by two decimal numbers |
| Faults.IijKeySingleDigit | lab4/lab4.go:273 | with single-digit buses, the written keys are equal exactly when the pairs are |
| Faults.IijKeyCollision | lab4/lab4.go:273 | the written keys of (1, 112) and (11, 12) are both "I1112" |
| Faults.DecimalInjective | lab4/lab4.go:273 | two numbers with the same %d text are equal |
| Faults.IijKeySameSmall | lab4/lab4.go:273 | two written keys with the same smaller bus are equal only for the same larger bus |
| Faults.PassKey | lab4/lab4.go:271-273 | definition: the written key of the pass (i, j), smaller bus first |
| Faults.PassCurrent | lab4/lab4.go:277-282 | definition: the current of the pass (i, j), the drop from the smaller bus to the larger times Y[i][j] |
| Faults.Passes | lab4/lab4.go:267-270 | definition: the inner loop's passes j = 1..n, j != i, in order |
| Faults.AllPasses | lab4/lab4.go:266-284 | definition: the passes of outer iterations 1..m, in loop order |
| Faults.FirstRowFirst | lab4/lab4.go:266-270 | the passes (1, 2), ..., (1, n) of the first outer iteration come first |
| Faults.WrittenIij | lab4/lab4.go:264-286 | definition: computeIij as written: a table keyed by the written string, where a pass whose key is present is skipped |
| Faults.WrittenIijAbsent | lab4/lab4.go:274-276 | a key no pass produced is not in the table |
| Faults.WrittenIijFirstWins | lab4/lab4.go:274-282 | the first pass with a given key decides that key's entry |
| Faults.WrittenIijLosesPair | lab4/lab4.go:264-286 | with 112 or more buses, the entry under the key of (11, 12), "I1112", holds the current between buses 1 and 112 |
| Faults.SelectedRowEntries | lab1.go:205-218 | one row of the shown entries has length n or n-1, and its c-th entry is the c-th column that was not struck out |
| Faults.SelectedRow | lab1.go:205-218 | definition: the entries the inner loop shows for row i, columns 1..m with column node skipped |
| Faults.Selected | lab1.go:203-223 | definition: the entries the outer loop shows for rows 1..m, row node skipped |
| Faults.Reduced | lab1.go:203-223 | M with row and column node struck out, as a square matrix |
| Faults.FlattenLength | lab1.go:203-223 | the rows of an n-by-w matrix, one after another, make n*w entries |
| Faults.FlattenPrefixStep | lab1.go:203-223 | flattening one more row of a prefix appends exactly that row |
| Faults.ReducedRowIsSelected | lab1.go:203-223 | row r of the reduced matrix is the row PrintShortCircuit shows for the r-th kept bus |
| Faults.SelectedIsFlattenPrefix | lab1.go:203-223 | for any rows equal to the shown rows of the kept buses, the entries shown from the first m rows are the first of those rows, flattened |
| Faults.SelectedIsReduced | lab1.go:203-223 | PrintShortCircuit shows exactly the reduced matrix in row-major order: (n-1)^2 entries when node is a bus, n^2 otherwise |
| Sources.SourceCurrent | lab2/lab2.go:349 | E / (R + jX): the current times the impedance is E |
| Sources.SourceCurrents | lab2/lab2.go:344-353 | the vector has length nodeNum |
| Sources.SourceCurrentsLastWins | lab2/lab2.go:346-351 | at a bus, the last source writes E/(R + jX) |
| Sources.SourceCurrentsNoSource | lab2/lab2.go:344-353 | a bus no source feeds carries zero current |
| LduLoops.InitFactors | lab2/lab2.go:242-250 | the first loop leaves L[i][1] = Y[i][1]/Y[1][1] and unit diagonals on L and U, in three fresh, distinct all-zero matrices |
| LduLoops.InitRow | lab2/lab2.go:246-250 | one pass of the first loop: L[i][1] = Y[i][1]/Y[1][1], L[i][i] = U[i][i] = 1, rows below i untouched |
| LduLoops.UpperSum | lab2/lab2.go:253-256 | the inner sum for D[i][i] and U[i][j] over k < i |
| LduLoops.LowerSum | lab2/lab2.go:279-282 | the inner sum for L[i][j] over k < j |
| LduLoops.PivotStep | lab2/lab2.go:252-258 | D[i][i] = Y[i][i] - sum: row i of D is final and the rows below are still zero |
| LduLoops.UpperRow | lab2/lab2.go:260-271 | U[i][j] = (Y[i][j] - sum)/D[i][i] for j > i, none for the last row: row i of U is final |
| LduLoops.UpperEntry | lab2/lab2.go:262-270 | one entry U[i][j] = (Y[i][j] - sum)/D[i][i]; every other entry of U unchanged |
| LduLoops.LowerRow | lab2/lab2.go:273-286 | L[i][j] = (Y[i][j] - sum)/D[j][j] for j < i: row i of L is final |
| LduLoops.LowerEntry | lab2/lab2.go:279-285 | one entry L[i][j] = (Y[i][j] - sum)/D[j][j]; every other entry of L unchanged |
| SolveLoops.ForwardSum | lab4/lab4.go:171-174 | the inner sum of forward elimination equals the f value of the specification |
| SolveLoops.ForwardColumn | lab4/lab4.go:165-177 | f[i] = 0 above j, 1 at j, the forward sum below |
| SolveLoops.ScaleColumn | lab4/lab4.go:178-184 | h[i] = f[i]/D[i][i] from row j on, 0 above |
| SolveLoops.BackSum | lab4/lab4.go:186-189 | the inner sum of back substitution from k = i+1 on |
| SolveLoops.BackColumn | lab4/lab4.go:185-191 | column j of Z gets the back-substitution values from the bottom up, and no other column changes |
| PowerParser.Parser.FromNetwork | lab1.go:180-201 | NewParser of lab1/lab3: one branch per record in order, nodeNum the maximum terminal, resultY all zero |
| PowerParser.Parser.FromBaseNetwork | lab2/lab2.go:219-239 | NewParser of lab2: circuits, generators, transformers, loads; nodeNum the maximum terminal; resultY all zero |
| PowerParser.Parser.FromBranches | lab4/lab4.go:134-151 | NewParser of lab4 keeps the branch list unchanged, sets nodeNum to its maximum terminal and allocates a zero Y |
| PowerParser.Parser.SizeBuses | lab2/lab2.go:225-237 | the running maximum loop and the allocation of a zero nodeNum x nodeNum resultY |
| PowerParser.Parser.CircuitArgsToBranch | lab1.go:81-97 | appends exactly the circuit's branch on Vav |
| PowerParser.Parser.PowerGeneratorArgsToBranch | lab3/lab3.go:118-125 | appends exactly the generator's ground branch |
| PowerParser.Parser.TransformerArgsToBranch | lab1.go:108-115 | appends exactly the transformer's branch |
| PowerParser.Parser.ParsePowerNetwork | lab3/lab3.go:90-103 | appends the circuits', then the generators', then the transformers' branches |
| PowerParser.Parser.ParseCircuits | lab1.go:70-72 | the circuit loop appends one branch per circuit, in order |
| PowerParser.Parser.ParseGenerators | lab1.go:73-75 | the generator loop appends one branch per generator, in order |
| PowerParser.Parser.ParseTransformers | lab1.go:76-78 | the transformer loop appends one branch per transformer, in order |
| PowerParser.Parser.BaseCircuitArgsToBranch | lab2/lab2.go:107-118 | appends exactly the circuit's branch on its VB |
| PowerParser.Parser.BaseGeneratorArgsToBranch | lab2/lab2.go:120-132 | appends exactly the generator's source branch |
| PowerParser.Parser.BaseTransformerArgsToBranch | lab2/lab2.go:144-151 | appends exactly the transformer's branch |
| PowerParser.Parser.LdArgsToBranch | lab2/lab2.go:134-142 | appends exactly the load's branch |
| PowerParser.Parser.ParseBaseNetwork | lab2/lab2.go:88-105 | appends circuits, generators, transformers, loads in that order |
| PowerParser.Parser.ParseBaseCircuits | lab2/lab2.go:93-95 | one branch per circuit, in order |
| PowerParser.Parser.ParseBaseGenerators | lab2/lab2.go:96-98 | one branch per generator, in order |
| PowerParser.Parser.ParseBaseTransformers | lab2/lab2.go:99-101 | one branch per transformer, in order |
| PowerParser.Parser.ParseLds | lab2/lab2.go:102-104 | one branch per load, in order |
| PowerParser.Parser.ComputeYij | lab4/lab4.go:99-103 | only the two entries joined by the branch change: Overwrite stores Yij there, Accumulate adds it |
| PowerParser.Parser.AddShunts | lab2/lab2.go:156-159 | -j*Admittance is added at both terminal diagonals, nothing else changes |
| PowerParser.Parser.AddBranchAdmittance | lab2/lab2.go:160-168 | a ground branch with nonzero impedance adds -1/(R+jX) at its bus, a ground branch with R = X = 0 does nothing, a non-ground branch goes through computeYij; nothing else changes |
| PowerParser.Parser.AssembleBranch | lab2/lab2.go:155-168 | one pass of the assembly loop turns resultY into ApplyBranch of its old value |
| PowerParser.Parser.ComputeYii | lab2/lab2.go:190-197 | Y[node][node] becomes minus the old row sum and nothing else changes |
| PowerParser.Parser.ComputeResultY | lab4/lab4.go:68-88 | resultY ends as YBus of its start value, in the parser's mode |
| PowerParser.Parser.DiagonalLoop | lab4/lab4.go:85-87 | the loop over computeYii is the diagonal pass |
| PowerParser.Parser.LDU | lab4/lab4.go:194-242 | three fresh matrices holding exactly LMat, DMat and UMat of resultY; nothing of the parser changes |
| PowerParser.Parser.ComputeZj | lab2/lab2.go:299-330 | column j of Z becomes the solution of L*D*U*z = e_j, and no other column changes |
| PowerParser.Parser.ComputeZ | lab2/lab2.go:291-297 | a fresh n x n Z whose columns are all solved: Z = ZMat of the factors |
| PowerParser.Parser.ComputeResult | lab4/lab4.go:244-247 | resultY becomes YBus and resultZ, a fresh matrix, becomes ZBus(resultY); branches and resultY stay put, and for a symmetric start Y * resultZ = I |
| PowerParser.Parser.ComputeShortIf | lab4/lab4.go:249-252 | the fault current at bus f times Z[f][f] is 1 |
| PowerParser.Parser.ComputeAllNodeShortU | lab4/lab4.go:254-262 | the returned vector is ShortUs of column f of Z, of length nodeNum, and the faulted bus's entry is zero |
| PowerParser.Parser.ComputeIij | lab4/lab4.go:264-286 | the keys are exactly the pairs a < b of buses (none for a = b, each pair once), each holding (U[a] - U[b])*Y[a][b] |
| PowerParser.Parser.ComputeI | lab2/lab2.go:344-353 | the returned vector is SourceCurrents of the branch list |
| PowerParser.Parser.PrintShortCircuit | lab1.go:203-223 | the entries shown are exactly the reduced matrix in row-major order, and there are (n-1)^2 of them for a bus |
| PowerParser.Parser.ShownRow | lab1.go:205-218 | one pass of the outer loop shows row i with column node struck out, or nothing for row node |
| PowerParser.SequenceFault | lab4/lab4.go:293-307 | three independent parsers; Ifa1 times Zff1 + Zff2 + Zff0 is 1, and If1 = 3*Ifa1 |
| PowerParser.SequenceZff | lab4/lab4.go:293-301 | a fresh parser on one sequence grid, solved, yields the diagonal entry Z[f][f] of that grid's bus impedance matrix |

## Left out

- File and console I/O are not modelled: JSON decoding, the file opening,
  `log.Fatal`, the prompts and the `main` drivers. Each constructor takes
  the decoded network or branch list as a parameter.
- Printing is not modelled: printResultMatrix, printNormalResultMatrix and
  the debug prints at lab1.go:121, lab1.go:196, lab2/lab2.go:234 and
  lab3/lab3.go:218. PrintShortCircuit is modelled as the sequence of
  entries it shows, not as text.
- printZfi (lab2/lab2.go:332-342) only prints. It is not part of this
  model.
- The voltage superposition at lab4/lab4.go:311-317 is left out. It
  hard-codes buses 4 and 5 and uses `VG2`, which is not declared. Only the
  Ifa1 and If1 arithmetic of that `main` is modelled (SequenceFault).
- Floating point is modelled by exact reals: no rounding, Inf or NaN. Each
  Go division becomes a precondition that its divisor is nonzero:
  - nonzero branch impedances (`WellFormed`, `SourcesWellFormed`);
  - `Y[1][1]` and the pivots (`LduDefined`, `NonzeroPivots`);
  - `Z[f][f]`;
  - `Sn` of lab1/lab3 generators and of every transformer, `Ld` of every
    load, `VB` of lab2 circuits and transformers, and `Vav` and `SB` when
    the network has a circuit, the only records they divide
    (`RatingsNonzero`, `BaseRatingsNonzero`);
  - `Pn` and `Cos` of a lab2 generator whose `Sn` is 0 (`GeneratorRated`).
    In Go, `Cos` = 0 makes the rating Pn/Cos infinite and the reactance 0
    rather than failing; the model leaves that case out.
- Go index panics are not modelled. The preconditions rule them out
  instead: terminals in range, and a nonzero shunt only between real buses.
- A non-ground branch whose two terminals are equal is excluded by
  `WellFormedBranch`.
- PowerParser.Parser.ComputeResult requires nonzero pivots for the Y it
  assembles. In Go, a zero pivot produces Inf/NaN entries in Z.
- PowerParser.Parser.ComputeIij: the string key "I%d%d" is modelled as the
  pair (min, max), as Faults.PairKey. The written key (Faults.IijKey) and the
  table as written (Faults.WrittenIij) are modelled separately, and the
  collision is recorded under Findings.
- The Parser field for the input network is not stored; only what is
  derived from it is. The unused per-unit bases `VB` and `V2n` of the
  lab1/lab3 records are not modelled, and neither is the commented-out code
  at lab1.go:92-96.
- The field `Vav` is 0 for lab2, where it is absent, and for lab4. The field
  `sb` is 0 for lab4.
- The three record loops of parsePowerNetwork are separate methods, one per
  record kind (ParseCircuits, ParseGenerators and so on). The diagonal loop
  of computeResult is the method DiagonalLoop, and the inner loop of
  PrintShortCircuit is the method ShownRow. The loops of LDU are the methods
  InitFactors/InitRow (the first loop), PivotStep with UpperSum (D[i][i]),
  UpperRow/UpperEntry with UpperSum (row i of U) and LowerRow/LowerEntry
  with LowerSum (row i of L). The three loops of computeZj are
  ForwardColumn with ForwardSum, ScaleColumn, and BackColumn with BackSum.
  Their order and effects are those of the Go loops.
- Faults.PairKeyInjective holds for every pair. Faults.IijKeySingleDigit
  says that the keys as written are distinct only for single-digit buses.

## Findings

| source | as written | input that shows it | evidently intended | confidence | as-written member | corrected member |
|---|---|---|---|---|---|---|
| lab4/lab4.go:273 | the current between buses a < b is filed under `fmt.Sprintf("I%d%d", a, b)`, and a key already present is never overwritten | with 112 or more buses, the pairs (1, 112) and (11, 12) both give "I1112". The pair (1, 112) comes first in the loop, so the entry under "I1112" holds its current and the current between buses 11 and 12 has no entry | one entry per unordered bus pair | not executed | Faults.WrittenIijLosesPair | PowerParser.Parser.ComputeIij |

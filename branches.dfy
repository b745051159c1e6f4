/** The uniform branch record every network element is normalised into,
    the ground-branch test, and the bus count derived from a branch list. */
module Branches {
  import opened ComplexArith

  /** A two-terminal element in per-unit terms. Bus 0 is the ground
      (reference) bus; `admittance` is the shunt susceptance applied at each
      terminal; `e` is the source EMF, nonzero only for sources. */
  datatype Branch = Branch(node1: int, node2: int, resistance: real, reactance: real, admittance: real, e: real)

  /** The series impedance R + jX. */
  function Impedance(b: Branch): Complex
  {
    Complex(b.resistance, b.reactance)
  }

  /** isGroundBranch: (the non-ground terminal, true) when one terminal is
      0, and (0, false) otherwise. Node1 is tested first. */
  function IsGroundBranch(b: Branch): (r: (int, bool))
    ensures r.1 <==> b.node1 == 0 || b.node2 == 0
    ensures r.1 && b.node1 == 0 ==> r.0 == b.node2
    ensures r.1 && b.node1 != 0 ==> r.0 == b.node1 && b.node2 == 0
    ensures !r.1 ==> r.0 == 0
  {
    if b.node1 == 0 then (b.node2, true)
    else if b.node2 == 0 then (b.node1, true)
    else (0, false)
  }

  predicate IsGround(b: Branch)
  {
    IsGroundBranch(b).1
  }

  function GroundNode(b: Branch): int
  {
    IsGroundBranch(b).0
  }

  /** What assembling a branch into an n-bus matrix needs in order not to
      index outside the matrix or divide by a zero impedance. */
  predicate WellFormedBranch(b: Branch, n: int)
  {
    && (b.admittance != 0.0 ==> 1 <= b.node1 <= n && 1 <= b.node2 <= n)
    && (IsGround(b) && Impedance(b) != Zero ==> 1 <= GroundNode(b) <= n)
    && (!IsGround(b) ==> 1 <= b.node1 <= n && 1 <= b.node2 <= n && b.node1 != b.node2 && Impedance(b) != Zero)
  }

  predicate WellFormed(bs: seq<Branch>, n: int)
  {
    forall k :: 0 <= k < |bs| ==> WellFormedBranch(bs[k], n)
  }

  /** The running maximum NewParser keeps: start at 0, raise it to Node1 and
      then to Node2 of each branch in turn. */
  function MaxNode(bs: seq<Branch>): nat
    decreases |bs|
  {
    if bs == [] then 0
    else
      var n := MaxNode(bs[..|bs| - 1]);
      var b := bs[|bs| - 1];
      var n1 := if b.node1 > n then b.node1 else n;
      if b.node2 > n1 then b.node2 else n1
  }

  /** MaxNode is the largest terminal index, or 0 when no terminal is positive. */
  lemma {:induction false} MaxNodeIsMaximum(bs: seq<Branch>)
    ensures forall k :: 0 <= k < |bs| ==> bs[k].node1 <= MaxNode(bs) && bs[k].node2 <= MaxNode(bs)
    ensures MaxNode(bs) == 0 || exists k :: 0 <= k < |bs| && (bs[k].node1 == MaxNode(bs) || bs[k].node2 == MaxNode(bs))
    decreases |bs|
  {
    if bs != [] {
      var init := bs[..|bs| - 1];
      MaxNodeIsMaximum(init);
      assert forall k :: 0 <= k < |init| ==> bs[k] == init[k];
      var n := MaxNode(bs);
      if n != MaxNode(init) {
        assert bs[|bs| - 1].node1 == n || bs[|bs| - 1].node2 == n;
      } else if n != 0 {
        var k :| 0 <= k < |init| && (init[k].node1 == n || init[k].node2 == n);
        assert bs[k] == init[k];
      }
    }
  }
}

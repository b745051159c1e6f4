/** The injected source currents of lab2's computeI: every branch with a
    nonzero EMF E drives E / (R + jX) into its Node1, and a later source at
    the same bus replaces an earlier one. */
module Sources {
  import opened ComplexArith
  import opened Branches

  predicate IsSource(b: Branch)
  {
    b.e != 0.0
  }

  /** What computeI needs: each source has a bus in 1..n and a nonzero impedance. */
  predicate SourcesWellFormed(bs: seq<Branch>, n: int)
  {
    forall k :: 0 <= k < |bs| && IsSource(bs[k]) ==> 1 <= bs[k].node1 <= n && Impedance(bs[k]) != Zero
  }

  /** The current source E / (R + jX) of one branch. */
  function SourceCurrent(b: Branch): (i: Complex)
    requires Impedance(b) != Zero
    ensures Mul(i, Impedance(b)) == Complex(b.e, 0.0)
  {
    Div(Complex(b.e, 0.0), Impedance(b))
  }

  /** The vector computeI returns after the first |bs| branches. */
  function SourceCurrents(bs: seq<Branch>, n: nat): (I: seq<Complex>)
    requires SourcesWellFormed(bs, n)
    ensures |I| == n
    decreases |bs|
  {
    if bs == [] then seq(n, _ => Zero)
    else
      var b := bs[|bs| - 1];
      assert SourcesWellFormed(bs[..|bs| - 1], n);
      var I := SourceCurrents(bs[..|bs| - 1], n);
      if IsSource(b) then I[b.node1 - 1 := SourceCurrent(b)] else I
  }

  /** The last source at a bus decides its current. */
  lemma {:induction false} SourceCurrentsLastWins(bs: seq<Branch>, n: nat, k: int)
    requires SourcesWellFormed(bs, n)
    requires 0 <= k < |bs| && IsSource(bs[k])
    requires forall k' :: k < k' < |bs| && IsSource(bs[k']) ==> bs[k'].node1 != bs[k].node1
    ensures SourceCurrents(bs, n)[bs[k].node1 - 1] == SourceCurrent(bs[k])
    ensures Mul(SourceCurrents(bs, n)[bs[k].node1 - 1], Impedance(bs[k])) == Complex(bs[k].e, 0.0)
    decreases |bs|
  {
    var init := bs[..|bs| - 1];
    assert SourcesWellFormed(init, n);
    if k < |bs| - 1 {
      assert init[k] == bs[k];
      forall k' | k < k' < |init| && IsSource(init[k'])
        ensures init[k'].node1 != init[k].node1
      {
        assert init[k'] == bs[k'];
      }
      SourceCurrentsLastWins(init, n, k);
    }
  }

  /** A bus no source feeds carries no injected current. */
  lemma {:induction false} SourceCurrentsNoSource(bs: seq<Branch>, n: nat, bus: int)
    requires SourcesWellFormed(bs, n) && 1 <= bus <= n
    requires forall k :: 0 <= k < |bs| && IsSource(bs[k]) ==> bs[k].node1 != bus
    ensures SourceCurrents(bs, n)[bus - 1] == Zero
    decreases |bs|
  {
    if bs != [] {
      var init := bs[..|bs| - 1];
      assert SourcesWellFormed(init, n);
      forall k | 0 <= k < |init| && IsSource(init[k])
        ensures init[k].node1 != bus
      {
        assert init[k] == bs[k];
      }
      SourceCurrentsNoSource(init, n, bus);
    }
  }
}

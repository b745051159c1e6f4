/** The per-unit conversion of network records into branches (the
    *ArgsToBranch methods). Two conventions exist: lab1 and lab3 refer every
    record to one network-wide average voltage Vav, lab2 gives each record
    its own base voltage VB and also knows loads and source EMFs. */
module PerUnit {
  import opened ComplexArith
  import opened Branches

  // ---------------------------------------------------------------------
  // Records under the average-voltage convention (lab1, lab3)

  /** A line of length l with per-length resistance r, reactance x and susceptance b. */
  datatype Circuit = Circuit(node1: int, node2: int, r: real, x: real, b: real, l: real)

  /** A generator of rating sn and reactance xd (per unit on its own rating). */
  datatype Generator = Generator(node: int, sn: real, xd: real)

  /** A transformer of rating sn and short-circuit voltage vs (in percent). */
  datatype Transformer = Transformer(node1: int, node2: int, sn: real, vs: real)

  datatype Network = Network(sb: real, vav: real, generators: seq<Generator>, circuits: seq<Circuit>, transformers: seq<Transformer>)

  /** (x / y) * y == x: the step from a per-unit value back to its numerator. */
  lemma DivCancel(x: real, y: real)
    requires y != 0.0
    ensures (x / y) * y == x
  {
  }

  /** circuitArgsToBranch with base Vav: impedance over Vav^2 / SB, half the
      line charging times Vav^2 / SB at each end. */
  function CircuitBranch(c: Circuit, sb: real, vav: real): (b: Branch)
    requires sb != 0.0 && vav != 0.0
    ensures b.node1 == c.node1 && b.node2 == c.node2 && b.e == 0.0
    ensures b.resistance * Square(vav) == c.r * c.l * sb
    ensures b.reactance * Square(vav) == c.x * c.l * sb
    ensures b.admittance * sb == 0.5 * c.b * c.l * Square(vav)
  {
    SquarePositive(vav);
    DivCancel(c.r * c.l * sb, Square(vav));
    DivCancel(c.x * c.l * sb, Square(vav));
    DivCancel(0.5 * c.b * c.l * Square(vav), sb);
    Branch(c.node1, c.node2, c.r * c.l * sb / Square(vav), c.x * c.l * sb / Square(vav),
      0.5 * c.b * c.l * Square(vav) / sb, 0.0)
  }

  /** powerGeneratorArgsToBranch: a ground branch at the generator bus with
      reactance xd rescaled from the generator rating to SB. */
  function GeneratorBranch(g: Generator, sb: real): (b: Branch)
    requires g.sn != 0.0
    ensures b.node1 == g.node && b.node2 == 0 && IsGround(b)
    ensures b.resistance == 0.0 && b.admittance == 0.0 && b.e == 0.0
    ensures b.reactance * g.sn == g.xd * sb
  {
    DivCancel(g.xd * sb, g.sn);
    Branch(g.node, 0, 0.0, g.xd * sb / g.sn, 0.0, 0.0)
  }

  /** transformerArgsToBranch with base Vav: reactance (Vs / 100) * (SB / Sn). */
  function TransformerBranch(t: Transformer, sb: real): (b: Branch)
    requires t.sn != 0.0
    ensures b.node1 == t.node1 && b.node2 == t.node2
    ensures b.resistance == 0.0 && b.admittance == 0.0 && b.e == 0.0
    ensures b.reactance * t.sn * 100.0 == t.vs * sb
  {
    DivCancel(sb, t.sn);
    assert (t.vs / 100.0) * (sb / t.sn) * t.sn * 100.0 == (t.vs / 100.0) * 100.0 * ((sb / t.sn) * t.sn);
    Branch(t.node1, t.node2, 0.0, (t.vs / 100.0) * (sb / t.sn), 0.0, 0.0)
  }

  /** What the conversion divides by: SB, Vav and every rating. */
  predicate RatingsNonzero(net: Network)
  {
    && (|net.circuits| > 0 ==> net.sb != 0.0 && net.vav != 0.0)
    && (forall k :: 0 <= k < |net.generators| ==> net.generators[k].sn != 0.0)
    && (forall k :: 0 <= k < |net.transformers| ==> net.transformers[k].sn != 0.0)
  }

  /** One branch per circuit, in order. */
  function CircuitBranches(cs: seq<Circuit>, sb: real, vav: real): (bs: seq<Branch>)
    requires |cs| > 0 ==> sb != 0.0 && vav != 0.0
    ensures |bs| == |cs|
    ensures forall k :: 0 <= k < |cs| ==> bs[k] == CircuitBranch(cs[k], sb, vav)
    decreases |cs|
  {
    if cs == [] then [] else CircuitBranches(cs[..|cs| - 1], sb, vav) + [CircuitBranch(cs[|cs| - 1], sb, vav)]
  }

  /** One ground branch per generator, in order. */
  function GeneratorBranches(gs: seq<Generator>, sb: real): (bs: seq<Branch>)
    requires forall k :: 0 <= k < |gs| ==> gs[k].sn != 0.0
    ensures |bs| == |gs|
    ensures forall k :: 0 <= k < |gs| ==> bs[k] == GeneratorBranch(gs[k], sb)
    decreases |gs|
  {
    if gs == [] then [] else GeneratorBranches(gs[..|gs| - 1], sb) + [GeneratorBranch(gs[|gs| - 1], sb)]
  }

  /** One branch per transformer, in order. */
  function TransformerBranches(ts: seq<Transformer>, sb: real): (bs: seq<Branch>)
    requires forall k :: 0 <= k < |ts| ==> ts[k].sn != 0.0
    ensures |bs| == |ts|
    ensures forall k :: 0 <= k < |ts| ==> bs[k] == TransformerBranch(ts[k], sb)
    decreases |ts|
  {
    if ts == [] then [] else TransformerBranches(ts[..|ts| - 1], sb) + [TransformerBranch(ts[|ts| - 1], sb)]
  }

  /** parsePowerNetwork (lab1, lab3): circuits, then generators, then transformers. */
  function NetworkBranches(net: Network): (bs: seq<Branch>)
    requires RatingsNonzero(net)
    ensures |bs| == |net.circuits| + |net.generators| + |net.transformers|
    ensures forall k :: 0 <= k < |net.circuits| ==> bs[k] == CircuitBranch(net.circuits[k], net.sb, net.vav)
    ensures forall k :: 0 <= k < |net.generators| ==>
      bs[|net.circuits| + k] == GeneratorBranch(net.generators[k], net.sb)
    ensures forall k :: 0 <= k < |net.transformers| ==>
      bs[|net.circuits| + |net.generators| + k] == TransformerBranch(net.transformers[k], net.sb)
  {
    CircuitBranches(net.circuits, net.sb, net.vav) + GeneratorBranches(net.generators, net.sb)
      + TransformerBranches(net.transformers, net.sb)
  }

  // ---------------------------------------------------------------------
  // Records under the per-record base-voltage convention (lab2)

  datatype BaseCircuit = BaseCircuit(node1: int, node2: int, r: real, x: real, b: real, l: real, vb: real)

  /** A generator; when sn is 0 its rating is taken as pn / cos. The EMF field
      of the record is not read: every generator branch gets E = 1. */
  datatype BaseGenerator = BaseGenerator(node: int, sn: real, xd: real, pn: real, cos: real, vb: real, e: real)

  /** A load of rating ld and reactance xid. */
  datatype Load = Load(node: int, ld: real, xid: real, vb: real)

  /** A transformer with rated primary voltage v1n on a segment with base vb. */
  datatype BaseTransformer = BaseTransformer(node1: int, node2: int, sn: real, vs: real, v1n: real, v2n: real, vb: real)

  datatype BaseNetwork = BaseNetwork(sb: real, generators: seq<BaseGenerator>, circuits: seq<BaseCircuit>,
    transformers: seq<BaseTransformer>, loads: seq<Load>)

  /** circuitArgsToBranch with base VB: as for Vav, with the circuit's own VB. */
  function BaseCircuitBranch(c: BaseCircuit, sb: real): (b: Branch)
    requires sb != 0.0 && c.vb != 0.0
    ensures b.node1 == c.node1 && b.node2 == c.node2 && b.e == 0.0
    ensures b.resistance * Square(c.vb) == c.r * c.l * sb
    ensures b.reactance * Square(c.vb) == c.x * c.l * sb
    ensures b.admittance * sb == 0.5 * c.b * c.l * Square(c.vb)
  {
    SquarePositive(c.vb);
    DivCancel(c.r * c.l * sb, Square(c.vb));
    DivCancel(c.x * c.l * sb, Square(c.vb));
    DivCancel(0.5 * c.b * c.l * Square(c.vb), sb);
    Branch(c.node1, c.node2, c.r * c.l * sb / Square(c.vb), c.x * c.l * sb / Square(c.vb),
      0.5 * c.b * c.l * Square(c.vb) / sb, 0.0)
  }

  /** The rating a lab2 generator is referred to: Sn, or Pn / cos when Sn is 0. */
  function GeneratorRating(g: BaseGenerator): real
    requires g.sn == 0.0 ==> g.cos != 0.0
  {
    if g.sn == 0.0 then g.pn / g.cos else g.sn
  }

  predicate GeneratorRated(g: BaseGenerator)
  {
    if g.sn == 0.0 then g.cos != 0.0 && g.pn != 0.0 else true
  }

  /** powerGeneratorArgsToBranch (lab2): a ground branch with E = 1. */
  function BaseGeneratorBranch(g: BaseGenerator, sb: real): (b: Branch)
    requires GeneratorRated(g)
    ensures b.node1 == g.node && b.node2 == 0 && IsGround(b)
    ensures b.resistance == 0.0 && b.admittance == 0.0 && b.e == 1.0
    ensures GeneratorRating(g) != 0.0 && b.reactance * GeneratorRating(g) == g.xd * sb
  {
    var rating := if g.sn == 0.0 then g.pn / g.cos else g.sn;
    assert rating != 0.0;
    DivCancel(g.xd * sb, rating);
    Branch(g.node, 0, 0.0, g.xd * sb / rating, 0.0, 1.0)
  }

  /** LdArgsToBranch: a ground branch with E = 0.8 and reactance Xid * SB / Ld. */
  function LoadBranch(d: Load, sb: real): (b: Branch)
    requires d.ld != 0.0
    ensures b.node1 == d.node && b.node2 == 0 && IsGround(b)
    ensures b.resistance == 0.0 && b.admittance == 0.0 && b.e == 0.8
    ensures b.reactance * d.ld == d.xid * sb
  {
    DivCancel(d.xid * sb, d.ld);
    Branch(d.node, 0, 0.0, d.xid * sb / d.ld, 0.0, 0.8)
  }

  /** transformerArgsToBranch (lab2): (Vs / 100) * (V1n^2 / Sn) * (SB / VB^2). */
  function BaseTransformerBranch(t: BaseTransformer, sb: real): (b: Branch)
    requires t.sn != 0.0 && t.vb != 0.0
    ensures b.node1 == t.node1 && b.node2 == t.node2
    ensures b.resistance == 0.0 && b.admittance == 0.0 && b.e == 0.0
    ensures b.reactance * t.sn * Square(t.vb) * 100.0 == t.vs * Square(t.v1n) * sb
  {
    SquarePositive(t.vb);
    var p := Square(t.v1n) / t.sn;
    var q := sb / Square(t.vb);
    DivCancel(Square(t.v1n), t.sn);
    DivCancel(sb, Square(t.vb));
    assert (t.vs / 100.0) * p * q * t.sn * Square(t.vb) * 100.0
        == ((t.vs / 100.0) * 100.0) * (p * t.sn) * (q * Square(t.vb));
    Branch(t.node1, t.node2, 0.0, (t.vs / 100.0) * p * q, 0.0, 0.0)
  }

  predicate BaseRatingsNonzero(net: BaseNetwork)
  {
    && (|net.circuits| > 0 ==> net.sb != 0.0)
    && (forall k :: 0 <= k < |net.circuits| ==> net.circuits[k].vb != 0.0)
    && (forall k :: 0 <= k < |net.generators| ==> GeneratorRated(net.generators[k]))
    && (forall k :: 0 <= k < |net.transformers| ==> net.transformers[k].sn != 0.0 && net.transformers[k].vb != 0.0)
    && (forall k :: 0 <= k < |net.loads| ==> net.loads[k].ld != 0.0)
  }

  function BaseCircuitBranches(cs: seq<BaseCircuit>, sb: real): (bs: seq<Branch>)
    requires (|cs| > 0 ==> sb != 0.0) && forall k :: 0 <= k < |cs| ==> cs[k].vb != 0.0
    ensures |bs| == |cs|
    ensures forall k :: 0 <= k < |cs| ==> bs[k] == BaseCircuitBranch(cs[k], sb)
    decreases |cs|
  {
    if cs == [] then [] else BaseCircuitBranches(cs[..|cs| - 1], sb) + [BaseCircuitBranch(cs[|cs| - 1], sb)]
  }

  function BaseGeneratorBranches(gs: seq<BaseGenerator>, sb: real): (bs: seq<Branch>)
    requires forall k :: 0 <= k < |gs| ==> GeneratorRated(gs[k])
    ensures |bs| == |gs|
    ensures forall k :: 0 <= k < |gs| ==> bs[k] == BaseGeneratorBranch(gs[k], sb)
    decreases |gs|
  {
    if gs == [] then [] else BaseGeneratorBranches(gs[..|gs| - 1], sb) + [BaseGeneratorBranch(gs[|gs| - 1], sb)]
  }

  function BaseTransformerBranches(ts: seq<BaseTransformer>, sb: real): (bs: seq<Branch>)
    requires forall k :: 0 <= k < |ts| ==> ts[k].sn != 0.0 && ts[k].vb != 0.0
    ensures |bs| == |ts|
    ensures forall k :: 0 <= k < |ts| ==> bs[k] == BaseTransformerBranch(ts[k], sb)
    decreases |ts|
  {
    if ts == [] then [] else BaseTransformerBranches(ts[..|ts| - 1], sb) + [BaseTransformerBranch(ts[|ts| - 1], sb)]
  }

  function LoadBranches(ds: seq<Load>, sb: real): (bs: seq<Branch>)
    requires forall k :: 0 <= k < |ds| ==> ds[k].ld != 0.0
    ensures |bs| == |ds|
    ensures forall k :: 0 <= k < |ds| ==> bs[k] == LoadBranch(ds[k], sb)
    decreases |ds|
  {
    if ds == [] then [] else LoadBranches(ds[..|ds| - 1], sb) + [LoadBranch(ds[|ds| - 1], sb)]
  }

  /** parsePowerNetwork (lab2): circuits, generators, transformers, then loads. */
  function BaseNetworkBranches(net: BaseNetwork): (bs: seq<Branch>)
    requires BaseRatingsNonzero(net)
    ensures |bs| == |net.circuits| + |net.generators| + |net.transformers| + |net.loads|
    ensures forall k :: 0 <= k < |net.circuits| ==> bs[k] == BaseCircuitBranch(net.circuits[k], net.sb)
    ensures forall k :: 0 <= k < |net.generators| ==>
      bs[|net.circuits| + k] == BaseGeneratorBranch(net.generators[k], net.sb)
    ensures forall k :: 0 <= k < |net.transformers| ==>
      bs[|net.circuits| + |net.generators| + k] == BaseTransformerBranch(net.transformers[k], net.sb)
    ensures forall k :: 0 <= k < |net.loads| ==>
      bs[|net.circuits| + |net.generators| + |net.transformers| + k] == LoadBranch(net.loads[k], net.sb)
  {
    BaseCircuitBranches(net.circuits, net.sb) + BaseGeneratorBranches(net.generators, net.sb)
      + BaseTransformerBranches(net.transformers, net.sb) + LoadBranches(net.loads, net.sb)
  }

  // ---------------------------------------------------------------------
  // How the two conventions relate

  /** A lab2 circuit whose VB is the network's Vav converts exactly as under
      the average-voltage convention. */
  lemma BaseCircuitAtAverageVoltage(c: BaseCircuit, sb: real)
    requires sb != 0.0 && c.vb != 0.0
    ensures BaseCircuitBranch(c, sb) == CircuitBranch(Circuit(c.node1, c.node2, c.r, c.x, c.b, c.l), sb, c.vb)
  {
  }

  /** A lab2 generator with a nonzero rating gets the lab3 reactance, and
      differs from the lab3 branch only by its EMF. */
  lemma BaseGeneratorWithRating(g: BaseGenerator, sb: real)
    requires g.sn != 0.0
    ensures BaseGeneratorBranch(g, sb) == GeneratorBranch(Generator(g.node, g.sn, g.xd), sb).(e := 1.0)
  {
  }

  /** A lab2 transformer whose rated voltage equals its segment's base
      reduces to the average-voltage formula (Vs / 100) * (SB / Sn). */
  lemma BaseTransformerAtRatedVoltage(t: BaseTransformer, sb: real)
    requires t.sn != 0.0 && t.vb != 0.0 && t.v1n == t.vb
    ensures BaseTransformerBranch(t, sb) == TransformerBranch(Transformer(t.node1, t.node2, t.sn, t.vs), sb)
  {
    var b := BaseTransformerBranch(t, sb);
    var b' := TransformerBranch(Transformer(t.node1, t.node2, t.sn, t.vs), sb);
    SquarePositive(t.vb);
    assert b.reactance * t.sn * 100.0 * Square(t.vb) == t.vs * sb * Square(t.vb);
    assert b'.reactance * t.sn * 100.0 == t.vs * sb;
    CancelReal(b.reactance * t.sn * 100.0, t.vs * sb, Square(t.vb));
    CancelReal(b.reactance, b'.reactance, t.sn * 100.0);
  }

  lemma CancelReal(u: real, v: real, n: real)
    requires n != 0.0 && u * n == v * n
    ensures u == v
  {
    CancelNonzero(u, v, n);
  }
}

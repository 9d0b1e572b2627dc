/** rtl/noc_mesh_2x2.sv: four routers, numbered as the endpoints they serve, wired by
    links that are simultaneous valid/ready transfers. One step is one clock edge of all
    four routers, with arbitrary traffic and readiness at the endpoints. */
module NocMesh {
  import opened NocRouter

  type Node = n: nat | n < 4

  function X(n: Node): nat {
    n % 2
  }

  function Y(n: Node): nat {
    n / 2
  }

  datatype Neighbour = Boundary | At(node: Node)

  /** The wiring of the internal links; the other directions are tied off. */
  function NeighbourOf(n: Node, p: Port): Neighbour {
    if p == EAST && X(n) == 0 then At(n + 1)
    else if p == WEST && X(n) == 1 then At(n - 1)
    else if p == SOUTH && Y(n) == 0 then At(n + 2)
    else if p == NORTH && Y(n) == 1 then At(n - 2)
    else Boundary
  }

  function Opposite(p: Port): Port {
    if p == EAST then WEST else if p == WEST then EAST
    else if p == NORTH then SOUTH else if p == SOUTH then NORTH else LOCAL
  }

  type Mesh = seq<Router>

  predicate WellFormedMesh(m: Mesh) {
    |m| == 4 && forall n: Node :: WellFormed(m[n]) && m[n].x == X(n) && m[n].y == Y(n)
  }

  /** What the four endpoints do in one cycle: packets they offer, readiness to receive. */
  datatype Cycle = Cycle(inject: seq<Slot>, ready: seq<bool>)

  type Traffic = c: Cycle | |c.inject| == 4 && |c.ready| == 4
    witness Cycle([Empty, Empty, Empty, Empty], [true, true, true, true])

  function OfferedAt(m: Mesh, e: Traffic, n: Node, i: Port): Slot
    requires WellFormedMesh(m)
  {
    if i == LOCAL then e.inject[n]
    else match NeighbourOf(n, i)
      case Boundary => Empty
      case At(k) => Output(m[k], Opposite(i))
  }

  function ReadyAt(m: Mesh, e: Traffic, n: Node, o: Port): bool
    requires WellFormedMesh(m)
  {
    if o == LOCAL then e.ready[n]
    else match NeighbourOf(n, o)
      case Boundary => false
      case At(k) => m[k].slots[Opposite(o)].Empty?
  }

  function WiresAt(m: Mesh, e: Traffic, n: Node): (w: Wires)
    requires WellFormedMesh(m)
    ensures WellFormedWires(w)
  {
    Wires(seq(5, i requires 0 <= i < 5 => OfferedAt(m, e, n, i)), seq(5, o requires 0 <= o < 5 => ReadyAt(m, e, n, o)))
  }

  function MeshStep(m: Mesh, e: Traffic): (m': Mesh)
    requires WellFormedMesh(m)
    ensures WellFormedMesh(m')
  {
    seq(4, n requires 0 <= n < 4 => Step(m[n], WiresAt(m, e, n)))
  }

  function ResetMesh(): (m: Mesh)
    ensures WellFormedMesh(m)
  {
    seq(4, n requires 0 <= n < 4 => Reset(X(n), Y(n)))
  }

  /** The mesh after a sequence of cycles from reset. */
  function Run(es: seq<Traffic>): (m: Mesh)
    ensures WellFormedMesh(m)
  {
    if |es| == 0 then ResetMesh() else MeshStep(Run(es[..|es| - 1]), es[|es| - 1])
  }

  // ----------------------------------------------------------------------
  // Where packets can be
  // ----------------------------------------------------------------------

  /** The only horizontal and the only vertical port of a node that are wired. */
  function HPort(n: Node): Port {
    if X(n) == 0 then EAST else WEST
  }

  function VPort(n: Node): Port {
    if Y(n) == 0 then SOUTH else NORTH
  }

  function HNode(n: Node): Node {
    if X(n) == 0 then n + 1 else n - 1
  }

  function VNode(n: Node): Node {
    if Y(n) == 0 then n + 2 else n - 2
  }

  lemma Coordinates(n: Node, d: DstId)
    ensures X(n) <= 1 && Y(n) <= 1 && DstX(d) <= 1 && DstY(d) <= 1
    ensures HPort(n) != LOCAL && VPort(n) != LOCAL && HPort(n) != VPort(n)
  {
  }

  lemma SelfCoordinates(n: Node)
    ensures DstX(n) == X(n) && DstY(n) == Y(n)
  {
  }

  /** XY routing in terms of the wired ports: the row first, then the column. */
  lemma RouteByCoordinate(n: Node, d: DstId)
    ensures CalcRoute(X(n), Y(n), d) ==
            if DstX(d) != X(n) then HPort(n) else if DstY(d) != Y(n) then VPort(n) else LOCAL
  {
  }

  lemma WiredNeighbours(n: Node)
    ensures NeighbourOf(n, HPort(n)) == At(HNode(n)) && X(HNode(n)) == 1 - X(n) && Y(HNode(n)) == Y(n)
    ensures NeighbourOf(n, VPort(n)) == At(VNode(n)) && X(VNode(n)) == X(n) && Y(VNode(n)) == 1 - Y(n)
    ensures Opposite(HPort(n)) == HPort(HNode(n)) && Opposite(VPort(n)) == VPort(VNode(n))
  {
  }

  /** XY routing: horizontal slots hold packets already in their column, vertical slots hold
      packets already at their destination, unwired ports hold nothing. */
  predicate MayHold(n: Node, i: Port, d: DstId) {
    ValidDst(d) && (i == LOCAL || (i == HPort(n) && DstX(d) == X(n)) || (i == VPort(n) && d == n))
  }

  ghost predicate Reachable(m: Mesh) {
    WellFormedMesh(m) && forall n: Node, i: Port :: m[n].slots[i].Full? ==> MayHold(n, i, m[n].slots[i].packet.dstId)
  }

  /** What is on a link is on its way: the receiving slot may hold it. */
  lemma OutputMayMove(m: Mesh, n: Node, o: Port)
    requires Reachable(m) && Output(m[n], o).Full?
    ensures o == LOCAL ==> Output(m[n], o).packet.dstId == n
    ensures o != LOCAL ==> NeighbourOf(n, o).At?
    ensures o != LOCAL ==> MayHold(NeighbourOf(n, o).node, Opposite(o), Output(m[n], o).packet.dstId)
  {
    GrantsNearest(m[n], o);
    var i := Granted(m[n], o).input;
    assert MayHold(n, i, m[n].slots[i].packet.dstId);
    RouteMoves(n, i, m[n].slots[i].packet.dstId);
  }

  lemma RouteMoves(n: Node, i: Port, d: DstId)
    requires MayHold(n, i, d)
    ensures var o := CalcRoute(X(n), Y(n), d);
      if o == LOCAL then d == n else NeighbourOf(n, o).At? && MayHold(NeighbourOf(n, o).node, Opposite(o), d)
  {
  }

  lemma StepStaysReachable(m: Mesh, e: Traffic)
    requires Reachable(m)
    ensures Reachable(MeshStep(m, e))
  {
    hide Output, Granted, Served;
    var m' := MeshStep(m, e);
    forall n: Node, i: Port | m'[n].slots[i].Full?
      ensures MayHold(n, i, m'[n].slots[i].packet.dstId)
    {
      assert m'[n].slots[i] == NextSlot(m[n], WiresAt(m, e, n), i);
      if m'[n].slots[i] != m[n].slots[i] && i != LOCAL {
        SlotEntered(m, e, n, i);
      }
    }
  }

  lemma SlotEntered(m: Mesh, e: Traffic, n: Node, i: Port)
    requires Reachable(m) && i != LOCAL && OfferedAt(m, e, n, i).Full?
    ensures MayHold(n, i, OfferedAt(m, e, n, i).packet.dstId)
  {
    hide Output;
    var k := NeighbourOf(n, i).node;
    assert NeighbourOf(k, Opposite(i)) == At(n) && Opposite(Opposite(i)) == i;
    OutputMayMove(m, k, Opposite(i));
  }

  /** Every state that a run from reset goes through satisfies the invariant. */
  lemma {:induction false} RunIsReachable(es: seq<Traffic>)
    ensures Reachable(Run(es))
  {
    if |es| > 0 {
      RunIsReachable(es[..|es| - 1]);
      StepStaysReachable(Run(es[..|es| - 1]), es[|es| - 1]);
    }
  }

  /** Invalid destinations never enter a slot, and no link ever presents one. */
  lemma InvalidNeverEnters(es: seq<Traffic>, n: Node, p: Port)
    ensures Run(es)[n].slots[p].Full? ==> Run(es)[n].slots[p].packet.dstId < 4
    ensures Output(Run(es)[n], p).Full? ==> Output(Run(es)[n], p).packet.dstId < 4
  {
    RunIsReachable(es);
    var m := Run(es);
    assert m[n].slots[p].Full? ==> MayHold(n, p, m[n].slots[p].packet.dstId);
    if Output(m[n], p).Full? {
      GrantsNearest(m[n], p);
      var i := Granted(m[n], p).input;
      assert MayHold(n, i, m[n].slots[i].packet.dstId);
    }
  }
}

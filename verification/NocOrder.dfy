/** Per-flow order: for every pair of endpoints, the packets delivered so far followed by
    those on the flow's XY path are exactly the packets injected, in injection order. */
module NocOrder {
  import opened NocRouter
  import opened NocMesh
  import opened NocDelivery

  /** For each slot, the endpoint that injected the packet in it. A history variable: no
      router decision depends on it, and the source field of a packet plays no part. */
  type Origins = g: seq<seq<Node>> | |g| == 4 && forall n: Node :: |g[n]| == 5
    witness [[0, 0, 0, 0, 0], [0, 0, 0, 0, 0], [0, 0, 0, 0, 0], [0, 0, 0, 0, 0]]

  /** The origin moves with the packet. */
  function NextOrigin(m: Mesh, e: Traffic, g: Origins, n: Node, i: Port): Node
    requires WellFormedMesh(m)
  {
    if AcceptedAt(m, e, n, i).Empty? then g[n][i]
    else if i == LOCAL then n
    else match NeighbourOf(n, i)
      case Boundary => n
      case At(k) => SourceOf(m, g, k, Opposite(i))
  }

  /** The origin of the packet that output o of node k presents. */
  function SourceOf(m: Mesh, g: Origins, k: Node, o: Port): Node
    requires WellFormedMesh(m)
  {
    match Granted(m[k], o)
    case NoGrant => k
    case To(j) => g[k][j]
  }

  function NextOrigins(m: Mesh, e: Traffic, g: Origins): Origins
    requires WellFormedMesh(m)
  {
    seq(4, n requires 0 <= n < 4 => seq(5, i requires 0 <= i < 5 => NextOrigin(m, e, g, n, i)))
  }

  function OriginsAfter(es: seq<Traffic>): Origins {
    if |es| == 0 then seq(4, n requires 0 <= n < 4 => [0, 0, 0, 0, 0])
    else NextOrigins(Run(es[..|es| - 1]), es[|es| - 1], OriginsAfter(es[..|es| - 1]))
  }

  /** Where a packet from s can stand: XY routing reaches a horizontal slot only from its row
      neighbour, and a vertical slot only from the other row. */
  predicate MayComeFrom(n: Node, i: Port, s: Node) {
    (i == LOCAL ==> s == n) && (i == HPort(n) ==> s == HNode(n)) && (i == VPort(n) ==> Y(s) != Y(n))
  }

  ghost predicate GoodOrigins(m: Mesh, g: Origins) {
    Reachable(m) && forall n: Node, i: Port :: m[n].slots[i].Full? ==> MayComeFrom(n, i, g[n][i])
  }

  lemma StepKeepsOrigins(m: Mesh, e: Traffic, g: Origins)
    requires GoodOrigins(m, g)
    ensures GoodOrigins(MeshStep(m, e), NextOrigins(m, e, g))
  {
    hide Granted, Output, Served;
    StepStaysReachable(m, e);
    var m', g' := MeshStep(m, e), NextOrigins(m, e, g);
    forall n: Node, i: Port | m'[n].slots[i].Full?
      ensures MayComeFrom(n, i, g'[n][i])
    {
      assert m'[n].slots[i] == NextSlot(m[n], WiresAt(m, e, n), i);
      assert g'[n][i] == NextOrigin(m, e, g, n, i);
      if AcceptedAt(m, e, n, i).Full? && i != LOCAL {
        EntersFromNeighbour(m, e, g, n, i);
      }
    }
  }

  lemma EntersFromNeighbour(m: Mesh, e: Traffic, g: Origins, n: Node, i: Port)
    requires GoodOrigins(m, g) && i != LOCAL && AcceptedAt(m, e, n, i).Full?
    ensures MayComeFrom(n, i, NextOrigin(m, e, g, n, i))
  {
    hide Granted, Output, HPort, VPort, HNode, VNode, X, Y, CalcRoute;
    WiredOnly(n, i);
    WiredNeighbours(n);
    var k, o := NeighbourOf(n, i).node, Opposite(i);
    GrantedPresents(m[k], o);
    GrantsNearest(m[k], o);
    var j := Granted(m[k], o).input;
    ComesAlong(m, g, k, j, o, n);
    Coordinates(n, 0);
  }

  lemma WiredOnly(n: Node, i: Port)
    requires NeighbourOf(n, i).At?
    ensures i == HPort(n) || i == VPort(n)
  {
  }

  /** A packet about to cross the row link starts at its node; one about to cross the column link
      starts in its row. */
  lemma ComesAlong(m: Mesh, g: Origins, k: Node, j: Port, o: Port, n: Node)
    requires GoodOrigins(m, g) && Requests(m[k], o, j) && o != LOCAL
    ensures o == HPort(k) ==> g[k][j] == k
    ensures o == VPort(k) ==> Y(g[k][j]) == Y(k)
  {
    hide HPort, VPort, HNode, VNode, X, Y, CalcRoute;
    var d := m[k].slots[j].packet.dstId;
    assert MayHold(k, j, d) && MayComeFrom(k, j, g[k][j]);
    RouteByCoordinate(k, d);
    Coordinates(k, d);
    SelfCoordinates(k);
    WiredNeighbours(k);
  }

  // ----------------------------------------------------------------------
  // A flow and its path
  // ----------------------------------------------------------------------

  /** The corner of the XY path from s to d. */
  function Corner(s: Node, d: Node): Node {
    X(d) + 2 * Y(s)
  }

  /** The packet of flow s to d in a slot, if the slot holds one. */
  function Part(m: Mesh, g: Origins, n: Node, i: Port, s: Node, d: Node): seq<Packet>
    requires WellFormedMesh(m)
  {
    if m[n].slots[i].Full? && g[n][i] == s && m[n].slots[i].packet.dstId == d then [m[n].slots[i].packet] else []
  }

  /** The horizontal and the vertical slot of the path, when it has one. */
  function HPart(m: Mesh, g: Origins, s: Node, d: Node): seq<Packet>
    requires WellFormedMesh(m)
  {
    if X(s) != X(d) then Part(m, g, Corner(s, d), HPort(Corner(s, d)), s, d) else []
  }

  function VPart(m: Mesh, g: Origins, s: Node, d: Node): seq<Packet>
    requires WellFormedMesh(m)
  {
    if Y(s) != Y(d) then Part(m, g, d, VPort(d), s, d) else []
  }

  /** Packets of the flow on its path, the one nearest its destination first. */
  function InFlight(m: Mesh, g: Origins, s: Node, d: Node): seq<Packet>
    requires WellFormedMesh(m)
  {
    VPart(m, g, s, d) + (HPart(m, g, s, d) + Part(m, g, s, LOCAL, s, d))
  }

  /** Every occupied slot is on the path of the flow its packet belongs to. */
  lemma OnPath(m: Mesh, g: Origins, n: Node, i: Port, s: Node, d: Node)
    requires GoodOrigins(m, g) && m[n].slots[i].Full? && g[n][i] == s && m[n].slots[i].packet.dstId == d
    ensures (i == LOCAL && n == s) || (i == HPort(n) && n == Corner(s, d) && X(s) != X(d))
            || (i == VPort(n) && n == d && Y(s) != Y(d))
  {
    assert MayHold(n, i, m[n].slots[i].packet.dstId);
  }

  function Enters(m: Mesh, e: Traffic, g: Origins, n: Node, i: Port, s: Node, d: Node): seq<Packet>
    requires WellFormedMesh(m)
  {
    var a := AcceptedAt(m, e, n, i);
    if a.Full? && NextOrigin(m, e, g, n, i) == s && a.packet.dstId == d then [a.packet] else []
  }

  function Leaves(m: Mesh, e: Traffic, g: Origins, n: Node, i: Port, s: Node, d: Node): seq<Packet>
    requires WellFormedMesh(m)
  {
    if Served(m[n], WiresAt(m, e, n), i) then Part(m, g, n, i, s, d) else []
  }

  /** A slot is a queue of one place. */
  lemma SlotFlow(m: Mesh, e: Traffic, g: Origins, n: Node, i: Port, s: Node, d: Node)
    requires WellFormedMesh(m)
    ensures Part(m, g, n, i, s, d) + Enters(m, e, g, n, i, s, d) ==
            Leaves(m, e, g, n, i, s, d) + Part(MeshStep(m, e), NextOrigins(m, e, g), n, i, s, d)
  {
    hide Granted;
    assert MeshStep(m, e)[n].slots[i] == NextSlot(m[n], WiresAt(m, e, n), i);
    assert NextOrigins(m, e, g)[n][i] == NextOrigin(m, e, g, n, i);
    ServedByRoute(m[n], WiresAt(m, e, n), i);
  }

  /** What an output sends of a flow, when only slot j of the node can hold that flow. */
  lemma SentOfFlow(m: Mesh, e: Traffic, g: Origins, n: Node, o: Port, j: Port, s: Node, d: Node)
    requires GoodOrigins(m, g) && CalcRoute(X(n), Y(n), d) == o
    requires forall i: Port :: m[n].slots[i].Full? && g[n][i] == s && m[n].slots[i].packet.dstId == d ==> i == j
    ensures Leaves(m, e, g, n, j, s, d) ==
            (if SentAt(m, e, n, o).Full? && SourceOf(m, g, n, o) == s && SentAt(m, e, n, o).packet.dstId == d
             then [SentAt(m, e, n, o).packet] else [])
  {
    hide Granted;
    ServedByRoute(m[n], WiresAt(m, e, n), j);
    GrantsNearest(m[n], o);
  }

  /** One hop along a path: what leaves the slot before the link is what enters the slot after it. */
  lemma Hop(m: Mesh, e: Traffic, g: Origins, n: Node, o: Port, j: Port, s: Node, d: Node)
    requires GoodOrigins(m, g) && CalcRoute(X(n), Y(n), d) == o && o != LOCAL && NeighbourOf(n, o).At?
    requires forall i: Port :: m[n].slots[i].Full? && g[n][i] == s && m[n].slots[i].packet.dstId == d ==> i == j
    ensures Leaves(m, e, g, n, j, s, d) == Enters(m, e, g, NeighbourOf(n, o).node, Opposite(o), s, d)
  {
    hide Granted, Sent, Accepted, Served;
    var k := NeighbourOf(n, o).node;
    SentOfFlow(m, e, g, n, o, j, s, d);
    LinkCarries(m, e, n, o);
    assert NeighbourOf(k, Opposite(o)) == At(n) && Opposite(Opposite(o)) == o && Opposite(o) != LOCAL;
  }

  /** The one slot of a node on the path of a flow. */
  lemma OnlySlot(m: Mesh, g: Origins, n: Node, j: Port, s: Node, d: Node)
    requires GoodOrigins(m, g)
    requires (j == LOCAL && n == s) || (j == HPort(n) && n == Corner(s, d) && X(s) != X(d))
             || (j == VPort(n) && n == d && Y(s) != Y(d))
    ensures forall i: Port :: m[n].slots[i].Full? && g[n][i] == s && m[n].slots[i].packet.dstId == d ==> i == j
  {
    forall i: Port | m[n].slots[i].Full? && g[n][i] == s && m[n].slots[i].packet.dstId == d
      ensures i == j
    {
      OnPath(m, g, n, i, s, d);
    }
  }

  /** Packets of the flow accepted at s, and delivered at d, in one cycle. */
  function InjectedNow(m: Mesh, e: Traffic, s: Node, d: Node): seq<Packet>
    requires WellFormedMesh(m)
  {
    var a := Taken(m, e, s);
    if a.Full? && a.packet.dstId == d then [a.packet] else []
  }

  function DeliveredNow(m: Mesh, e: Traffic, g: Origins, s: Node, d: Node): seq<Packet>
    requires WellFormedMesh(m)
  {
    var t := SentAt(m, e, d, LOCAL);
    if t.Full? && SourceOf(m, g, d, LOCAL) == s && t.packet.dstId == d then [t.packet] else []
  }

  /** The first slot of the path is fed by the endpoint. */
  lemma SourceStage(m: Mesh, e: Traffic, g: Origins, s: Node, d: Node)
    requires GoodOrigins(m, g)
    ensures Part(m, g, s, LOCAL, s, d) + InjectedNow(m, e, s, d) ==
            Leaves(m, e, g, s, LOCAL, s, d) + Part(MeshStep(m, e), NextOrigins(m, e, g), s, LOCAL, s, d)
  {
    hide Leaves, Part, MeshStep, NextOrigins, Enters, InjectedNow;
    SlotFlow(m, e, g, s, LOCAL, s, d);
    EntersAtSource(m, e, g, s, d);
  }

  /** A slot after a link is fed by the slot before it. */
  lemma LinkStage(m: Mesh, e: Traffic, g: Origins, n: Node, j: Port, o: Port, k: Node, s: Node, d: Node)
    requires GoodOrigins(m, g) && o != LOCAL && NeighbourOf(n, o) == At(k) && CalcRoute(X(n), Y(n), d) == o
    requires (j == LOCAL && n == s) || (j == HPort(n) && n == Corner(s, d) && X(s) != X(d))
    ensures Part(m, g, k, Opposite(o), s, d) + Leaves(m, e, g, n, j, s, d) ==
            Leaves(m, e, g, k, Opposite(o), s, d) + Part(MeshStep(m, e), NextOrigins(m, e, g), k, Opposite(o), s, d)
  {
    hide Leaves, Part, MeshStep, NextOrigins, Enters;
    OnlySlot(m, g, n, j, s, d);
    Hop(m, e, g, n, o, j, s, d);
    SlotFlow(m, e, g, k, Opposite(o), s, d);
  }

  lemma LastStage(m: Mesh, e: Traffic, g: Origins, j: Port, s: Node, d: Node)
    requires GoodOrigins(m, g)
    requires (j == LOCAL && d == s) || (j == HPort(d) && d == Corner(s, d) && X(s) != X(d))
             || (j == VPort(d) && Y(s) != Y(d))
    ensures Leaves(m, e, g, d, j, s, d) == DeliveredNow(m, e, g, s, d)
  {
    hide Leaves, DeliveredNow;
    OnlySlot(m, g, d, j, s, d);
    LeavesAtDestination(m, e, g, j, s, d);
  }

  /** What the row part of the path hands to its column part. */
  function LeavesRow(m: Mesh, e: Traffic, g: Origins, s: Node, d: Node): seq<Packet>
    requires WellFormedMesh(m)
  {
    if X(s) != X(d) then Leaves(m, e, g, Corner(s, d), HPort(Corner(s, d)), s, d) else Leaves(m, e, g, s, LOCAL, s, d)
  }

  lemma RowStage(m: Mesh, e: Traffic, g: Origins, s: Node, d: Node)
    requires GoodOrigins(m, g)
    ensures HPart(m, g, s, d) + Leaves(m, e, g, s, LOCAL, s, d) ==
            LeavesRow(m, e, g, s, d) + HPart(MeshStep(m, e), NextOrigins(m, e, g), s, d)
  {
    hide Leaves, Part, MeshStep, NextOrigins, CalcRoute, NeighbourOf, Opposite, HPort, X, Y, Corner, GoodOrigins;
    if X(s) != X(d) {
      RowLink(s, d);
      LinkStage(m, e, g, s, LOCAL, HPort(s), Corner(s, d), s, d);
    }
  }

  /** The row link of a path. */
  lemma RowLink(s: Node, d: Node)
    requires X(s) != X(d)
    ensures HPort(s) != LOCAL && NeighbourOf(s, HPort(s)) == At(Corner(s, d))
    ensures Opposite(HPort(s)) == HPort(Corner(s, d))
    ensures CalcRoute(X(s), Y(s), d) == HPort(s)
  {
    hide CalcRoute, NeighbourOf, Opposite, HPort, VPort, HNode, X, Y, Corner;
    Corners(s, d);
    WiredNeighbours(s);
    RouteByCoordinate(s, d);
    SelfCoordinates(d);
    Coordinates(s, d);
  }

  lemma Corners(s: Node, d: Node)
    ensures X(Corner(s, d)) == X(d) && Y(Corner(s, d)) == Y(s)
    ensures X(s) != X(d) ==> Corner(s, d) == HNode(s)
    ensures Y(s) != Y(d) ==> VNode(Corner(s, d)) == d
    ensures X(s) == X(d) ==> Corner(s, d) == s
  {
  }

  /** The column link of a path, from its corner. */
  lemma ColumnLink(s: Node, d: Node)
    requires Y(s) != Y(d)
    ensures VPort(Corner(s, d)) != LOCAL && Opposite(VPort(Corner(s, d))) == VPort(d)
    ensures NeighbourOf(Corner(s, d), VPort(Corner(s, d))) == At(d)
    ensures CalcRoute(X(Corner(s, d)), Y(Corner(s, d)), d) == VPort(Corner(s, d))
    ensures X(s) == X(d) ==> Corner(s, d) == s
  {
    hide CalcRoute, NeighbourOf, Opposite, HPort, VPort, VNode, X, Y, Corner;
    Corners(s, d);
    WiredNeighbours(Corner(s, d));
    RouteByCoordinate(Corner(s, d), d);
    SelfCoordinates(d);
    Coordinates(Corner(s, d), d);
  }

  lemma ColumnStage(m: Mesh, e: Traffic, g: Origins, s: Node, d: Node)
    requires GoodOrigins(m, g)
    ensures VPart(m, g, s, d) + LeavesRow(m, e, g, s, d) ==
            DeliveredNow(m, e, g, s, d) + VPart(MeshStep(m, e), NextOrigins(m, e, g), s, d)
  {
    hide Leaves, Part, MeshStep, NextOrigins, DeliveredNow, CalcRoute, NeighbourOf, Opposite, HPort, VPort, X, Y,
      Corner;
    if Y(s) != Y(d) {
      ColumnLink(s, d);
      if X(s) != X(d) {
        LinkStage(m, e, g, Corner(s, d), HPort(Corner(s, d)), VPort(Corner(s, d)), d, s, d);
      } else {
        LinkStage(m, e, g, s, LOCAL, VPort(s), d, s, d);
      }
      LastStage(m, e, g, VPort(d), s, d);
    } else {
      RowEnds(s, d);
      LastStage(m, e, g, if X(s) != X(d) then HPort(d) else LOCAL, s, d);
    }
  }

  /** A path without a column ends in its row. */
  lemma RowEnds(s: Node, d: Node)
    requires Y(s) == Y(d)
    ensures Corner(s, d) == d && (X(s) == X(d) ==> s == d)
  {
  }

  /** One cycle of a flow: the slots of its path, in order of travel, hand over to each other. */
  lemma FlowStep(m: Mesh, e: Traffic, g: Origins, s: Node, d: Node)
    requires GoodOrigins(m, g)
    ensures InFlight(m, g, s, d) + InjectedNow(m, e, s, d) ==
            DeliveredNow(m, e, g, s, d) + InFlight(MeshStep(m, e), NextOrigins(m, e, g), s, d)
  {
    hide Leaves, Part, MeshStep, NextOrigins, DeliveredNow, InjectedNow, HPart, VPart, LeavesRow;
    var m', g' := MeshStep(m, e), NextOrigins(m, e, g);
    SourceStage(m, e, g, s, d);
    RowStage(m, e, g, s, d);
    ColumnStage(m, e, g, s, d);
    Chain(HPart(m, g, s, d), Leaves(m, e, g, s, LOCAL, s, d), LeavesRow(m, e, g, s, d), HPart(m', g', s, d),
          Part(m, g, s, LOCAL, s, d), InjectedNow(m, e, s, d), Part(m', g', s, LOCAL, s, d));
    Chain(VPart(m, g, s, d), LeavesRow(m, e, g, s, d), DeliveredNow(m, e, g, s, d), VPart(m', g', s, d),
          HPart(m, g, s, d) + Part(m, g, s, LOCAL, s, d), InjectedNow(m, e, s, d),
          HPart(m', g', s, d) + Part(m', g', s, LOCAL, s, d));
  }

  /** Prefixing a one-place queue to a queue that already balances. */
  lemma Chain<T>(part: seq<T>, enters: seq<T>, leaves: seq<T>, part': seq<T>, tail: seq<T>, fed: seq<T>, tail': seq<T>)
    requires part + enters == leaves + part' && tail + fed == enters + tail'
    ensures (part + tail) + fed == leaves + (part' + tail')
  {
    calc {
      (part + tail) + fed;
      part + (tail + fed);
      part + (enters + tail');
      (part + enters) + tail';
      (leaves + part') + tail';
      leaves + (part' + tail');
    }
  }

  lemma EntersAtSource(m: Mesh, e: Traffic, g: Origins, s: Node, d: Node)
    requires WellFormedMesh(m)
    ensures Enters(m, e, g, s, LOCAL, s, d) == InjectedNow(m, e, s, d)
  {
    hide AcceptedAt, Taken;
    TakenIsAccepted(m, e, s);
  }

  lemma LeavesAtDestination(m: Mesh, e: Traffic, g: Origins, j: Port, s: Node, d: Node)
    requires GoodOrigins(m, g)
    requires forall i: Port :: m[d].slots[i].Full? && g[d][i] == s && m[d].slots[i].packet.dstId == d ==> i == j
    ensures Leaves(m, e, g, d, j, s, d) == DeliveredNow(m, e, g, s, d)
  {
    hide Leaves, SentAt, GoodOrigins;
    SentOfFlow(m, e, g, d, LOCAL, j, s, d);
  }

  // ----------------------------------------------------------------------
  // Whole runs
  // ----------------------------------------------------------------------

  function InjectedFlow(es: seq<Traffic>, s: Node, d: Node): seq<Packet> {
    if |es| == 0 then []
    else InjectedFlow(es[..|es| - 1], s, d) + InjectedNow(Run(es[..|es| - 1]), es[|es| - 1], s, d)
  }

  function DeliveredFlow(es: seq<Traffic>, s: Node, d: Node): seq<Packet> {
    if |es| == 0 then []
    else DeliveredFlow(es[..|es| - 1], s, d) + DeliveredNow(Run(es[..|es| - 1]), es[|es| - 1],
      OriginsAfter(es[..|es| - 1]), s, d)
  }

  lemma {:induction false} RunHasGoodOrigins(es: seq<Traffic>)
    ensures GoodOrigins(Run(es), OriginsAfter(es))
  {
    if |es| > 0 {
      RunHasGoodOrigins(es[..|es| - 1]);
      StepKeepsOrigins(Run(es[..|es| - 1]), es[|es| - 1], OriginsAfter(es[..|es| - 1]));
    }
  }

  /** Per-flow order, for every run, every source and every destination. */
  lemma {:induction false} PerFlowOrder(es: seq<Traffic>, s: Node, d: Node)
    ensures InjectedFlow(es, s, d) == DeliveredFlow(es, s, d) + InFlight(Run(es), OriginsAfter(es), s, d)
  {
    hide InFlight, InjectedNow, DeliveredNow, MeshStep, NextOrigins, GoodOrigins;
    if |es| == 0 {
      EmptyFlight(s, d);
    } else {
      var es', e := es[..|es| - 1], es[|es| - 1];
      PerFlowOrder(es', s, d);
      RunHasGoodOrigins(es');
      FlowStep(Run(es'), e, OriginsAfter(es'), s, d);
      calc {
        InjectedFlow(es, s, d);
        InjectedFlow(es', s, d) + InjectedNow(Run(es'), e, s, d);
        DeliveredFlow(es', s, d) + (InFlight(Run(es'), OriginsAfter(es'), s, d) + InjectedNow(Run(es'), e, s, d));
        DeliveredFlow(es', s, d) + (DeliveredNow(Run(es'), e, OriginsAfter(es'), s, d)
          + InFlight(Run(es), OriginsAfter(es), s, d));
        DeliveredFlow(es, s, d) + InFlight(Run(es), OriginsAfter(es), s, d);
      }
    }
  }

  lemma EmptyFlight(s: Node, d: Node)
    ensures InFlight(Run([]), OriginsAfter([]), s, d) == []
  {
    assert Run([]) == ResetMesh();
    forall n: Node, i: Port
      ensures ResetMesh()[n].slots[i] == Empty
    {
    }
  }
}

/** Stability under backpressure. The interface contract asks that a packet presented on a
    stalled output stays the same until it is transferred. The arbiter chooses again in every
    cycle, so this holds exactly as long as no request arrives nearer the pointer. */
module NocStability {
  import opened NocRouter
  import opened NocService
  import opened NocMesh
  import opened NocDelivery

  /** On this edge a packet for output o enters a slot that is scanned before the granted one. */
  ghost predicate Overtaken(r: Router, w: Wires, o: Port)
    requires WellFormed(r) && WellFormedWires(w) && Granted(r, o).To?
  {
    exists j: Port ::
      Arrives(r, w, o, j) && Distance(r.rr[o], j) < Distance(r.rr[o], Granted(r, o).input)
  }

  /** Input j accepts a packet whose route is o. */
  predicate Arrives(r: Router, w: Wires, o: Port, j: Port)
    requires WellFormed(r) && WellFormedWires(w)
  {
    var a := Accepted(r, w, j);
    a.Full? && CalcRoute(r.x, r.y, a.packet.dstId) == o
  }

  /** In a stalled cycle the requests of an output are those it had and those that arrive. */
  lemma RequestsWhileStalled(r: Router, w: Wires, o: Port, j: Port)
    requires WellFormed(r) && WellFormedWires(w) && !w.ready[o]
    ensures Requests(Step(r, w), o, j) <==> Requests(r, o, j) || Arrives(r, w, o, j)
  {
    hide Granted;
    assert Step(r, w).slots[j] == NextSlot(r, w, j);
    ServedByRoute(r, w, j);
  }

  /** The exact condition of the stability promise, cycle by cycle: the stalled output keeps
      presenting the same slot if and only if it is not overtaken. */
  lemma StableIffNotOvertaken(r: Router, w: Wires, o: Port)
    requires WellFormed(r) && WellFormedWires(w) && Granted(r, o).To? && !w.ready[o]
    ensures Granted(Step(r, w), o) == Granted(r, o) <==> !Overtaken(r, w, o)
    ensures !Overtaken(r, w, o) ==> Output(Step(r, w), o) == Output(r, o)
  {
    hide Granted, Requests, Arrives, NextSlot;
    var r' := Step(r, w);
    forall j: Port
      ensures Requests(r', o, j) <==> Requests(r, o, j) || Arrives(r, w, o, j)
    {
      RequestsWhileStalled(r, w, o, j);
    }
    GrantsNearest(r, o);
    StalledOutput(r, w, o);
    GrantsNearest(r', o);
    SameDistance(r.rr[o], Granted(r, o).input);
  }

  /** Of the packets that overtake on this edge, the one nearest the pointer. */
  ghost predicate Overtaker(r: Router, w: Wires, o: Port, j: Port)
    requires WellFormed(r) && WellFormedWires(w) && Granted(r, o).To?
  {
    && Arrives(r, w, o, j) && Distance(r.rr[o], j) < Distance(r.rr[o], Granted(r, o).input)
    && forall k: Port :: Arrives(r, w, o, k) ==> Distance(r.rr[o], j) <= Distance(r.rr[o], k)
  }

  /** An overtaker is granted on the next cycle, and there is one whenever the output is overtaken. */
  lemma OvertakerIsGranted(r: Router, w: Wires, o: Port, j: Port)
    requires WellFormed(r) && WellFormedWires(w) && Granted(r, o).To? && !w.ready[o]
    ensures Overtaken(r, w, o) ==> Granted(Step(r, w), o).To? && Overtaker(r, w, o, Granted(Step(r, w), o).input)
    ensures Overtaker(r, w, o, j) ==> Granted(Step(r, w), o) == To(j)
  {
    hide Granted, Requests, Arrives, NextSlot;
    var r' := Step(r, w);
    forall k: Port
      ensures Requests(r', o, k) <==> Requests(r, o, k) || Arrives(r, w, o, k)
    {
      RequestsWhileStalled(r, w, o, k);
    }
    GrantsNearest(r, o);
    StalledOutput(r, w, o);
    GrantsNearest(r', o);
  }

  lemma OvertakerPacket(r: Router, w: Wires, o: Port, j: Port)
    requires WellFormed(r) && WellFormedWires(w) && !w.ready[o] && Arrives(r, w, o, j)
    ensures Step(r, w).slots[j] == Accepted(r, w, j)
  {
    hide Granted;
    assert Step(r, w).slots[j] == NextSlot(r, w, j);
    ServedByRoute(r, w, j);
  }

  /** The same for the packet, all four fields of it: a stalled output presents another packet if
      and only if it is overtaken by another packet. */
  lemma PacketChangesIff(r: Router, w: Wires, o: Port)
    requires WellFormed(r) && WellFormedWires(w) && Granted(r, o).To? && !w.ready[o]
    ensures Output(Step(r, w), o) != Output(r, o) <==>
            exists j: Port :: Overtaker(r, w, o, j) && Accepted(r, w, j) != Output(r, o)
  {
    hide Granted, Accepted, Step, CalcRoute;
    StableIffNotOvertaken(r, w, o);
    forall j: Port | Overtaker(r, w, o, j)
      ensures Output(Step(r, w), o) == Accepted(r, w, j)
    {
      OvertakerIsGranted(r, w, o, j);
      OvertakerPacket(r, w, o, j);
    }
    OvertakerIsGranted(r, w, o, LOCAL);
  }

  /** One packet from endpoint n, the other endpoints idle; endpoint 0 never takes a packet. */
  function Offer(n: Node, p: Packet): Traffic {
    Cycle([if n == 0 then Full(p) else Empty, if n == 1 then Full(p) else Empty, if n == 2 then Full(p) else Empty,
           if n == 3 then Full(p) else Empty],
          [false, true, true, true])
  }

  function Idle(): Traffic {
    Cycle([Empty, Empty, Empty, Empty], [false, true, true, true])
  }

  const FIRST := Packet(1, 0, 0, 0)
  const LATE := Packet(0, 0, 0, 0)

  ghost predicate Idles(r: Router)
    requires WellFormed(r)
  {
    (forall i: Port :: r.slots[i].Empty?) && forall o: Port :: r.rr[o] == LOCAL
  }

  ghost predicate HoldsOnly(r: Router, i: Port, p: Packet)
    requires WellFormed(r)
  {
    (forall j: Port :: r.slots[j] == if j == i then Full(p) else Empty) && forall o: Port :: r.rr[o] == LOCAL
  }

  lemma IdleOutputs(r: Router, o: Port)
    requires WellFormed(r) && Idles(r)
    ensures Granted(r, o) == NoGrant && Output(r, o) == Empty
  {
    GrantsNearest(r, o);
  }

  lemma SingleOutputs(r: Router, i: Port, p: Packet, o: Port)
    requires WellFormed(r) && HoldsOnly(r, i, p)
    ensures Output(r, o) == if CalcRoute(r.x, r.y, p.dstId) == o then Full(p) else Empty
    ensures Granted(r, o) == if CalcRoute(r.x, r.y, p.dstId) == o then To(i) else NoGrant
  {
    GrantsNearest(r, o);
  }

  /** An idle router takes what it is offered. */
  lemma IdleStep(r: Router, w: Wires, i: Port)
    requires WellFormed(r) && WellFormedWires(w) && Idles(r)
    ensures Step(r, w).slots[i] == Accepted(r, w, i)
    ensures Step(r, w).rr[i] == LOCAL
  {
    hide Granted;
    assert Step(r, w).slots[i] == NextSlot(r, w, i);
    assert Step(r, w).rr[i] == NextPointer(r, w, i);
    IdleOutputs(r, i);
    ServedByRoute(r, w, i);
  }

  /** First cycle: the packet of endpoint 1 is alone in the mesh. */
  lemma AfterFirst(m: Mesh, n: Node)
    requires m == MeshStep(ResetMesh(), Offer(1, FIRST))
    ensures if n == 1 then HoldsOnly(m[n], LOCAL, FIRST) else Idles(m[n])
  {
    hide Step, Output, Granted, Accepted;
    var before, e := ResetMesh(), Offer(1, FIRST);
    assert m[n] == Step(before[n], WiresAt(before, e, n));
    forall i: Port
      ensures m[n].slots[i] == (if n == 1 && i == LOCAL then Full(FIRST) else Empty) && m[n].rr[i] == LOCAL
    {
      IdleStep(before[n], WiresAt(before, e, n), i);
      if NeighbourOf(n, i).At? && i != LOCAL {
        IdleOutputs(before[NeighbourOf(n, i).node], Opposite(i));
      }
      Takes(before, e, n, i);
    }
  }

  lemma Takes(m: Mesh, e: Traffic, n: Node, i: Port)
    requires WellFormedMesh(m) && m[n].slots[i].Empty?
    ensures var offered := OfferedAt(m, e, n, i);
      AcceptedAt(m, e, n, i) == if offered.Full? && ValidDst(offered.packet.dstId) then offered else Empty
  {
    hide Output;
    assert WiresAt(m, e, n).offered[i] == OfferedAt(m, e, n, i);
  }

  /** Second cycle: it stands in the east slot of router 0, presented to endpoint 0. */
  lemma AfterSecond(m: Mesh, m': Mesh)
    requires WellFormedMesh(m) && m' == MeshStep(m, Idle())
    requires forall n: Node :: if n == 1 then HoldsOnly(m[n], LOCAL, FIRST) else Idles(m[n])
    ensures HoldsOnly(m'[0], EAST, FIRST) && Output(m'[0], LOCAL) == Full(FIRST)
  {
    hide Step, Output, Granted, Accepted;
    var e := Idle();
    assert m'[0] == Step(m[0], WiresAt(m, e, 0));
    forall i: Port
      ensures m'[0].slots[i] == (if i == EAST then Full(FIRST) else Empty) && m'[0].rr[i] == LOCAL
    {
      IdleStep(m[0], WiresAt(m, e, 0), i);
      if i == EAST {
        SingleOutputs(m[1], LOCAL, FIRST, WEST);
      } else if i == SOUTH {
        IdleOutputs(m[2], NORTH);
      }
      Takes(m, e, 0, i);
    }
    SingleOutputs(m'[0], EAST, FIRST, LOCAL);
  }

  /** Third cycle: the late packet enters the local slot, which the pointer reaches first. */
  lemma AfterThird(m: Mesh, m': Mesh)
    requires WellFormedMesh(m) && HoldsOnly(m[0], EAST, FIRST) && m' == MeshStep(m, Offer(0, LATE))
    ensures Output(m'[0], LOCAL) == Full(LATE)
  {
    hide Granted, Output;
    var w := WiresAt(m, Offer(0, LATE), 0);
    assert w.offered[LOCAL] == Full(LATE) && !w.ready[LOCAL];
    assert m'[0] == Step(m[0], w);
    SingleOutputs(m[0], EAST, FIRST, LOCAL);
    assert Granted(m[0], LOCAL).To?;
    RequestsWhileStalled(m[0], w, LOCAL, LOCAL);
    assert m'[0].slots[LOCAL] == NextSlot(m[0], w, LOCAL);
    ServedByRoute(m[0], w, LOCAL);
    assert m'[0].rr[LOCAL] == NextPointer(m[0], w, LOCAL);
    LocalFirst(m'[0]);
  }

  lemma LocalFirst(r: Router)
    requires WellFormed(r) && r.rr[LOCAL] == LOCAL && Requests(r, LOCAL, LOCAL)
    ensures Output(r, LOCAL) == r.slots[LOCAL]
  {
    GrantsNearest(r, LOCAL);
  }

  /** The promise fails in the mesh: endpoint 0 is stalled while the packet of endpoint 1 is
      presented to it, and its own late packet takes its place. */
  lemma StalledPacketReplaced() returns (es: seq<Traffic>, e: Traffic)
    ensures !e.ready[0]
    ensures Output(Run(es)[0], LOCAL) == Full(FIRST)
    ensures Output(Run(es + [e])[0], LOCAL) == Full(LATE)
  {
    hide MeshStep, Output, ResetMesh, HoldsOnly, Idles;
    es, e := [Offer(1, FIRST), Idle()], Offer(0, LATE);
    assert (es + [e])[..2] == es && es[..1] == [Offer(1, FIRST)] && [Offer(1, FIRST)][..0] == [];
    assert Run([]) == ResetMesh();
    var m1 := MeshStep(ResetMesh(), Offer(1, FIRST));
    assert Run([Offer(1, FIRST)]) == m1;
    forall n: Node
      ensures if n == 1 then HoldsOnly(m1[n], LOCAL, FIRST) else Idles(m1[n])
    {
      AfterFirst(m1, n);
    }
    AfterSecond(m1, Run(es));
    AfterThird(Run(es), Run(es + [e]));
  }
}

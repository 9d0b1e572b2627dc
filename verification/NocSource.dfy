/** Per-flow order in terms of what the endpoints see: the source and destination fields of
    packets. It needs only that no other endpoint uses the source number of the flow. */
module NocSource {
  import opened NocRouter
  import opened NocMesh
  import opened NocDelivery
  import opened NocOrder

  /** Of the endpoints only s injects packets with source field a. */
  predicate OnlyFrom(e: Traffic, a: nat, s: Node) {
    forall n: Node :: e.inject[n].Full? && e.inject[n].packet.srcId == a ==> n == s
  }

  predicate AlwaysOnlyFrom(es: seq<Traffic>, a: nat, s: Node) {
    forall t :: 0 <= t < |es| ==> OnlyFrom(es[t], a, s)
  }

  /** Every packet with source field a in the mesh was injected by s. */
  ghost predicate NumberTells(m: Mesh, g: Origins, a: nat, s: Node)
    requires WellFormedMesh(m)
  {
    forall n: Node, i: Port :: m[n].slots[i].Full? && m[n].slots[i].packet.srcId == a ==> g[n][i] == s
  }

  lemma StepKeepsNumber(m: Mesh, e: Traffic, g: Origins, a: nat, s: Node)
    requires Reachable(m) && OnlyFrom(e, a, s) && NumberTells(m, g, a, s)
    ensures NumberTells(MeshStep(m, e), NextOrigins(m, e, g), a, s)
  {
    hide Granted, Output, Served, MayHold;
    var m', g' := MeshStep(m, e), NextOrigins(m, e, g);
    forall n: Node, i: Port | m'[n].slots[i].Full? && m'[n].slots[i].packet.srcId == a
      ensures g'[n][i] == s
    {
      assert m'[n].slots[i] == NextSlot(m[n], WiresAt(m, e, n), i);
      assert g'[n][i] == NextOrigin(m, e, g, n, i);
      if AcceptedAt(m, e, n, i).Full? {
        EntersWithNumber(m, e, g, n, i, a, s);
      }
    }
  }

  lemma EntersWithNumber(m: Mesh, e: Traffic, g: Origins, n: Node, i: Port, a: nat, s: Node)
    requires Reachable(m) && OnlyFrom(e, a, s) && NumberTells(m, g, a, s)
    requires AcceptedAt(m, e, n, i).Full? && AcceptedAt(m, e, n, i).packet.srcId == a
    ensures NextOrigin(m, e, g, n, i) == s
  {
    hide Granted, Output;
    if i != LOCAL {
      assert NeighbourOf(n, i).At?;
      PresentedNumber(m, g, NeighbourOf(n, i).node, Opposite(i), a, s);
    }
  }

  lemma PresentedNumber(m: Mesh, g: Origins, k: Node, o: Port, a: nat, s: Node)
    requires WellFormedMesh(m) && NumberTells(m, g, a, s)
    requires Output(m[k], o).Full? && Output(m[k], o).packet.srcId == a
    ensures SourceOf(m, g, k, o) == s
  {
    GrantsNearest(m[k], o);
  }

  lemma {:induction false} RunKeepsNumber(es: seq<Traffic>, a: nat, s: Node)
    requires AlwaysOnlyFrom(es, a, s)
    ensures NumberTells(Run(es), OriginsAfter(es), a, s)
  {
    hide MeshStep, NextOrigins, OnlyFrom;
    if |es| == 0 {
      NoSlotAtReset(a, s);
    } else {
      RunKeepsNumber(es[..|es| - 1], a, s);
      RunIsReachable(es[..|es| - 1]);
      StepKeepsNumber(Run(es[..|es| - 1]), es[|es| - 1], OriginsAfter(es[..|es| - 1]), a, s);
    }
  }

  lemma NoSlotAtReset(a: nat, s: Node)
    ensures NumberTells(ResetMesh(), OriginsAfter([]), a, s)
  {
    forall n: Node, i: Port
      ensures ResetMesh()[n].slots[i] == Empty
    {
    }
  }

  // ----------------------------------------------------------------------
  // Flows by number
  // ----------------------------------------------------------------------

  /** The packets with source field a, in order. */
  function Numbered(ps: seq<Packet>, a: nat): seq<Packet> {
    if |ps| == 0 then []
    else Numbered(ps[..|ps| - 1], a) + (if ps[|ps| - 1].srcId == a then [ps[|ps| - 1]] else [])
  }

  /** What endpoint s has had accepted for d with source field a, and what d has received with it. */
  function SentAs(es: seq<Traffic>, a: nat, s: Node, d: Node): seq<Packet> {
    Numbered(InjectedFlow(es, s, d), a)
  }

  function ReceivedAs(es: seq<Traffic>, a: nat, d: Node): seq<Packet> {
    if |es| == 0 then []
    else ReceivedAs(es[..|es| - 1], a, d) + ReceivedNow(Run(es[..|es| - 1]), es[|es| - 1], a, d)
  }

  function ReceivedNow(m: Mesh, e: Traffic, a: nat, d: Node): seq<Packet>
    requires WellFormedMesh(m)
  {
    var t := SentAt(m, e, d, LOCAL);
    if t.Full? && t.packet.srcId == a then [t.packet] else []
  }

  lemma {:induction false} NumberedSum(ps: seq<Packet>, qs: seq<Packet>, a: nat)
    ensures Numbered(ps + qs, a) == Numbered(ps, a) + Numbered(qs, a)
    ensures |Numbered(qs, a)| <= |qs|
    decreases |qs|
  {
    if |qs| == 0 {
      assert ps + qs == ps;
    } else {
      NumberedSum(ps, qs[..|qs| - 1], a);
      assert (ps + qs)[..|ps + qs| - 1] == ps + qs[..|qs| - 1];
    }
  }

  lemma NumberedOne(p: Packet, a: nat)
    ensures Numbered([p], a) == if p.srcId == a then [p] else []
  {
    assert [p][..0] == [];
  }

  lemma ReceivedIsDelivered(m: Mesh, e: Traffic, g: Origins, a: nat, s: Node, d: Node)
    requires Reachable(m) && NumberTells(m, g, a, s)
    ensures ReceivedNow(m, e, a, d) == Numbered(DeliveredNow(m, e, g, s, d), a)
  {
    hide Granted, Output, MayHold, Numbered;
    var t := SentAt(m, e, d, LOCAL);
    assert Numbered([], a) == [] by {
      NumberedSum([], [], a);
    }
    if t.Full? {
      NumberedOne(t.packet, a);
      OutputMayMove(m, d, LOCAL);
      if t.packet.srcId == a {
        PresentedNumber(m, g, d, LOCAL, a, s);
      }
    }
  }

  lemma {:induction false} ReceivedFlow(es: seq<Traffic>, a: nat, s: Node, d: Node)
    requires AlwaysOnlyFrom(es, a, s)
    ensures ReceivedAs(es, a, d) == Numbered(DeliveredFlow(es, s, d), a)
  {
    hide MeshStep, NextOrigins, OnlyFrom, ReceivedNow, DeliveredNow;
    if |es| > 0 {
      var es', e := es[..|es| - 1], es[|es| - 1];
      ReceivedFlow(es', a, s, d);
      RunIsReachable(es');
      RunKeepsNumber(es', a, s);
      ReceivedIsDelivered(Run(es'), e, OriginsAfter(es'), a, s, d);
      NumberedSum(DeliveredFlow(es', s, d), DeliveredNow(Run(es'), e, OriginsAfter(es'), s, d), a);
    }
  }

  /** For every source number that only one endpoint uses: what endpoint d has received under it is,
      in order, what that endpoint has injected for d under it, but for the at most three packets
      still on the way. */
  lemma ReceivedInOrder(es: seq<Traffic>, a: nat, s: Node, d: Node)
    requires AlwaysOnlyFrom(es, a, s)
    ensures ReceivedAs(es, a, d) <= SentAs(es, a, s, d)
    ensures |SentAs(es, a, s, d)| <= |ReceivedAs(es, a, d)| + 3
  {
    hide Run, OriginsAfter, AlwaysOnlyFrom, ReceivedAs, InjectedFlow, DeliveredFlow, Numbered;
    ReceivedFlow(es, a, s, d);
    PerFlowOrder(es, s, d);
    var flight := InFlight(Run(es), OriginsAfter(es), s, d);
    NumberedSum(DeliveredFlow(es, s, d), flight, a);
  }
}

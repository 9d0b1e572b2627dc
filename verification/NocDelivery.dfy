/** Exactly-once delivery, over every run of the mesh from reset. */
module NocDelivery {
  import opened NocRouter
  import opened NocMesh

  // ----------------------------------------------------------------------
  // Links carry weight from one router to the next
  // ----------------------------------------------------------------------

  function SentAt(m: Mesh, e: Traffic, n: Node, o: Port): Slot
    requires WellFormedMesh(m)
  {
    Sent(m[n], WiresAt(m, e, n), o)
  }

  function AcceptedAt(m: Mesh, e: Traffic, n: Node, i: Port): Slot
    requires WellFormedMesh(m)
  {
    Accepted(m[n], WiresAt(m, e, n), i)
  }

  /** What endpoint n hands to the mesh in one cycle: a packet it offers while its local slot is
      empty, if that is for one of the endpoints 0 to 3. */
  function Taken(m: Mesh, e: Traffic, n: Node): Slot
    requires WellFormedMesh(m)
  {
    var offer := e.inject[n];
    if m[n].slots[LOCAL].Empty? && offer.Full? && offer.packet.dstId < 4 then offer else Empty
  }

  lemma TakenIsAccepted(m: Mesh, e: Traffic, n: Node)
    requires WellFormedMesh(m)
    ensures AcceptedAt(m, e, n, LOCAL) == Taken(m, e, n)
  {
    assert WiresAt(m, e, n).offered[LOCAL] == OfferedAt(m, e, n, LOCAL) == e.inject[n];
  }

  /** An empty local slot holds what its endpoint hands in, and stays empty for any other packet. */
  lemma LocalSlotTakes(m: Mesh, e: Traffic, s: Node)
    requires WellFormedMesh(m) && m[s].slots[LOCAL].Empty?
    ensures e.inject[s].Full? && e.inject[s].packet.dstId < 4 ==> MeshStep(m, e)[s].slots[LOCAL] == e.inject[s]
    ensures e.inject[s].Full? && e.inject[s].packet.dstId >= 4 ==> MeshStep(m, e)[s].slots[LOCAL] == Empty
    ensures e.inject[s].Empty? ==> MeshStep(m, e)[s].slots[LOCAL] == Empty
  {
    hide Granted;
    TakenIsAccepted(m, e, s);
    ServedByRoute(m[s], WiresAt(m, e, s), LOCAL);
    assert MeshStep(m, e)[s].slots[LOCAL] == NextSlot(m[s], WiresAt(m, e, s), LOCAL);
  }

  /** An endpoint receives what its router presents, exactly in the cycles in which it is ready. */
  lemma EndpointReceives(m: Mesh, e: Traffic, n: Node)
    requires WellFormedMesh(m)
    ensures SentAt(m, e, n, LOCAL) == if e.ready[n] then Output(m[n], LOCAL) else Empty
  {
    hide Granted;
    GrantedPresents(m[n], LOCAL);
    assert WiresAt(m, e, n).ready[LOCAL] == ReadyAt(m, e, n, LOCAL) == e.ready[n];
  }

  /** A transfer on an internal link is the same packet leaving one router and entering the
      other; nothing crosses a boundary. */
  lemma LinkCarries(m: Mesh, e: Traffic, n: Node, o: Port)
    requires Reachable(m) && o != LOCAL
    ensures match NeighbourOf(n, o)
      case Boundary => SentAt(m, e, n, o) == Empty && AcceptedAt(m, e, n, o) == Empty
      case At(k) => SentAt(m, e, n, o) == AcceptedAt(m, e, k, Opposite(o))
  {
    hide Granted;
    match NeighbourOf(n, o) {
      case Boundary =>
      case At(k) =>
        assert NeighbourOf(k, Opposite(o)) == At(n) && Opposite(Opposite(o)) == o && Opposite(o) != LOCAL;
        GrantedPresents(m[n], o);
        if Output(m[n], o).Full? {
          OutputMayMove(m, n, o);
        }
    }
  }

  lemma GrantedPresents(r: Router, o: Port)
    requires WellFormed(r)
    ensures Granted(r, o).To? <==> Output(r, o).Full?
  {
    GrantsNearest(r, o);
  }

  function HeldByAll(m: Mesh, f: Packet -> int): int
    requires WellFormedMesh(m)
  {
    Held(m[0], f) + Held(m[1], f) + Held(m[2], f) + Held(m[3], f)
  }

  /** Weight entering at the endpoints, and weight delivered to them, in one cycle. */
  function Injected(m: Mesh, e: Traffic, f: Packet -> int): int
    requires WellFormedMesh(m)
  {
    Weight(f, AcceptedAt(m, e, 0, LOCAL)) + Weight(f, AcceptedAt(m, e, 1, LOCAL))
    + Weight(f, AcceptedAt(m, e, 2, LOCAL)) + Weight(f, AcceptedAt(m, e, 3, LOCAL))
  }

  function Delivered(m: Mesh, e: Traffic, f: Packet -> int): int
    requires WellFormedMesh(m)
  {
    Weight(f, SentAt(m, e, 0, LOCAL)) + Weight(f, SentAt(m, e, 1, LOCAL))
    + Weight(f, SentAt(m, e, 2, LOCAL)) + Weight(f, SentAt(m, e, 3, LOCAL))
  }

  /** One router's balance, with its unwired ports dropped. */
  lemma NodeConserves(m: Mesh, e: Traffic, n: Node, f: Packet -> int)
    requires Reachable(m)
    ensures Held(MeshStep(m, e)[n], f) + Weight(f, SentAt(m, e, n, LOCAL)) + Weight(f, SentAt(m, e, n, HPort(n)))
            + Weight(f, SentAt(m, e, n, VPort(n)))
         == Held(m[n], f) + Weight(f, AcceptedAt(m, e, n, LOCAL)) + Weight(f, AcceptedAt(m, e, n, HPort(n)))
           + Weight(f, AcceptedAt(m, e, n, VPort(n)))
  {
    hide Held, Sent, Accepted, Step;
    var w := WiresAt(m, e, n);
    RouterConserves(m[n], w, f);
    assert MeshStep(m, e)[n] == Step(m[n], w);
    LinkCarries(m, e, n, NORTH);
    LinkCarries(m, e, n, SOUTH);
    LinkCarries(m, e, n, EAST);
    LinkCarries(m, e, n, WEST);
  }

  /** The mesh conserves every measure of packets. */
  lemma MeshConserves(m: Mesh, e: Traffic, f: Packet -> int)
    requires Reachable(m)
    ensures HeldByAll(MeshStep(m, e), f) + Delivered(m, e, f) == HeldByAll(m, f) + Injected(m, e, f)
  {
    hide Held, SentAt, AcceptedAt, MeshStep, Weight;
    NodeConserves(m, e, 0, f);
    NodeConserves(m, e, 1, f);
    NodeConserves(m, e, 2, f);
    NodeConserves(m, e, 3, f);
    forall n: Node
      ensures SentAt(m, e, n, HPort(n)) == AcceptedAt(m, e, HNode(n), HPort(HNode(n)))
      ensures SentAt(m, e, n, VPort(n)) == AcceptedAt(m, e, VNode(n), VPort(VNode(n)))
    {
      LinkCarries(m, e, n, HPort(n));
      LinkCarries(m, e, n, VPort(n));
    }
    assert HNode(0) == 1 && HNode(1) == 0 && HNode(2) == 3 && HNode(3) == 2;
    assert VNode(0) == 2 && VNode(2) == 0 && VNode(1) == 3 && VNode(3) == 1;
  }

  // ----------------------------------------------------------------------
  // Exactly once
  // ----------------------------------------------------------------------

  function Bag(s: Slot): multiset<Packet> {
    if s.Full? then multiset{s.packet} else multiset{}
  }

  function RouterBag(r: Router): multiset<Packet>
    requires WellFormed(r)
  {
    Bag(r.slots[0]) + Bag(r.slots[1]) + Bag(r.slots[2]) + Bag(r.slots[3]) + Bag(r.slots[4])
  }

  /** Packets in the slots of the mesh. */
  function InSlots(m: Mesh): multiset<Packet>
    requires WellFormedMesh(m)
  {
    RouterBag(m[0]) + RouterBag(m[1]) + RouterBag(m[2]) + RouterBag(m[3])
  }

  /** Packets with a valid destination accepted, and packets handed over, at the endpoints in one cycle. */
  function AcceptedBag(m: Mesh, e: Traffic): multiset<Packet>
    requires WellFormedMesh(m)
  {
    Bag(Taken(m, e, 0)) + Bag(Taken(m, e, 1)) + Bag(Taken(m, e, 2)) + Bag(Taken(m, e, 3))
  }

  function DeliveredBag(m: Mesh, e: Traffic): multiset<Packet>
    requires WellFormedMesh(m)
  {
    Bag(SentAt(m, e, 0, LOCAL)) + Bag(SentAt(m, e, 1, LOCAL)) + Bag(SentAt(m, e, 2, LOCAL))
      + Bag(SentAt(m, e, 3, LOCAL))
  }

  /** The same over a run. */
  function AcceptedPackets(es: seq<Traffic>): multiset<Packet> {
    if |es| == 0 then multiset{}
    else AcceptedPackets(es[..|es| - 1]) + AcceptedBag(Run(es[..|es| - 1]), es[|es| - 1])
  }

  function DeliveredPackets(es: seq<Traffic>): multiset<Packet> {
    if |es| == 0 then multiset{}
    else DeliveredPackets(es[..|es| - 1]) + DeliveredBag(Run(es[..|es| - 1]), es[|es| - 1])
  }

  function Is(p: Packet): Packet -> int {
    q => if q == p then 1 else 0
  }

  lemma BagCounts(s: Slot, p: Packet)
    ensures Bag(s)[p] == Weight(Is(p), s)
  {
  }

  lemma InSlotsCounts(m: Mesh, p: Packet)
    requires WellFormedMesh(m)
    ensures InSlots(m)[p] == HeldByAll(m, Is(p))
  {
    hide Weight, Bag;
    forall s: Slot
      ensures Bag(s)[p] == Weight(Is(p), s)
    {
      BagCounts(s, p);
    }
    forall n: Node
      ensures RouterBag(m[n])[p] == Held(m[n], Is(p))
    {
    }
  }

  /** One cycle, packet by packet. */
  lemma CycleConserves(m: Mesh, e: Traffic)
    requires Reachable(m)
    ensures InSlots(MeshStep(m, e)) + DeliveredBag(m, e) == InSlots(m) + AcceptedBag(m, e)
  {
    hide Weight, Bag, InSlots, HeldByAll, SentAt, AcceptedAt, Taken, MeshStep, Is;
    forall n: Node
      ensures AcceptedAt(m, e, n, LOCAL) == Taken(m, e, n)
    {
      TakenIsAccepted(m, e, n);
    }
    forall p: Packet
      ensures InSlots(MeshStep(m, e))[p] + DeliveredBag(m, e)[p] == InSlots(m)[p] + AcceptedBag(m, e)[p]
    {
      forall s: Slot
        ensures Bag(s)[p] == Weight(Is(p), s)
      {
        BagCounts(s, p);
      }
      MeshConserves(m, e, Is(p));
      InSlotsCounts(m, p);
      InSlotsCounts(MeshStep(m, e), p);
    }
  }

  /** Exactly-once delivery: at every moment of every run, the packets accepted so far are those
      still in slots together with those delivered, each counted as often as it was accepted. */
  lemma {:induction false} ExactlyOnce(es: seq<Traffic>)
    ensures AcceptedPackets(es) == InSlots(Run(es)) + DeliveredPackets(es)
  {
    hide InSlots, MeshStep, ResetMesh, AcceptedBag, DeliveredBag;
    if |es| == 0 {
      NothingAtReset();
    } else {
      ExactlyOnce(es[..|es| - 1]);
      RunIsReachable(es[..|es| - 1]);
      var m, e := Run(es[..|es| - 1]), es[|es| - 1];
      CycleConserves(m, e);
      Rebalance(AcceptedPackets(es[..|es| - 1]), AcceptedBag(m, e), InSlots(m), InSlots(Run(es)),
                DeliveredPackets(es[..|es| - 1]), DeliveredBag(m, e));
    }
  }

  lemma Rebalance<T>(a: multiset<T>, a': multiset<T>, i: multiset<T>, i': multiset<T>, d: multiset<T>, d': multiset<T>)
    requires a == i + d && i' + d' == i + a'
    ensures a + a' == i' + (d + d')
  {
    assert a + a' == (i + a') + d;
    assert (i' + d') + d == i' + (d + d');
  }

  lemma NothingAtReset()
    ensures InSlots(ResetMesh()) == multiset{}
  {
    hide RouterBag;
    forall n: Node
      ensures RouterBag(ResetMesh()[n]) == multiset{}
    {
      EmptyRouter(X(n), Y(n));
    }
  }

  lemma EmptyRouter(x: nat, y: nat)
    requires x < 2 && y < 2
    ensures RouterBag(Reset(x, y)) == multiset{}
  {
  }

  /** A packet is delivered only at the endpoint it is addressed to. */
  lemma DeliveredAtDestination(es: seq<Traffic>, e: Traffic, n: Node)
    ensures SentAt(Run(es), e, n, LOCAL).Full? ==> SentAt(Run(es), e, n, LOCAL).packet.dstId == n
  {
    RunIsReachable(es);
    if SentAt(Run(es), e, n, LOCAL).Full? {
      OutputMayMove(Run(es), n, LOCAL);
    }
  }
}

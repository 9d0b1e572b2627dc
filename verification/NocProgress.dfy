/** The mesh cannot deadlock, empties once its endpoints have been ready often enough, and serves
    every waiting slot within three ready cycles of its output. */
module NocProgress {
  import opened Powers
  import opened NocRouter
  import opened NocMesh
  import opened NocDelivery
  import opened NocService

  /** Links still to cross from node n to destination d. */
  function Hops(n: Node, d: DstId): nat {
    Abs(DstX(d) - X(n)) + Abs(DstY(d) - Y(n))
  }

  /** Transfers a packet at node n still needs, the delivery included. */
  function Remaining(n: Node): Packet -> int {
    (q: Packet) => Hops(n, q.dstId) + 1
  }

  function Potential(m: Mesh): int
    requires WellFormedMesh(m)
  {
    Held(m[0], Remaining(0)) + Held(m[1], Remaining(1)) + Held(m[2], Remaining(2)) + Held(m[3], Remaining(3))
  }

  /** Work that the endpoints add in one cycle. */
  function InjectedWork(m: Mesh, e: Traffic): int
    requires WellFormedMesh(m)
  {
    Weight(Remaining(0), AcceptedAt(m, e, 0, LOCAL)) + Weight(Remaining(1), AcceptedAt(m, e, 1, LOCAL))
    + Weight(Remaining(2), AcceptedAt(m, e, 2, LOCAL)) + Weight(Remaining(3), AcceptedAt(m, e, 3, LOCAL))
  }

  function Fires(m: Mesh, e: Traffic, n: Node, o: Port): int
    requires WellFormedMesh(m)
  {
    if Transfers(m[n], WiresAt(m, e, n), o) then 1 else 0
  }

  function NodeTransfers(m: Mesh, e: Traffic, n: Node): int
    requires WellFormedMesh(m)
  {
    Fires(m, e, n, LOCAL) + Fires(m, e, n, NORTH) + Fires(m, e, n, SOUTH) + Fires(m, e, n, EAST) + Fires(m, e, n, WEST)
  }

  /** Transfers of all routers on one edge. */
  function TransferCount(m: Mesh, e: Traffic): int
    requires WellFormedMesh(m)
  {
    NodeTransfers(m, e, 0) + NodeTransfers(m, e, 1) + NodeTransfers(m, e, 2) + NodeTransfers(m, e, 3)
  }

  /** Crossing a link, or being delivered, is one transfer less to go. */
  lemma TransferPays(m: Mesh, e: Traffic, n: Node, o: Port)
    requires Reachable(m)
    ensures o == LOCAL ==> Weight(Remaining(n), SentAt(m, e, n, o)) == Fires(m, e, n, o)
    ensures o != LOCAL && NeighbourOf(n, o).At? ==>
      Weight(Remaining(n), SentAt(m, e, n, o)) ==
      Weight(Remaining(NeighbourOf(n, o).node), AcceptedAt(m, e, NeighbourOf(n, o).node, Opposite(o)))
        + Fires(m, e, n, o)
    ensures o != LOCAL && NeighbourOf(n, o).Boundary? ==> Fires(m, e, n, o) == 0
  {
    hide Granted, AcceptedAt, Remaining;
    GrantedPresents(m[n], o);
    if o != LOCAL {
      LinkCarries(m, e, n, o);
    }
    if SentAt(m, e, n, o).Full? {
      OutputMayMove(m, n, o);
      HopCloser(m, n, o);
    }
  }

  lemma HopCloser(m: Mesh, n: Node, o: Port)
    requires Reachable(m) && Output(m[n], o).Full?
    ensures var q := Output(m[n], o).packet;
      if o == LOCAL then Remaining(n)(q) == 1
      else NeighbourOf(n, o).At? && Remaining(n)(q) == Remaining(NeighbourOf(n, o).node)(q) + 1
  {
    hide Granted, Hops, CalcRoute, NeighbourOf, MayHold;
    GrantsNearest(m[n], o);
    var i := Granted(m[n], o).input;
    assert MayHold(n, i, m[n].slots[i].packet.dstId);
    RouteGetsCloser(n, i, m[n].slots[i].packet.dstId);
  }

  lemma RouteGetsCloser(n: Node, i: Port, d: DstId)
    requires MayHold(n, i, d)
    ensures var o := CalcRoute(X(n), Y(n), d);
      if o == LOCAL then Hops(n, d) == 0
      else NeighbourOf(n, o).At? && Hops(n, d) == Hops(NeighbourOf(n, o).node, d) + 1
  {
    hide CalcRoute, NeighbourOf, HPort, VPort, HNode, VNode, X, Y;
    RouteByCoordinate(n, d);
    WiredNeighbours(n);
    Coordinates(n, d);
  }

  lemma NodePotential(m: Mesh, e: Traffic, n: Node)
    requires Reachable(m)
    ensures Held(MeshStep(m, e)[n], Remaining(n)) + NodeTransfers(m, e, n)
            + Weight(Remaining(HNode(n)), AcceptedAt(m, e, HNode(n), HPort(HNode(n))))
            + Weight(Remaining(VNode(n)), AcceptedAt(m, e, VNode(n), VPort(VNode(n))))
         == Held(m[n], Remaining(n)) + Weight(Remaining(n), AcceptedAt(m, e, n, LOCAL))
            + Weight(Remaining(n), AcceptedAt(m, e, n, HPort(n))) + Weight(Remaining(n), AcceptedAt(m, e, n, VPort(n)))
  {
    hide Held, SentAt, AcceptedAt, MeshStep, Weight, Remaining, Fires;
    NodeConserves(m, e, n, Remaining(n));
    TransferPays(m, e, n, LOCAL);
    TransferPays(m, e, n, NORTH);
    TransferPays(m, e, n, SOUTH);
    TransferPays(m, e, n, EAST);
    TransferPays(m, e, n, WEST);
  }

  /** Every transfer in every cycle brings the mesh exactly one closer to empty. */
  lemma PotentialStep(m: Mesh, e: Traffic)
    requires Reachable(m)
    ensures Potential(MeshStep(m, e)) + TransferCount(m, e) == Potential(m) + InjectedWork(m, e)
  {
    hide Held, AcceptedAt, MeshStep, Weight, Remaining, NodeTransfers;
    NodePotential(m, e, 0);
    NodePotential(m, e, 1);
    NodePotential(m, e, 2);
    NodePotential(m, e, 3);
    assert HNode(0) == 1 && HNode(1) == 0 && HNode(2) == 3 && HNode(3) == 2;
    assert VNode(0) == 2 && VNode(2) == 0 && VNode(1) == 3 && VNode(3) == 1;
  }

  predicate IsEmpty(m: Mesh)
    requires WellFormedMesh(m)
  {
    forall n: Node, i: Port :: m[n].slots[i].Empty?
  }

  ghost predicate SomeTransfer(m: Mesh, e: Traffic)
    requires WellFormedMesh(m)
  {
    exists n: Node, o: Port :: Transfers(m[n], WiresAt(m, e, n), o)
  }

  /** Whatever else the endpoints do, something transfers in a cycle in which endpoint k is ready. */
  ghost predicate Unblocks(m: Mesh, k: Node)
    requires WellFormedMesh(m)
  {
    forall e: Traffic :: e.ready[k] ==> SomeTransfer(m, e)
  }

  /** A full slot whose next place is a free slot, or its ready endpoint, makes some output transfer. */
  lemma RequestFires(m: Mesh, e: Traffic, n: Node, i: Port)
    requires Reachable(m) && m[n].slots[i].Full? && e.ready[n]
    requires i == LOCAL ==> m[HNode(n)].slots[HPort(HNode(n))].Empty? && m[VNode(n)].slots[VPort(VNode(n))].Empty?
    requires i == HPort(n) ==> m[VNode(n)].slots[VPort(VNode(n))].Empty?
    ensures SomeTransfer(m, e)
  {
    hide Granted, Served;
    var d := m[n].slots[i].packet.dstId;
    assert MayHold(n, i, d);
    var o := CalcRoute(X(n), Y(n), d);
    assert Requests(m[n], o, i);
    GrantsNearest(m[n], o);
    assert ReadyAt(m, e, n, o);
    assert WiresAt(m, e, n).ready[o] == ReadyAt(m, e, n, o);
    assert Transfers(m[n], WiresAt(m, e, n), o);
  }

  /** No deadlock: in an occupied mesh there is an endpoint whose readiness alone makes something
      transfer, whatever is injected and whoever else stalls. */
  lemma NoDeadlock(m: Mesh)
    requires Reachable(m) && !IsEmpty(m)
    ensures exists k: Node :: Unblocks(m, k)
  {
    hide SomeTransfer;
    var n: Node, i: Port :| m[n].slots[i].Full?;
    assert MayHold(n, i, m[n].slots[i].packet.dstId);
    if v: Node :| m[v].slots[VPort(v)].Full? {
      n, i := v, VPort(v);
    } else if h: Node :| m[h].slots[HPort(h)].Full? {
      n, i := h, HPort(h);
    }
    Coordinates(n, 0);
    forall e: Traffic | e.ready[n]
      ensures SomeTransfer(m, e)
    {
      RequestFires(m, e, n, i);
    }
    assert Unblocks(m, n);
  }

  lemma TransfersCounted(m: Mesh, e: Traffic, n: Node, o: Port)
    requires WellFormedMesh(m) && Transfers(m[n], WiresAt(m, e, n), o)
    ensures TransferCount(m, e) >= 1
  {
    hide Transfers, WiresAt;
    assert Fires(m, e, n, o) == 1;
  }

  /** At most twelve slots are occupied, and no packet needs more than its port allows. */
  lemma PotentialBound(m: Mesh)
    requires Reachable(m)
    ensures 0 <= Potential(m) <= 24
    ensures Potential(m) == 0 <==> IsEmpty(m)
  {
    hide Held;
    NodeBound(m, 0);
    NodeBound(m, 1);
    NodeBound(m, 2);
    NodeBound(m, 3);
  }

  lemma NodeBound(m: Mesh, n: Node)
    requires Reachable(m)
    ensures 0 <= Held(m[n], Remaining(n)) <= 6
    ensures Held(m[n], Remaining(n)) == 0 <==> forall i: Port :: m[n].slots[i].Empty?
  {
    hide Hops;
    HopBounds(n);
    forall i: Port
      ensures m[n].slots[i].Full? ==> i == LOCAL || i == HPort(n) || i == VPort(n)
      ensures m[n].slots[i].Full? ==> 1 <= Remaining(n)(m[n].slots[i].packet) <= HopsFrom(n, i) + 1
    {
      if m[n].slots[i].Full? {
        assert MayHold(n, i, m[n].slots[i].packet.dstId);
      }
    }
  }

  /** No more hops than these follow a slot. */
  function HopsFrom(n: Node, i: Port): nat {
    if i == LOCAL then 2 else if i == HPort(n) then 1 else 0
  }

  lemma HopBounds(n: Node)
    ensures forall i: Port, d: DstId :: MayHold(n, i, d) ==> Hops(n, d) <= HopsFrom(n, i)
  {
    forall i: Port, d: DstId | MayHold(n, i, d)
      ensures Hops(n, d) <= HopsFrom(n, i)
    {
      hide HPort, VPort, X, Y;
      Coordinates(n, d);
      Coordinates(d, d);
      if i == VPort(n) && i != LOCAL && i != HPort(n) {
        SelfCoordinates(n);
      }
    }
  }

  lemma TransfersNonNegative(m: Mesh, e: Traffic)
    requires WellFormedMesh(m)
    ensures TransferCount(m, e) >= 0
  {
  }

  // ----------------------------------------------------------------------
  // Rounds
  // ----------------------------------------------------------------------

  /** Rounds completed so far, and the endpoints that have been ready in the current one. */
  datatype Tally = Tally(rounds: nat, seen: set<Node>)

  function Ready(e: Traffic): set<Node> {
    set n: Node | n < 4 && e.ready[n]
  }

  function Count(t: Tally, e: Traffic): Tally {
    var seen := t.seen + Ready(e);
    if seen == {0, 1, 2, 3} then Tally(t.rounds + 1, {}) else Tally(t.rounds, seen)
  }

  function TallyOf(es: seq<Traffic>): Tally {
    if |es| == 0 then Tally(0, {}) else Count(TallyOf(es[..|es| - 1]), es[|es| - 1])
  }

  /** How many times over every endpoint has been ready: a round ends with the cycle by which each
      endpoint has been ready in it at least once. */
  function Rounds(es: seq<Traffic>): nat {
    TallyOf(es).rounds
  }

  predicate AllReady(e: Traffic) {
    e.ready[0] && e.ready[1] && e.ready[2] && e.ready[3]
  }

  /** Cycles in which all endpoints are ready. */
  function ReadyCount(es: seq<Traffic>): nat {
    if |es| == 0 then 0 else ReadyCount(es[..|es| - 1]) + (if AllReady(es[|es| - 1]) then 1 else 0)
  }

  /** Each cycle in which all endpoints are ready completes a round. */
  lemma {:induction false} ReadyCyclesAreRounds(es: seq<Traffic>)
    ensures ReadyCount(es) <= Rounds(es)
  {
    if |es| > 0 {
      var t, e := TallyOf(es[..|es| - 1]), es[|es| - 1];
      ReadyCyclesAreRounds(es[..|es| - 1]);
      if AllReady(e) {
        assert t.seen + Ready(e) == {0, 1, 2, 3};
      }
    }
  }

  // ----------------------------------------------------------------------
  // Draining
  // ----------------------------------------------------------------------

  predicate NoInjection(e: Traffic) {
    forall n: Node :: e.inject[n].Empty?
  }

  lemma NothingAdded(m: Mesh, e: Traffic)
    requires WellFormedMesh(m) && NoInjection(e)
    ensures InjectedWork(m, e) == 0
  {
    hide AcceptedAt, Remaining;
    forall n: Node
      ensures AcceptedAt(m, e, n, LOCAL) == Empty
    {
      NothingOffered(m, e, n);
    }
  }

  lemma NothingOffered(m: Mesh, e: Traffic, n: Node)
    requires WellFormedMesh(m) && NoInjection(e)
    ensures AcceptedAt(m, e, n, LOCAL) == Empty
  {
    assert WiresAt(m, e, n).offered[LOCAL] == OfferedAt(m, e, n, LOCAL) == Empty;
  }

  /** Without a transfer and without injections a cycle changes nothing. */
  lemma Frozen(m: Mesh, e: Traffic)
    requires Reachable(m) && NoInjection(e) && !SomeTransfer(m, e)
    ensures MeshStep(m, e) == m
  {
    hide Granted, Output, Step;
    forall n: Node
      ensures Step(m[n], WiresAt(m, e, n)) == m[n]
    {
      forall i: Port
        ensures AcceptedAt(m, e, n, i) == Empty && !Transfers(m[n], WiresAt(m, e, n), i)
      {
        NothingEnters(m, e, n, i);
      }
      IdleRouter(m[n], WiresAt(m, e, n));
    }
    assert MeshStep(m, e) == m;
  }

  lemma NothingEnters(m: Mesh, e: Traffic, n: Node, i: Port)
    requires Reachable(m) && NoInjection(e) && !SomeTransfer(m, e)
    ensures AcceptedAt(m, e, n, i) == Empty
  {
    hide Granted, Output, Transfers;
    if i == LOCAL {
      NothingOffered(m, e, n);
    } else if NeighbourOf(n, i).At? {
      var k := NeighbourOf(n, i).node;
      assert NeighbourOf(k, Opposite(i)) == At(n) && Opposite(Opposite(i)) == i && Opposite(i) != LOCAL;
      LinkCarries(m, e, k, Opposite(i));
    }
  }

  lemma IdleRouter(r: Router, w: Wires)
    requires WellFormed(r) && WellFormedWires(w)
    requires forall i: Port :: !Transfers(r, w, i) && (InTransfer(r, w, i) ==> !ValidDst(w.offered[i].packet.dstId))
    ensures Step(r, w) == r
  {
    hide Granted;
    forall i: Port
      ensures NextSlot(r, w, i) == r.slots[i] && NextPointer(r, w, i) == r.rr[i]
    {
    }
    assert Step(r, w).slots == r.slots && Step(r, w).rr == r.rr;
  }

  /** The transfers still needed, and the rounds counted so far, fit in 24; when they only just do,
      the endpoint that the mesh waits for has not been ready in the current round. */
  ghost predicate DrainBound(m: Mesh, t: Tally)
    requires WellFormedMesh(m)
  {
    var needed := Potential(m) + t.rounds;
    IsEmpty(m) || (needed <= 24 && (needed == 24 ==> exists k: Node :: k !in t.seen && Unblocks(m, k)))
  }

  lemma DrainStep(m: Mesh, e: Traffic, t: Tally)
    requires Reachable(m) && NoInjection(e) && DrainBound(m, t)
    ensures DrainBound(MeshStep(m, e), Count(t, e))
  {
    hide Potential, MeshStep, TransferCount, InjectedWork, IsEmpty, Transfers, Unblocks, SomeTransfer;
    var m' := MeshStep(m, e);
    StepStaysReachable(m, e);
    PotentialStep(m, e);
    NothingAdded(m, e);
    TransfersNonNegative(m, e);
    PotentialBound(m);
    PotentialBound(m');
    if !IsEmpty(m') {
      NoDeadlock(m');
      if SomeTransfer(m, e) {
        TransferFires(m, e);
      } else {
        Frozen(m, e);
        forall k: Node | Unblocks(m, k)
          ensures k !in Ready(e)
        {
          if e.ready[k] {
            Unblocked(m, e, k);
          }
        }
      }
    }
  }

  lemma TransferFires(m: Mesh, e: Traffic)
    requires WellFormedMesh(m) && SomeTransfer(m, e)
    ensures TransferCount(m, e) >= 1
  {
    hide Transfers, TransferCount;
    var n: Node, o: Port :| Transfers(m[n], WiresAt(m, e, n), o);
    TransfersCounted(m, e, n, o);
  }

  lemma Unblocked(m: Mesh, e: Traffic, k: Node)
    requires WellFormedMesh(m) && Unblocks(m, k) && e.ready[k]
    ensures SomeTransfer(m, e)
  {
    hide SomeTransfer;
  }

  lemma {:induction false} DrainsAlong(es: seq<Traffic>, next: seq<Traffic>)
    requires forall t :: 0 <= t < |next| ==> NoInjection(next[t])
    ensures DrainBound(Run(es + next), TallyOf(next))
  {
    hide DrainBound, MeshStep, NoInjection, Count;
    if |next| == 0 {
      assert es + next == es;
      DrainStart(es);
    } else {
      var before, e := next[..|next| - 1], next[|next| - 1];
      DrainsAlong(es, before);
      RunIsReachable(es + before);
      assert (es + next)[..|es + next| - 1] == es + before;
      DrainStep(Run(es + before), e, TallyOf(before));
    }
  }

  lemma DrainStart(es: seq<Traffic>)
    ensures DrainBound(Run(es), Tally(0, {}))
  {
    hide Potential, IsEmpty, Unblocks, Run;
    RunIsReachable(es);
    PotentialBound(Run(es));
    if !IsEmpty(Run(es)) {
      NoDeadlock(Run(es));
    }
  }

  /** From any state of any run, a continuation without injections in which every endpoint has been
      ready 24 times over leaves the mesh empty, however the endpoints stall in between. */
  lemma DrainsWithin24(es: seq<Traffic>, next: seq<Traffic>)
    requires (forall t :: 0 <= t < |next| ==> NoInjection(next[t])) && Rounds(next) >= 24
    ensures IsEmpty(Run(es + next))
  {
    hide Potential, IsEmpty, Unblocks, Run, TallyOf, NoInjection;
    DrainsAlong(es, next);
    RunIsReachable(es + next);
    PotentialBound(Run(es + next));
    if !IsEmpty(Run(es + next)) {
      AtMostAllBut(TallyOf(next), Run(es + next));
    }
  }

  lemma AtMostAllBut(t: Tally, m: Mesh)
    requires Reachable(m) && DrainBound(m, t) && !IsEmpty(m)
    ensures t.rounds < 24
  {
    hide Potential, IsEmpty, Unblocks;
    PotentialBound(m);
  }

  // ----------------------------------------------------------------------
  // Bounded service in the mesh
  // ----------------------------------------------------------------------

  /** In every reachable state an output has at most three requesters. */
  lemma AtMostThreeRequesters(m: Mesh, n: Node, o: Port, j: Port)
    requires Reachable(m) && Requests(m[n], o, j)
    ensures j == LOCAL || j == HPort(n) || j == VPort(n)
  {
    assert MayHold(n, j, m[n].slots[j].packet.dstId);
  }

  /** The states of one router, and its wires, while traffic next follows traffic es. */
  function NodeStates(es: seq<Traffic>, next: seq<Traffic>, n: Node): seq<Router> {
    seq(|next| + 1, t requires 0 <= t <= |next| => Run(es + next[..t])[n])
  }

  function NodeWires(es: seq<Traffic>, next: seq<Traffic>, n: Node): (ws: seq<Wires>)
    ensures forall t :: 0 <= t < |ws| ==> WellFormedWires(ws[t])
  {
    seq(|next|, t requires 0 <= t < |next| => WiresAt(Run(es + next[..t]), next[t], n))
  }

  lemma NodeRuns(es: seq<Traffic>, next: seq<Traffic>, n: Node)
    ensures IsRun(NodeStates(es, next, n), NodeWires(es, next, n))
  {
    hide Step, WiresAt, Run, WellFormedWires;
    var rs, ws := NodeStates(es, next, n), NodeWires(es, next, n);
    forall t | 0 <= t < |ws|
      ensures rs[t + 1] == Step(rs[t], ws[t])
    {
      RunExtends(es, next, t, n);
    }
  }

  lemma RunExtends(es: seq<Traffic>, next: seq<Traffic>, t: nat, n: Node)
    requires t < |next|
    ensures Run(es + next[..t + 1])[n] == Step(Run(es + next[..t])[n], WiresAt(Run(es + next[..t]), next[t], n))
  {
    hide Step, WiresAt;
    var longer := es + next[..t + 1];
    assert longer[..|longer| - 1] == es + next[..t] && longer[|longer| - 1] == next[t];
  }

  /** A slot waiting for an output is served no later than the third cycle in which that output
      is ready: over any stretch of any run in which it is not served, there are at most two. */
  lemma MeshServesWithinThree(es: seq<Traffic>, next: seq<Traffic>, n: Node, o: Port, i: Port)
    requires forall t :: 0 <= t < |next| ==>
      Requests(NodeStates(es, next, n)[t], o, i) && !Served(NodeStates(es, next, n)[t], NodeWires(es, next, n)[t], i)
    ensures ReadyCycles(NodeWires(es, next, n), o) <= 2
  {
    hide Requests, Served, Run, MeshStep, WiresAt, Reachable;
    if |next| > 0 {
      var rs, ws := NodeStates(es, next, n), NodeWires(es, next, n);
      NodeRuns(es, next, n);
      var allowed: set<Port> := {LOCAL, HPort(n), VPort(n)};
      forall t, j: Port | 0 <= t < |ws| && Requests(rs[t], o, j)
        ensures j in allowed
      {
        RunIsReachable(es + next[..t]);
        AtMostThreeRequesters(Run(es + next[..t]), n, o, j);
      }
      assert Requests(rs[0], o, i);
      BoundedWait(rs, ws, o, i, allowed);
      assert |allowed| == 3;
    }
  }
}

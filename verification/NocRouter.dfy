/** rtl/noc_router.sv as a state machine on values: five one-slot input buffers, XY
    routing, and one round-robin pointer per output. Directions and port indices have
    the same codes in the design, 0 for local up to 4 for west, so both are a Port. */
module NocRouter {

  type Port = p: nat | p < 5

  const LOCAL: Port := 0
  const NORTH: Port := 1
  const SOUTH: Port := 2
  const EAST: Port := 3
  const WEST: Port := 4

  type DstId = d: nat | d < 8

  datatype Packet = Packet(srcId: nat, dstId: DstId, txnId: nat, payload: nat)

  datatype Slot = Empty | Full(packet: Packet)

  /** x and y are the router's coordinates, slots its input buffers, rr its pointers. */
  datatype Router = Router(x: nat, y: nat, slots: seq<Slot>, rr: seq<Port>)

  predicate WellFormed(r: Router) {
    r.x < 2 && r.y < 2 && |r.slots| == 5 && |r.rr| == 5
  }

  predicate ValidDst(d: DstId) {
    d <= 3
  }

  function DstX(d: DstId): nat {
    if d == 1 || d == 3 then 1 else 0
  }

  function DstY(d: DstId): nat {
    if d == 2 || d == 3 then 1 else 0
  }

  /** calc_route: first along x, then along y. */
  function CalcRoute(x: nat, y: nat, d: DstId): Port {
    if DstX(d) > x then EAST
    else if DstX(d) < x then WEST
    else if DstY(d) > y then SOUTH
    else if DstY(d) < y then NORTH
    else LOCAL
  }

  function NextRr(served: Port): Port {
    if served == WEST then LOCAL else served + 1
  }

  /** Input i requests output o. */
  predicate Requests(r: Router, o: Port, i: Port)
    requires WellFormed(r)
  {
    r.slots[i].Full? && CalcRoute(r.x, r.y, r.slots[i].packet.dstId) == o
  }

  /** Steps from pointer start to port i in the scanning order. */
  function Distance(start: Port, i: Port): (d: nat)
    ensures d < 5
  {
    if i >= start then i - start else i + 5 - start
  }

  /** (start_idx + offset) % N_INPUTS. */
  function Candidate(start: Port, offset: nat): (i: Port)
    requires offset < 5
    ensures Distance(start, i) == offset
  {
    (start + offset) % 5
  }

  datatype Grant = NoGrant | To(input: Port)

  /** The arbiter scans the inputs cyclically from the pointer and takes the first request. */
  function Scan(r: Router, o: Port, offset: nat): Grant
    requires WellFormed(r) && offset <= 5
    decreases 5 - offset
  {
    if offset == 5 then NoGrant
    else if Requests(r, o, Candidate(r.rr[o], offset)) then To(Candidate(r.rr[o], offset))
    else Scan(r, o, offset + 1)
  }

  function Granted(r: Router, o: Port): Grant
    requires WellFormed(r)
  {
    Scan(r, o, 0)
  }

  /** The packet an output presents: valid when some input is granted. */
  function Output(r: Router, o: Port): Slot
    requires WellFormed(r)
  {
    match Granted(r, o)
    case NoGrant => Empty
    case To(i) => r.slots[i]
  }

  /** Packets offered on the five inputs, and readiness of the five outputs. */
  datatype Wires = Wires(offered: seq<Slot>, ready: seq<bool>)

  predicate WellFormedWires(w: Wires) {
    |w.offered| == 5 && |w.ready| == 5
  }

  /** The granted packet leaves through output o on this edge. */
  predicate Transfers(r: Router, w: Wires, o: Port)
    requires WellFormed(r) && WellFormedWires(w)
  {
    Granted(r, o).To? && w.ready[o]
  }

  predicate Served(r: Router, w: Wires, i: Port)
    requires WellFormed(r) && WellFormedWires(w)
  {
    exists o: Port :: Transfers(r, w, o) && Granted(r, o) == To(i)
  }

  /** The handshake on input i completes: it is ready exactly when its slot is empty. */
  predicate InTransfer(r: Router, w: Wires, i: Port)
    requires WellFormed(r) && WellFormedWires(w)
  {
    w.offered[i].Full? && r.slots[i].Empty?
  }

  function NextSlot(r: Router, w: Wires, i: Port): Slot
    requires WellFormed(r) && WellFormedWires(w)
  {
    if InTransfer(r, w, i) && !ValidDst(w.offered[i].packet.dstId) then Empty
    else if Served(r, w, i) then Empty
    else if InTransfer(r, w, i) then w.offered[i]
    else r.slots[i]
  }

  function NextPointer(r: Router, w: Wires, o: Port): Port
    requires WellFormed(r) && WellFormedWires(w)
  {
    if Transfers(r, w, o) then NextRr(Granted(r, o).input) else r.rr[o]
  }

  /** One clock edge out of reset. */
  function Step(r: Router, w: Wires): (r': Router)
    requires WellFormed(r) && WellFormedWires(w)
    ensures WellFormed(r')
  {
    Router(r.x, r.y, seq(5, i requires 0 <= i < 5 => NextSlot(r, w, i)),
           seq(5, o requires 0 <= o < 5 => NextPointer(r, w, o)))
  }

  function Reset(x: nat, y: nat): Router {
    Router(x, y, [Empty, Empty, Empty, Empty, Empty], [LOCAL, LOCAL, LOCAL, LOCAL, LOCAL])
  }

  // ----------------------------------------------------------------------
  // Arbitration
  // ----------------------------------------------------------------------

  /** i is the first requester met when scanning on from the given offset. */
  ghost predicate FirstFrom(r: Router, o: Port, offset: nat, i: Port)
    requires WellFormed(r)
  {
    var start := r.rr[o];
    && Requests(r, o, i) && offset <= Distance(start, i)
    && forall j: Port :: Requests(r, o, j) && offset <= Distance(start, j) ==> Distance(start, i) <= Distance(start, j)
  }

  lemma {:induction false} ScanFirst(r: Router, o: Port, offset: nat)
    requires WellFormed(r) && offset <= 5
    ensures Scan(r, o, offset).To? ==> FirstFrom(r, o, offset, Scan(r, o, offset).input)
    ensures Scan(r, o, offset).NoGrant? ==> forall j: Port :: Requests(r, o, j) ==> Distance(r.rr[o], j) < offset
    decreases 5 - offset
  {
    hide Requests, Candidate;
    if offset < 5 {
      var c := Candidate(r.rr[o], offset);
      SameDistance(r.rr[o], c);
      if !Requests(r, o, c) {
        ScanFirst(r, o, offset + 1);
      }
    }
  }

  lemma SameDistance(start: Port, i: Port)
    ensures forall j: Port :: Distance(start, j) == Distance(start, i) ==> j == i
  {
  }

  /** An output grants the requester nearest its pointer, and grants whenever there is one. */
  lemma GrantsNearest(r: Router, o: Port)
    requires WellFormed(r)
    ensures Granted(r, o).To? <==> exists i: Port :: Requests(r, o, i)
    ensures forall i: Port :: Granted(r, o) == To(i) <==>
      Requests(r, o, i) && forall j: Port :: Requests(r, o, j) ==> Distance(r.rr[o], i) <= Distance(r.rr[o], j)
  {
    hide Requests, Scan;
    ScanFirst(r, o, 0);
    if Granted(r, o).To? {
      SameDistance(r.rr[o], Granted(r, o).input);
    }
  }

  /** An input is served only by the output its packet routes to. */
  lemma ServedByRoute(r: Router, w: Wires, i: Port)
    requires WellFormed(r) && WellFormedWires(w)
    ensures Served(r, w, i) <==>
      r.slots[i].Full? && var o := CalcRoute(r.x, r.y, r.slots[i].packet.dstId); w.ready[o] && Granted(r, o) == To(i)
  {
    forall o: Port | Granted(r, o) == To(i)
      ensures r.slots[i].Full? && CalcRoute(r.x, r.y, r.slots[i].packet.dstId) == o
    {
      GrantsNearest(r, o);
    }
  }

  /** A stalled output: valid stays up, the pointer stays put, the waiting packet stays in its
      slot, and the presented packet can be replaced only by one nearer the pointer. */
  lemma StalledOutput(r: Router, w: Wires, o: Port)
    requires WellFormed(r) && WellFormedWires(w) && Granted(r, o).To? && !w.ready[o]
    ensures var r' := Step(r, w);
      && Granted(r', o).To? && r'.rr[o] == r.rr[o]
      && r'.slots[Granted(r, o).input] == r.slots[Granted(r, o).input]
      && Distance(r.rr[o], Granted(r', o).input) <= Distance(r.rr[o], Granted(r, o).input)
      && (Distance(r.rr[o], Granted(r', o).input) == Distance(r.rr[o], Granted(r, o).input) ==>
            Granted(r', o) == Granted(r, o) && Output(r', o) == Output(r, o))
  {
    var i := Granted(r, o).input;
    var r' := Step(r, w);
    GrantsNearest(r, o);
    ServedByRoute(r, w, i);
    assert r'.slots[i] == NextSlot(r, w, i) == r.slots[i];
    GrantsNearest(r', o);
    assert Requests(r', o, i);
  }

  /** A waiting input: when its output transfers something else, that input was nearer and the
      pointer moves to just past it, closer to the waiting one. */
  lemma WaitingGetsCloser(r: Router, w: Wires, o: Port, i: Port)
    requires WellFormed(r) && WellFormedWires(w) && Requests(r, o, i) && !Served(r, w, i)
    ensures var r' := Step(r, w);
      && Requests(r', o, i) && r'.slots[i] == r.slots[i]
      && (if w.ready[o] then
            Granted(r, o).To? && Distance(r.rr[o], Granted(r, o).input) < Distance(r.rr[o], i)
            && r'.rr[o] == NextRr(Granted(r, o).input)
          else r'.rr[o] == r.rr[o])
  {
    GrantsNearest(r, o);
    ServedByRoute(r, w, i);
    assert Step(r, w).slots[i] == NextSlot(r, w, i);
    assert Step(r, w).rr[o] == NextPointer(r, w, o);
  }

  // ----------------------------------------------------------------------
  // Conservation: whatever is counted about packets, a router loses none
  // ----------------------------------------------------------------------

  /** Weight of a buffer under an arbitrary measure f of packets. */
  function Weight(f: Packet -> int, s: Slot): int {
    if s.Full? then f(s.packet) else 0
  }

  function Held(r: Router, f: Packet -> int): int
    requires WellFormed(r)
  {
    Weight(f, r.slots[0]) + Weight(f, r.slots[1]) + Weight(f, r.slots[2]) + Weight(f, r.slots[3])
      + Weight(f, r.slots[4])
  }

  /** What leaves through output o on this edge, and what enters a slot through input i. */
  function Sent(r: Router, w: Wires, o: Port): Slot
    requires WellFormed(r) && WellFormedWires(w)
  {
    if Transfers(r, w, o) then Output(r, o) else Empty
  }

  function Accepted(r: Router, w: Wires, i: Port): Slot
    requires WellFormed(r) && WellFormedWires(w)
  {
    if InTransfer(r, w, i) && ValidDst(w.offered[i].packet.dstId) then w.offered[i] else Empty
  }

  function SentWeight(r: Router, w: Wires, f: Packet -> int): int
    requires WellFormed(r) && WellFormedWires(w)
  {
    Weight(f, Sent(r, w, 0)) + Weight(f, Sent(r, w, 1)) + Weight(f, Sent(r, w, 2)) + Weight(f, Sent(r, w, 3))
      + Weight(f, Sent(r, w, 4))
  }

  function AcceptedWeight(r: Router, w: Wires, f: Packet -> int): int
    requires WellFormed(r) && WellFormedWires(w)
  {
    Weight(f, Accepted(r, w, 0)) + Weight(f, Accepted(r, w, 1)) + Weight(f, Accepted(r, w, 2))
    + Weight(f, Accepted(r, w, 3)) + Weight(f, Accepted(r, w, 4))
  }

  /** The weight that output o takes out of slot i. */
  function Moved(r: Router, w: Wires, f: Packet -> int, o: Port, i: Port): int
    requires WellFormed(r) && WellFormedWires(w)
  {
    if Transfers(r, w, o) && Granted(r, o) == To(i) then Weight(f, r.slots[i]) else 0
  }

  lemma SlotBalance(r: Router, w: Wires, f: Packet -> int, i: Port)
    requires WellFormed(r) && WellFormedWires(w)
    ensures Weight(f, NextSlot(r, w, i)) ==
            Weight(f, r.slots[i]) + Weight(f, Accepted(r, w, i))
              - (if Served(r, w, i) then Weight(f, r.slots[i]) else 0)
  {
    hide Granted;
    ServedByRoute(r, w, i);
  }

  lemma MovedByOutput(r: Router, w: Wires, f: Packet -> int, o: Port)
    requires WellFormed(r) && WellFormedWires(w)
    ensures Weight(f, Sent(r, w, o)) ==
            Moved(r, w, f, o, 0) + Moved(r, w, f, o, 1) + Moved(r, w, f, o, 2) + Moved(r, w, f, o, 3)
              + Moved(r, w, f, o, 4)
  {
    hide Granted;
  }

  lemma MovedFromInput(r: Router, w: Wires, f: Packet -> int, i: Port)
    requires WellFormed(r) && WellFormedWires(w)
    ensures (if Served(r, w, i) then Weight(f, r.slots[i]) else 0) ==
            Moved(r, w, f, 0, i) + Moved(r, w, f, 1, i) + Moved(r, w, f, 2, i) + Moved(r, w, f, 3, i)
              + Moved(r, w, f, 4, i)
  {
    hide Granted;
    ServedByRoute(r, w, i);
    forall o: Port | Granted(r, o) == To(i)
      ensures r.slots[i].Full? && o == CalcRoute(r.x, r.y, r.slots[i].packet.dstId)
    {
      GrantsNearest(r, o);
    }
  }

  /** A router neither loses, duplicates nor invents packets, whatever is measured about them:
      what it holds afterwards and what it sent equal what it held and what it accepted. */
  lemma RouterConserves(r: Router, w: Wires, f: Packet -> int)
    requires WellFormed(r) && WellFormedWires(w)
    ensures Held(Step(r, w), f) + SentWeight(r, w, f) == Held(r, f) + AcceptedWeight(r, w, f)
  {
    hide Weight, Moved, NextSlot, Sent, Accepted, Served;
    forall i: Port
      ensures Weight(f, NextSlot(r, w, i)) ==
              Weight(f, r.slots[i]) + Weight(f, Accepted(r, w, i))
                - (if Served(r, w, i) then Weight(f, r.slots[i]) else 0)
    {
      SlotBalance(r, w, f, i);
    }
    MovedByOutput(r, w, f, 0);
    MovedByOutput(r, w, f, 1);
    MovedByOutput(r, w, f, 2);
    MovedByOutput(r, w, f, 3);
    MovedByOutput(r, w, f, 4);
    MovedFromInput(r, w, f, 0);
    MovedFromInput(r, w, f, 1);
    MovedFromInput(r, w, f, 2);
    MovedFromInput(r, w, f, 3);
    MovedFromInput(r, w, f, 4);
    assert Held(Step(r, w), f) ==
      Weight(f, NextSlot(r, w, 0)) + Weight(f, NextSlot(r, w, 1)) + Weight(f, NextSlot(r, w, 2))
      + Weight(f, NextSlot(r, w, 3)) + Weight(f, NextSlot(r, w, 4));
  }
}

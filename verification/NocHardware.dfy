/** The router and the mesh in the form of the design: registers updated in place on each
    clock edge, proved to follow Step and MeshStep. */
module NocHardware {
  import opened NocRouter
  import opened NocMesh
  import opened NocDelivery

  class RouterUnit {
    const x: nat
    const y: nat
    const slotValid: array<bool>
    const slotPacket: array<Packet>
    const rrPointer: array<Port>

    ghost predicate Valid() {
      x < 2 && y < 2 && slotValid.Length == 5 && slotPacket.Length == 5 && rrPointer.Length == 5
    }

    ghost function Registers(): set<object> {
      {slotValid as object, slotPacket as object, rrPointer as object}
    }

    function SlotAt(i: Port): Slot
      requires Valid()
      reads slotValid, slotPacket
    {
      if slotValid[i] then Full(slotPacket[i]) else Empty
    }

    /** The registers as a router state; a packet register means nothing while its slot is empty. */
    ghost function State(): (r: Router)
      requires Valid()
      reads slotValid, slotPacket, rrPointer
      ensures WellFormed(r)
    {
      Router(x, y, [SlotAt(0), SlotAt(1), SlotAt(2), SlotAt(3), SlotAt(4)], rrPointer[..])
    }

    constructor (x: nat, y: nat)
      requires x < 2 && y < 2
      ensures Valid() && this.x == x && this.y == y && State() == NocRouter.Reset(x, y) && fresh(Registers())
    {
      this.x, this.y := x, y;
      slotValid := new bool[5](_ => false);
      slotPacket := new Packet[5];
      rrPointer := new Port[5](_ => LOCAL);
    }

    lemma StateAt(i: Port)
      requires Valid()
      ensures State().slots[i] == SlotAt(i) && State().rr[i] == rrPointer[i] && State().x == x && State().y == y
    {
    }

    lemma StateIs(r: Router)
      requires Valid() && WellFormed(r) && r.x == x && r.y == y
      requires forall i: Port :: SlotAt(i) == r.slots[i] && rrPointer[i] == r.rr[i]
      ensures State() == r
    {
      assert State().slots == r.slots;
      assert rrPointer[..] == r.rr;
    }

    /** The reset branch of the clock edge: packet registers keep what they held. */
    method Reset()
      requires Valid()
      modifies slotValid, rrPointer
      ensures State() == NocRouter.Reset(x, y)
    {
      for i := 0 to 5
        invariant forall p: Port :: p < i ==> !slotValid[p] && rrPointer[p] == LOCAL
      {
        slotValid[i], rrPointer[i] := false, LOCAL;
      }
      StateIs(NocRouter.Reset(x, y));
    }

    /** The round-robin scan of one output over its request vector. */
    method Arbitrate(o: Port) returns (grant: Grant)
      requires Valid()
      ensures grant == Granted(State(), o)
    {
      hide RouterUnit.State, Candidate;
      grant := NoGrant;
      StateAt(o);
      for offset := 0 to 5
        invariant grant == NoGrant ==> Granted(State(), o) == Scan(State(), o, offset)
        invariant grant != NoGrant ==> Granted(State(), o) == grant
      {
        var i := Candidate(rrPointer[o], offset);
        StateAt(i);
        if grant == NoGrant && slotValid[i] && CalcRoute(x, y, slotPacket[i].dstId) == o {
          grant := To(i);
        }
      }
    }

    /** The grants of all outputs, from the current registers. */
    method ArbitrateAll() returns (grants: seq<Grant>)
      requires Valid()
      ensures |grants| == 5 && forall o: Port :: grants[o] == Granted(State(), o)
    {
      hide RouterUnit.State, Granted;
      grants := [];
      for o := 0 to 5
        invariant |grants| == o && forall p: Port :: p < o ==> grants[p] == Granted(State(), p)
      {
        var grant := Arbitrate(o);
        grants := grants + [grant];
      }
    }

    /** The packets presented on the five outputs, from the current registers. */
    method Present() returns (out: seq<Slot>)
      requires Valid()
      ensures |out| == 5 && forall o: Port :: out[o] == Output(State(), o)
    {
      hide RouterUnit.State, Granted;
      var grants := ArbitrateAll();
      out := [];
      for o := 0 to 5
        invariant |out| == o && forall p: Port :: p < o ==> out[p] == Output(State(), p)
      {
        match grants[o] {
          case NoGrant => out := out + [Empty];
          case To(i) =>
            StateAt(i);
            out := out + [SlotAt(i)];
        }
      }
    }

    /** served_input: the inputs whose packet leaves on this edge. */
    static method ServedInputs(w: Wires, grants: seq<Grant>, ghost before: Router) returns (served: seq<bool>)
      requires WellFormed(before) && WellFormedWires(w)
      requires |grants| == 5 && forall o: Port :: grants[o] == Granted(before, o)
      ensures |served| == 5 && forall i: Port :: served[i] <==> Served(before, w, i)
    {
      hide Granted;
      served := [false, false, false, false, false];
      for o := 0 to 5
        invariant |served| == 5
        invariant forall i: Port :: served[i] <==> exists p: Port :: p < o && w.ready[p] && grants[p] == To(i)
      {
        if grants[o].To? && w.ready[o] {
          served := served[grants[o].input := true];
        }
      }
      forall i: Port
        ensures served[i] <==> Served(before, w, i)
      {
        if p: Port :| Transfers(before, w, p) && Granted(before, p) == To(i) {
          assert w.ready[p] && grants[p] == To(i);
        }
        if served[i] {
          var p: Port :| w.ready[p] && grants[p] == To(i);
          assert Transfers(before, w, p) && Granted(before, p) == To(i);
        }
      }
    }

    /** The clock edge: grants and handshakes are taken from the registers before it. */
    method Clock(w: Wires)
      requires Valid() && WellFormedWires(w)
      modifies slotValid, slotPacket, rrPointer
      ensures State() == Step(old(State()), w)
    {
      hide RouterUnit.State, Granted, Served, NextSlot, NextPointer;
      ghost var before := State();
      StateAt(LOCAL);
      forall i: Port
        ensures before.slots[i] == SlotAt(i) && before.rr[i] == rrPointer[i] && before.x == x && before.y == y
      {
        StateAt(i);
      }
      var grants := ArbitrateAll();
      var served := ServedInputs(w, grants, before);
      UpdateSlots(w, served, before);
      UpdatePointers(w, grants, before);
      StateIs(Step(before, w));
    }

    method UpdateSlots(w: Wires, served: seq<bool>, ghost before: Router)
      requires Valid() && WellFormed(before) && WellFormedWires(w) && |served| == 5
      requires forall i: Port :: before.slots[i] == SlotAt(i)
      requires forall i: Port :: served[i] <==> Served(before, w, i)
      modifies slotValid, slotPacket
      ensures forall i: Port :: SlotAt(i) == NextSlot(before, w, i)
    {
      hide Served;
      for i := 0 to 5
        invariant forall p: Port :: SlotAt(p) == if p < i then NextSlot(before, w, p) else before.slots[p]
      {
        var inTransfer := w.offered[i].Full? && !slotValid[i];
        if inTransfer && !ValidDst(w.offered[i].packet.dstId) {
          slotValid[i] := false;
        } else if served[i] {
          slotValid[i] := false;
        } else if inTransfer {
          slotValid[i] := true;
          slotPacket[i] := w.offered[i].packet;
        }
      }
    }

    method UpdatePointers(w: Wires, grants: seq<Grant>, ghost before: Router)
      requires Valid() && WellFormed(before) && WellFormedWires(w) && |grants| == 5
      requires forall o: Port :: before.rr[o] == rrPointer[o]
      requires forall o: Port :: grants[o] == Granted(before, o)
      modifies rrPointer
      ensures forall o: Port :: rrPointer[o] == NextPointer(before, w, o)
    {
      hide Granted;
      for o := 0 to 5
        invariant forall p: Port :: rrPointer[p] == if p < o then NextPointer(before, w, p) else before.rr[p]
      {
        if grants[o].To? && w.ready[o] {
          rrPointer[o] := NextRr(grants[o].input);
        }
      }
    }
  }

  class MeshUnit {
    const routers: seq<RouterUnit>

    /** Four routers with separate registers. */
    ghost predicate Valid() {
      && |routers| == 4
      && (forall n: Node :: routers[n].Valid() && routers[n].x == X(n) && routers[n].y == Y(n))
      && (forall n: Node, k: Node :: n != k ==> Separate(routers[n], routers[k]))
    }

    static ghost predicate Separate(u: RouterUnit, v: RouterUnit) {
      u.slotValid != v.slotValid && u.slotPacket != v.slotPacket && u.rrPointer != v.rrPointer
    }

    ghost function Registers(): set<object>
      requires Valid()
    {
      routers[0].Registers() + routers[1].Registers() + routers[2].Registers() + routers[3].Registers()
    }

    ghost function State(): (m: Mesh)
      requires Valid()
      reads Registers()
      ensures WellFormedMesh(m)
    {
      [routers[0].State(), routers[1].State(), routers[2].State(), routers[3].State()]
    }

    constructor ()
      ensures Valid() && fresh(Registers()) && State() == ResetMesh()
    {
      hide RouterUnit.State, NocRouter.Reset, ResetMesh;
      ResetMeshIs();
      var r00 := new RouterUnit(0, 0);
      var r01 := new RouterUnit(1, 0);
      var r10 := new RouterUnit(0, 1);
      var r11 := new RouterUnit(1, 1);
      routers := [r00, r01, r10, r11];
    }

    /** The reset edge of all four routers. */
    method Reset()
      requires Valid()
      modifies Registers()
      ensures State() == ResetMesh()
    {
      hide RouterUnit.State, MeshUnit.State, NocRouter.Reset, ResetMesh;
      ResetOne(0);
      ResetOne(1);
      ResetOne(2);
      ResetOne(3);
      ResetMeshIs();
      assert State() == ResetMesh();
    }

    method ResetOne(n: Node)
      requires Valid()
      modifies Registers()
      ensures State()[n] == NocRouter.Reset(X(n), Y(n))
      ensures forall k: Node :: k != n ==> State()[k] == old(State())[k]
    {
      hide RouterUnit.State, NocRouter.Reset;
      routers[n].Reset();
    }

    static lemma ResetMeshIs()
      ensures ResetMesh() ==
              [NocRouter.Reset(0, 0), NocRouter.Reset(1, 0), NocRouter.Reset(0, 1), NocRouter.Reset(1, 1)]
    {
      hide NocRouter.Reset;
    }

    static lemma MeshStepIs(m: Mesh, e: Traffic, m': Mesh)
      requires WellFormedMesh(m) && WellFormedMesh(m') && forall n: Node :: m'[n] == Step(m[n], WiresAt(m, e, n))
      ensures m' == MeshStep(m, e)
    {
      hide Step, WiresAt, WellFormed;
    }

    /** One clock edge of the mesh. All wires are settled before any register changes; the
        result is what the four endpoints receive. */
    method Clock(e: Traffic) returns (delivered: seq<Slot>)
      requires Valid()
      modifies Registers()
      ensures State() == MeshStep(old(State()), e)
      ensures |delivered| == 4 && forall n: Node :: delivered[n] == SentAt(old(State()), e, n, LOCAL)
    {
      hide RouterUnit.State, MeshUnit.State, Step, SentAt, WiresAt, MeshStep;
      ghost var before := State();
      var wires;
      wires, delivered := SettleAll(e);
      ClockAll(wires);
      MeshStepIs(before, e, State());
    }

    /** The wires of all routers, and what the endpoints receive, from the current registers. */
    method SettleAll(e: Traffic) returns (wires: seq<Wires>, delivered: seq<Slot>)
      requires Valid()
      ensures State() == old(State())
      ensures |wires| == 4 && forall n: Node :: wires[n] == WiresAt(State(), e, n)
      ensures |delivered| == 4 && forall n: Node :: delivered[n] == SentAt(State(), e, n, LOCAL)
    {
      hide RouterUnit.State, Step, SentAt, WiresAt, Output;
      var outs := PresentAll();
      wires := SettleWires(outs, e);
      delivered := Deliveries(outs, e);
    }

    lemma StateOf(n: Node)
      requires Valid()
      ensures State()[n] == routers[n].State()
    {
      hide RouterUnit.State;
    }

    /** One router of the mesh; the others keep their registers. */
    method ClockOne(n: Node, w: Wires)
      requires Valid() && WellFormedWires(w)
      modifies Registers()
      ensures State()[n] == Step(old(State())[n], w)
      ensures forall k: Node :: k != n ==> State()[k] == old(State())[k]
    {
      hide RouterUnit.State, Step;
      routers[n].Clock(w);
    }

    method ClockAll(wires: seq<Wires>)
      requires Valid() && |wires| == 4 && forall n: Node :: WellFormedWires(wires[n])
      modifies Registers()
      ensures forall n: Node :: State()[n] == Step(old(State())[n], wires[n])
    {
      hide RouterUnit.State, Step, MeshUnit.State;
      ClockOne(0, wires[0]);
      ClockOne(1, wires[1]);
      ClockOne(2, wires[2]);
      ClockOne(3, wires[3]);
    }

    method Deliveries(outs: seq<seq<Slot>>, e: Traffic) returns (delivered: seq<Slot>)
      requires Valid()
      requires |outs| == 4 && forall n: Node :: |outs[n]| == 5 && forall o: Port :: outs[n][o] == Output(State()[n], o)
      ensures |delivered| == 4 && forall n: Node :: delivered[n] == SentAt(State(), e, n, LOCAL)
    {
      hide RouterUnit.State, Granted;
      delivered := [];
      for n := 0 to 4
        invariant |delivered| == n
        invariant forall k: Node :: k < n ==> delivered[k] == SentAt(State(), e, k, LOCAL)
      {
        GrantedPresents(State()[n], LOCAL);
        assert WiresAt(State(), e, n).ready[LOCAL] == e.ready[n];
        delivered := delivered + [if e.ready[n] then outs[n][LOCAL] else Empty];
      }
    }

    method PresentAll() returns (outs: seq<seq<Slot>>)
      requires Valid()
      ensures |outs| == 4 && forall n: Node :: |outs[n]| == 5 && forall o: Port :: outs[n][o] == Output(State()[n], o)
    {
      hide RouterUnit.State, Output;
      outs := [];
      for n := 0 to 4
        invariant |outs| == n
        invariant forall k: Node :: k < n ==> |outs[k]| == 5 && forall o: Port :: outs[k][o] == Output(State()[k], o)
      {
        var out := routers[n].Present();
        StateOf(n);
        outs := outs + [out];
      }
    }

    method SettleWires(outs: seq<seq<Slot>>, e: Traffic) returns (wires: seq<Wires>)
      requires Valid()
      requires |outs| == 4 && forall n: Node :: |outs[n]| == 5 && forall o: Port :: outs[n][o] == Output(State()[n], o)
      ensures |wires| == 4 && forall n: Node :: wires[n] == WiresAt(State(), e, n)
    {
      hide RouterUnit.State, Output, WiresAt;
      wires := [];
      for n := 0 to 4
        invariant |wires| == n && forall k: Node :: k < n ==> wires[k] == WiresAt(State(), e, k)
      {
        var w := SettleNode(outs, e, n);
        wires := wires + [w];
      }
    }

    /** The wires of one router: its neighbours' outputs and empty slots, and its endpoint. */
    method SettleNode(outs: seq<seq<Slot>>, e: Traffic, n: Node) returns (w: Wires)
      requires Valid()
      requires |outs| == 4 && forall n: Node :: |outs[n]| == 5 && forall o: Port :: outs[n][o] == Output(State()[n], o)
      ensures w == WiresAt(State(), e, n)
    {
      hide RouterUnit.State, Output;
      var offered: seq<Slot> := [];
      var ready: seq<bool> := [];
      for p := 0 to 5
        invariant |offered| == p && |ready| == p
        invariant forall q: Port :: q < p ==> offered[q] == OfferedAt(State(), e, n, q)
        invariant forall q: Port :: q < p ==> ready[q] == ReadyAt(State(), e, n, q)
      {
        match NeighbourOf(n, p) {
          case Boundary =>
            offered := offered + [if p == LOCAL then e.inject[n] else Empty];
            ready := ready + [p == LOCAL && e.ready[n]];
          case At(k) =>
            routers[k].StateAt(Opposite(p));
            offered := offered + [outs[k][Opposite(p)]];
            ready := ready + [!routers[k].slotValid[Opposite(p)]];
        }
      }
      w := Wires(offered, ready);
      assert w.offered == WiresAt(State(), e, n).offered && w.ready == WiresAt(State(), e, n).ready;
    }
  }
}

/** Liveness under continuing traffic and stalls: once every endpoint has been ready twenty times
    over, every packet in the mesh has been delivered, whatever was injected meanwhile. Each slot
    carries a delay that never grows, and that can stay the same only while one particular endpoint
    stalls. */
module NocLiveness {
  import opened NocRouter
  import opened NocService
  import opened NocMesh
  import opened NocDelivery
  import opened NocProgress

  // ----------------------------------------------------------------------
  // The way of a packet
  // ----------------------------------------------------------------------

  /** Where a packet is. */
  datatype Place = InSlot(node: Node, port: Port) | Delivered(endpoint: Node)

  function RouteAt(m: Mesh, n: Node, i: Port): Port
    requires WellFormedMesh(m) && m[n].slots[i].Full?
  {
    CalcRoute(X(n), Y(n), m[n].slots[i].packet.dstId)
  }

  /** Where the packet in a slot is after one cycle. */
  function Moved(m: Mesh, e: Traffic, n: Node, i: Port): Place
    requires WellFormedMesh(m) && m[n].slots[i].Full?
  {
    var o := RouteAt(m, n, i);
    if !Served(m[n], WiresAt(m, e, n), i) then InSlot(n, i)
    else if o == LOCAL then Delivered(n)
    else match NeighbourOf(n, o)
      case Boundary => InSlot(n, i)
      case At(k) => InSlot(k, Opposite(o))
  }

  /** A packet moves as Moved says, and is handed to its endpoint on the edge that delivers it. */
  lemma MovesOn(m: Mesh, e: Traffic, n: Node, i: Port, p: Packet)
    requires Reachable(m) && m[n].slots[i] == Full(p)
    ensures match Moved(m, e, n, i)
      case InSlot(k, j) => MeshStep(m, e)[k].slots[j] == Full(p)
      case Delivered(k) => k == p.dstId && SentAt(m, e, k, LOCAL) == Full(p)
  {
    hide Granted, Output;
    var w, o := WiresAt(m, e, n), RouteAt(m, n, i);
    ServedByRoute(m[n], w, i);
    assert MeshStep(m, e)[n].slots[i] == NextSlot(m[n], w, i);
    if Served(m[n], w, i) {
      PresentsGranted(m[n], o, i);
      OutputMayMove(m, n, o);
      if o != LOCAL {
        LinkCarries(m, e, n, o);
        Enters(m, e, NeighbourOf(n, o).node, Opposite(o));
      }
    }
  }

  lemma PresentsGranted(r: Router, o: Port, i: Port)
    requires WellFormed(r) && Granted(r, o) == To(i)
    ensures Output(r, o) == r.slots[i]
  {
  }

  lemma Enters(m: Mesh, e: Traffic, n: Node, i: Port)
    requires WellFormedMesh(m) && AcceptedAt(m, e, n, i).Full?
    ensures MeshStep(m, e)[n].slots[i] == AcceptedAt(m, e, n, i)
  {
    hide Granted;
    ServedByRoute(m[n], WiresAt(m, e, n), i);
    assert MeshStep(m, e)[n].slots[i] == NextSlot(m[n], WiresAt(m, e, n), i);
  }

  // ----------------------------------------------------------------------
  // Delays
  // ----------------------------------------------------------------------

  /** The inputs that may request an output of node n. */
  function Rivals(n: Node, o: Port): set<Port> {
    if o == LOCAL then {LOCAL, HPort(n), VPort(n)} else if o == VPort(n) then {LOCAL, HPort(n)} else {LOCAL}
  }

  lemma OnlyRivals(m: Mesh, n: Node, o: Port, j: Port)
    requires Reachable(m) && Requests(m[n], o, j)
    ensures j in Rivals(n, o)
  {
    hide HPort, VPort, X, Y, CalcRoute;
    var d := m[n].slots[j].packet.dstId;
    assert MayHold(n, j, d);
    RouteByCoordinate(n, d);
    SelfCoordinates(n);
    Coordinates(n, d);
  }

  ghost function AheadOf(m: Mesh, n: Node, o: Port, i: Port): nat
    requires WellFormedMesh(m)
  {
    |Ahead(m[n], o, i, Rivals(n, o))|
  }

  /** For a slot routed to its endpoint: each cycle serves one of those ahead. */
  ghost function LocalDelay(m: Mesh, n: Node, i: Port): (t: nat)
    requires WellFormedMesh(m)
    ensures t >= 1
  {
    AheadOf(m, n, LOCAL, i) + 1
  }

  /** For a slot routed along the column: the slot after the link, which is always routed to its
      endpoint, may have to empty once for each of those ahead and once more. */
  ghost function ColumnDelay(m: Mesh, n: Node, i: Port): (t: nat)
    requires WellFormedMesh(m)
    ensures t >= 1
  {
    4 * AheadOf(m, n, VPort(n), i) + 1
    + (if m[VNode(n)].slots[VPort(VNode(n))].Full? then LocalDelay(m, VNode(n), VPort(VNode(n))) else 0)
  }

  /** For a slot already in its column. */
  ghost function RowEndDelay(m: Mesh, n: Node, i: Port): (t: nat)
    requires WellFormedMesh(m) && m[n].slots[i].Full?
    ensures t >= 1
  {
    if RouteAt(m, n, i) == LOCAL then LocalDelay(m, n, i) else ColumnDelay(m, n, i)
  }

  /** For a slot routed along the row: it has no rivals. */
  ghost function RowDelay(m: Mesh, n: Node): nat
    requires WellFormedMesh(m)
  {
    1 + (if m[HNode(n)].slots[HPort(HNode(n))].Full? then RowEndDelay(m, HNode(n), HPort(HNode(n))) else 0)
  }

  ghost function Delay(m: Mesh, n: Node, i: Port): nat
    requires WellFormedMesh(m) && m[n].slots[i].Full?
  {
    if RouteAt(m, n, i) == HPort(n) then RowDelay(m, n) else RowEndDelay(m, n, i)
  }

  lemma AheadBound(m: Mesh, n: Node, o: Port, i: Port)
    requires WellFormedMesh(m) && i in Rivals(n, o)
    ensures AheadOf(m, n, o, i) <= (if o == LOCAL then 2 else if o == VPort(n) then 1 else 0)
  {
    hide HPort, VPort, Distance;
    SubsetSize(Ahead(m[n], o, i, Rivals(n, o)), Rivals(n, o) - {i});
    Coordinates(n, 0);
  }

  /** In a cycle that does not serve a waiting slot, those ahead get fewer if its output is ready. */
  lemma AheadFalls(m: Mesh, e: Traffic, n: Node, i: Port)
    requires Reachable(m) && m[n].slots[i].Full? && !Served(m[n], WiresAt(m, e, n), i)
    ensures var o := RouteAt(m, n, i);
      AheadOf(MeshStep(m, e), n, o, i) <= AheadOf(m, n, o, i) - (if ReadyAt(m, e, n, o) then 1 else 0)
  {
    hide Granted, Served, Ahead, Step, ReadyAt;
    var o, w := RouteAt(m, n, i), WiresAt(m, e, n);
    forall j: Port | Requests(m[n], o, j)
      ensures j in Rivals(n, o)
    {
      OnlyRivals(m, n, o, j);
    }
    AheadShrinks(m[n], w, o, i, Rivals(n, o));
    assert MeshStep(m, e)[n] == Step(m[n], w) && w.ready[o] == ReadyAt(m, e, n, o);
  }

  /** A slot that is not served keeps its packet; one that is served is empty afterwards. */
  lemma SlotAfter(m: Mesh, e: Traffic, n: Node, i: Port)
    requires WellFormedMesh(m) && m[n].slots[i].Full?
    ensures MeshStep(m, e)[n].slots[i] == if Served(m[n], WiresAt(m, e, n), i) then Empty else m[n].slots[i]
  {
    hide Served;
    assert MeshStep(m, e)[n].slots[i] == NextSlot(m[n], WiresAt(m, e, n), i);
  }

  // ----------------------------------------------------------------------
  // What a delay waits for
  // ----------------------------------------------------------------------

  /** The endpoint that a slot waits for, or none when its delay falls in any case. */
  datatype Blocker = Free | Waiting(endpoint: Node)

  function ColumnBlocker(m: Mesh, n: Node): Blocker
    requires WellFormedMesh(m)
  {
    if m[VNode(n)].slots[VPort(VNode(n))].Full? then Waiting(VNode(n)) else Free
  }

  function RowEndBlocker(m: Mesh, n: Node, i: Port): Blocker
    requires WellFormedMesh(m) && m[n].slots[i].Full?
  {
    if RouteAt(m, n, i) == LOCAL then Waiting(n) else ColumnBlocker(m, n)
  }

  function RowBlocker(m: Mesh, n: Node): Blocker
    requires WellFormedMesh(m)
  {
    if m[HNode(n)].slots[HPort(HNode(n))].Full? then RowEndBlocker(m, HNode(n), HPort(HNode(n))) else Free
  }

  function BlockerOf(m: Mesh, n: Node, i: Port): Blocker
    requires WellFormedMesh(m) && m[n].slots[i].Full?
  {
    if RouteAt(m, n, i) == HPort(n) then RowBlocker(m, n) else RowEndBlocker(m, n, i)
  }

  /** A delay falls, or it stays while its endpoint stalls and goes on waiting for the same one. */
  predicate Advances(delay: nat, delay': nat, b: Blocker, b': Blocker, e: Traffic) {
    delay' < delay || (delay' == delay && b.Waiting? && !e.ready[b.endpoint] && b' == b)
  }

  ghost predicate Unserved(m: Mesh, e: Traffic, n: Node, i: Port)
    requires WellFormedMesh(m)
  {
    Reachable(m) && m[n].slots[i].Full? && !Served(m[n], WiresAt(m, e, n), i)
  }

  lemma LocalFalls(m: Mesh, e: Traffic, n: Node, i: Port)
    requires WellFormedMesh(m) && Unserved(m, e, n, i) && RouteAt(m, n, i) == LOCAL
    ensures Advances(LocalDelay(m, n, i), LocalDelay(MeshStep(m, e), n, i), Waiting(n), Waiting(n), e)
  {
    hide Served, AheadOf, MeshStep, CalcRoute;
    AheadFalls(m, e, n, i);
  }

  /** The vertical slot of a node is always routed to the endpoint. */
  lemma VerticalIsLocal(m: Mesh, n: Node)
    requires Reachable(m) && m[n].slots[VPort(n)].Full?
    ensures RouteAt(m, n, VPort(n)) == LOCAL
  {
    assert MayHold(n, VPort(n), m[n].slots[VPort(n)].packet.dstId);
    RouteByCoordinate(n, m[n].slots[VPort(n)].packet.dstId);
    SelfCoordinates(n);
  }

  /** What the slot after a column link adds to a delay: up to three when it fills; while it is
      full, it falls or its endpoint stalls. */
  lemma VerticalDelay(m: Mesh, e: Traffic, v: Node)
    requires Reachable(m)
    ensures var i := VPort(v); var m' := MeshStep(m, e);
      && (m'[v].slots[i].Full? ==> LocalDelay(m', v, i) <= 3)
      && (m[v].slots[i].Full? && m'[v].slots[i].Full? ==>
            Advances(LocalDelay(m, v, i), LocalDelay(m', v, i), Waiting(v), Waiting(v), e))
  {
    hide Served, AheadOf, MeshStep, VPort, LocalDelay;
    var i := VPort(v);
    VerticalDelayBound(MeshStep(m, e), v);
    if m[v].slots[i].Full? {
      SlotAfter(m, e, v, i);
      VerticalIsLocal(m, v);
      if !Served(m[v], WiresAt(m, e, v), i) {
        LocalFalls(m, e, v, i);
      }
    }
  }

  lemma VerticalDelayBound(m: Mesh, v: Node)
    requires WellFormedMesh(m)
    ensures LocalDelay(m, v, VPort(v)) <= 3
  {
    hide AheadOf, VPort;
    AheadBound(m, v, LOCAL, VPort(v));
  }

  lemma ColumnReady(m: Mesh, e: Traffic, n: Node)
    requires WellFormedMesh(m)
    ensures ReadyAt(m, e, n, VPort(n)) == m[VNode(n)].slots[VPort(VNode(n))].Empty?
    ensures ReadyAt(m, e, n, HPort(n)) == m[HNode(n)].slots[HPort(HNode(n))].Empty?
  {
    WiredNeighbours(n);
    Coordinates(n, 0);
  }

  lemma ColumnFalls(m: Mesh, e: Traffic, n: Node, i: Port)
    requires WellFormedMesh(m) && Unserved(m, e, n, i) && RouteAt(m, n, i) == VPort(n)
    ensures var m' := MeshStep(m, e);
      Advances(ColumnDelay(m, n, i), ColumnDelay(m', n, i), ColumnBlocker(m, n), ColumnBlocker(m', n), e)
  {
    hide Served, AheadOf, MeshStep, CalcRoute, LocalDelay, ReadyAt, VPort, VNode;
    AheadFalls(m, e, n, i);
    ColumnReady(m, e, n);
    VerticalDelay(m, e, VNode(n));
  }

  /** A slot in its column is routed to its endpoint or along the column. */
  lemma RowEndRoute(m: Mesh, n: Node)
    requires Reachable(m) && m[n].slots[HPort(n)].Full?
    ensures RouteAt(m, n, HPort(n)) == LOCAL || RouteAt(m, n, HPort(n)) == VPort(n)
  {
    assert MayHold(n, HPort(n), m[n].slots[HPort(n)].packet.dstId);
    RouteByCoordinate(n, m[n].slots[HPort(n)].packet.dstId);
    Coordinates(n, 0);
  }

  lemma RowEndFalls(m: Mesh, e: Traffic, n: Node, i: Port)
    requires WellFormedMesh(m) && Unserved(m, e, n, i) && RouteAt(m, n, i) in {LOCAL, VPort(n)}
    ensures MeshStep(m, e)[n].slots[i].Full?
    ensures var m' := MeshStep(m, e);
      Advances(RowEndDelay(m, n, i), RowEndDelay(m', n, i), RowEndBlocker(m, n, i), RowEndBlocker(m', n, i), e)
  {
    hide Served, MeshStep, CalcRoute, LocalDelay, ColumnDelay, ColumnBlocker, VPort;
    SlotAfter(m, e, n, i);
    if RouteAt(m, n, i) == LOCAL {
      LocalFalls(m, e, n, i);
    } else {
      ColumnFalls(m, e, n, i);
    }
  }

  /** Without rivals, a slot routed along the row waits only for the slot after the link. */
  lemma RowFalls(m: Mesh, e: Traffic, n: Node, i: Port)
    requires WellFormedMesh(m) && Unserved(m, e, n, i) && RouteAt(m, n, i) == HPort(n)
    ensures var m' := MeshStep(m, e); Advances(RowDelay(m, n), RowDelay(m', n), RowBlocker(m, n), RowBlocker(m', n), e)
  {
    hide Served, MeshStep, CalcRoute, RowEndDelay, RowEndBlocker, ReadyAt, HPort, HNode, VPort, AheadOf;
    var h := HNode(n);
    var j := HPort(h);
    AheadFalls(m, e, n, i);
    OnlyRivals(m, n, HPort(n), i);
    Coordinates(n, 0);
    AheadBound(m, n, HPort(n), i);
    ColumnReady(m, e, n);
    assert m[h].slots[j].Full?;
    SlotAfter(m, e, h, j);
    RowEndRoute(m, h);
    if !Served(m[h], WiresAt(m, e, h), j) {
      RowEndFalls(m, e, h, j);
    }
  }

  lemma DelayFalls(m: Mesh, e: Traffic, n: Node, i: Port)
    requires WellFormedMesh(m) && Unserved(m, e, n, i)
    ensures MeshStep(m, e)[n].slots[i] == m[n].slots[i]
    ensures var m' := MeshStep(m, e);
      Advances(Delay(m, n, i), Delay(m', n, i), BlockerOf(m, n, i), BlockerOf(m', n, i), e)
  {
    hide Served, MeshStep, CalcRoute, RowEndDelay, RowDelay, RowEndBlocker, RowBlocker, VPort, HPort;
    SlotAfter(m, e, n, i);
    Routes(m, n, i);
    if RouteAt(m, n, i) == HPort(n) {
      RowFalls(m, e, n, i);
    } else {
      RowEndFalls(m, e, n, i);
    }
  }

  lemma Routes(m: Mesh, n: Node, i: Port)
    requires WellFormedMesh(m) && m[n].slots[i].Full?
    ensures RouteAt(m, n, i) in {LOCAL, HPort(n), VPort(n)}
  {
    RouteByCoordinate(n, m[n].slots[i].packet.dstId);
  }

  // ----------------------------------------------------------------------
  // The whole way
  // ----------------------------------------------------------------------

  /** Cycles allowed for the hops after the current slot: eight for a horizontal slot, three for a
      vertical one. */
  function Rest(n: Node, i: Port, d: DstId): nat {
    if i == LOCAL && DstX(d) != X(n) then (if DstY(d) != Y(n) then 11 else 8)
    else if i != VPort(n) && DstY(d) != Y(n) then 3
    else 0
  }

  ghost function TimeLeft(m: Mesh, at: Place): nat
    requires WellFormedMesh(m) && (at.InSlot? ==> m[at.node].slots[at.port].Full?)
  {
    if at.Delivered? then 0
    else Delay(m, at.node, at.port) + Rest(at.node, at.port, m[at.node].slots[at.port].packet.dstId)
  }

  lemma LocalDelayBound(m: Mesh, n: Node, i: Port)
    requires WellFormedMesh(m) && i in Rivals(n, LOCAL)
    ensures 1 <= LocalDelay(m, n, i) <= 3
  {
    hide AheadOf;
    AheadBound(m, n, LOCAL, i);
  }

  lemma ColumnDelayBound(m: Mesh, n: Node, i: Port)
    requires WellFormedMesh(m) && i in {LOCAL, HPort(n)}
    ensures 1 <= ColumnDelay(m, n, i) <= 8
  {
    hide AheadOf, LocalDelay, HPort, VPort, VNode;
    Coordinates(n, 0);
    AheadBound(m, n, VPort(n), i);
    LocalDelayBound(m, VNode(n), VPort(VNode(n)));
  }

  lemma RowEndDelayBound(m: Mesh, n: Node, i: Port)
    requires Reachable(m) && m[n].slots[i].Full? && RouteAt(m, n, i) in {LOCAL, VPort(n)}
    ensures 1 <= RowEndDelay(m, n, i) <= (if i == VPort(n) then 3 else 8)
  {
    hide AheadOf, LocalDelay, ColumnDelay, HPort, VPort, VNode, CalcRoute;
    Coordinates(n, 0);
    assert MayHold(n, i, m[n].slots[i].packet.dstId);
    if i == VPort(n) {
      VerticalIsLocal(m, n);
    }
    if RouteAt(m, n, i) == LOCAL {
      LocalDelayBound(m, n, i);
    } else {
      ColumnDelayBound(m, n, i);
    }
  }

  lemma DelayBound(m: Mesh, n: Node, i: Port)
    requires Reachable(m) && m[n].slots[i].Full?
    ensures 1 <= Delay(m, n, i) <= (if RouteAt(m, n, i) == HPort(n) then 9 else if i == VPort(n) then 3 else 8)
  {
    hide RowEndDelay, HPort, VPort, HNode, CalcRoute;
    Routes(m, n, i);
    if RouteAt(m, n, i) == HPort(n) {
      var h := HNode(n);
      if m[h].slots[HPort(h)].Full? {
        RowEndRoute(m, h);
        RowEndDelayBound(m, h, HPort(h));
        Coordinates(h, 0);
      }
    } else {
      RowEndDelayBound(m, n, i);
    }
  }

  lemma TimeLeftBound(m: Mesh, n: Node, i: Port)
    requires Reachable(m) && m[n].slots[i].Full?
    ensures TimeLeft(m, InSlot(n, i)) <= 20
  {
    hide Delay, HPort, VPort, CalcRoute, X, Y;
    var d := m[n].slots[i].packet.dstId;
    DelayBound(m, n, i);
    RouteByCoordinate(n, d);
    Coordinates(n, d);
  }

  function BlockerAt(m: Mesh, at: Place): Blocker
    requires WellFormedMesh(m) && (at.InSlot? ==> m[at.node].slots[at.port].Full?)
  {
    if at.InSlot? then BlockerOf(m, at.node, at.port) else Free
  }

  /** The time left of a packet falls in every cycle in which the endpoint it waits for is ready,
      and in every cycle in which it waits for none; otherwise it stays as it is. */
  lemma TimeLeftFalls(m: Mesh, e: Traffic, n: Node, i: Port)
    requires Reachable(m) && m[n].slots[i].Full?
    ensures var at := Moved(m, e, n, i); at.InSlot? ==> MeshStep(m, e)[at.node].slots[at.port] == m[n].slots[i]
    ensures var at, m' := Moved(m, e, n, i), MeshStep(m, e);
      Advances(TimeLeft(m, InSlot(n, i)), TimeLeft(m', at), BlockerOf(m, n, i), BlockerAt(m', at), e)
  {
    hide Served, MeshStep, Delay, BlockerOf;
    var p := m[n].slots[i].packet;
    MovesOn(m, e, n, i, p);
    StepStaysReachable(m, e);
    DelayBound(m, n, i);
    if !Served(m[n], WiresAt(m, e, n), i) {
      DelayFalls(m, e, n, i);
    } else {
      HopTime(m, e, n, i);
    }
  }

  lemma HopTime(m: Mesh, e: Traffic, n: Node, i: Port)
    requires Reachable(m) && Reachable(MeshStep(m, e)) && m[n].slots[i].Full? && Served(m[n], WiresAt(m, e, n), i)
    requires Delay(m, n, i) >= 1
    requires var at := Moved(m, e, n, i);
      at.InSlot? ==> MeshStep(m, e)[at.node].slots[at.port] == m[n].slots[i]
    ensures TimeLeft(MeshStep(m, e), Moved(m, e, n, i)) < TimeLeft(m, InSlot(n, i))
  {
    hide Served, MeshStep, Delay, CalcRoute, HPort, VPort, HNode, VNode, X, Y, NeighbourOf, Opposite;
    var d, at := m[n].slots[i].packet.dstId, Moved(m, e, n, i);
    assert MayHold(n, i, d);
    RouteByCoordinate(n, d);
    WiredNeighbours(n);
    Coordinates(n, d);
    if at.InSlot? {
      DelayBound(MeshStep(m, e), at.node, at.port);
      RouteByCoordinate(at.node, d);
      Coordinates(at.node, d);
      SelfCoordinates(n);
    }
  }

  /** Where the packet that stands in slot i of node n after es is, after next. */
  function Track(es: seq<Traffic>, next: seq<Traffic>, n: Node, i: Port): Place
    requires Run(es)[n].slots[i].Full?
  {
    if |next| == 0 then InSlot(n, i)
    else
      var before := Track(es, next[..|next| - 1], n, i);
      var m := Run(es + next[..|next| - 1]);
      if before.InSlot? && m[before.node].slots[before.port].Full?
        then Moved(m, next[|next| - 1], before.node, before.port)
      else before
  }

  /** During next, the packet is handed to endpoint k. */
  ghost predicate HandedOver(es: seq<Traffic>, next: seq<Traffic>, k: Node, p: Packet) {
    exists t :: 0 <= t < |next| && SentAt(Run(es + next[..t]), next[t], k, LOCAL) == Full(p)
  }

  lemma HandedOverBy(es: seq<Traffic>, next: seq<Traffic>, k: Node, p: Packet)
    requires |next| > 0
    ensures var before := next[..|next| - 1];
      HandedOver(es, before, k, p) || SentAt(Run(es + before), next[|next| - 1], k, LOCAL) == Full(p) ==>
        HandedOver(es, next, k, p)
  {
    hide SentAt, Run;
    var before := next[..|next| - 1];
    if HandedOver(es, before, k, p) {
      var t :| 0 <= t < |before| && SentAt(Run(es + before[..t]), before[t], k, LOCAL) == Full(p);
      assert before[..t] == next[..t];
    }
  }

  /** A tracked place has received the packet, or holds it with time left for the rounds that
      remain of twenty; when there is only just enough, the endpoint it waits for has not been ready
      in the current round. */
  ghost predicate Follows(es: seq<Traffic>, next: seq<Traffic>, at: Place, p: Packet) {
    match at
    case InSlot(k, j) => Run(es + next)[k].slots[j] == Full(p) && OnTime(Run(es + next), at, TallyOf(next))
    case Delivered(k) => k == p.dstId && HandedOver(es, next, k, p)
  }

  ghost predicate OnTime(m: Mesh, at: Place, t: Tally)
    requires WellFormedMesh(m) && (at.InSlot? ==> m[at.node].slots[at.port].Full?)
  {
    var b := BlockerAt(m, at);
    TimeLeft(m, at) + t.rounds <= 20 && (TimeLeft(m, at) + t.rounds == 20 && b.Waiting? ==> b.endpoint !in t.seen)
  }

  /** An advance keeps the count, whether or not it completes a round. */
  lemma StaysOnTime(left: nat, left': nat, b: Blocker, b': Blocker, t: Tally, e: Traffic)
    requires Advances(left, left', b, b', e)
    requires left + t.rounds <= 20 && (left + t.rounds == 20 && b.Waiting? ==> b.endpoint !in t.seen)
    ensures var t' := Count(t, e);
      left' + t'.rounds <= 20 && (left' + t'.rounds == 20 && b'.Waiting? ==> b'.endpoint !in t'.seen)
  {
    if left' == left && left + t.rounds == 20 && b.Waiting? && !e.ready[b.endpoint] {
      assert b.endpoint !in t.seen + Ready(e);
      assert b.endpoint in {0, 1, 2, 3};
    }
  }

  lemma {:induction false} TracksPacket(es: seq<Traffic>, next: seq<Traffic>, n: Node, i: Port, p: Packet)
    requires Run(es)[n].slots[i] == Full(p)
    ensures Follows(es, next, Track(es, next, n, i), p)
  {
    hide Moved, TimeLeft, BlockerAt, MeshStep, SentAt, HandedOver, Reachable, Count;
    if |next| == 0 {
      assert es + next == es;
      RunIsReachable(es);
      TimeLeftBound(Run(es), n, i);
    } else {
      var before := next[..|next| - 1];
      TracksPacket(es, before, n, i, p);
      FollowsOn(es, next, Track(es, before, n, i), p);
    }
  }

  lemma FollowsOn(es: seq<Traffic>, next: seq<Traffic>, at: Place, p: Packet)
    requires |next| > 0 && Follows(es, next[..|next| - 1], at, p)
    ensures var m, e := Run(es + next[..|next| - 1]), next[|next| - 1];
      Follows(es, next, if at.InSlot? then Moved(m, e, at.node, at.port) else at, p)
  {
    hide Moved, TimeLeft, BlockerOf, MeshStep, SentAt, HandedOver, Reachable, Count, Advances;
    var before, e := next[..|next| - 1], next[|next| - 1];
    var m := Run(es + before);
    assert (es + next)[..|es + next| - 1] == es + before;
    if at.InSlot? {
      RunIsReachable(es + before);
      MovesOn(m, e, at.node, at.port, p);
      TimeLeftFalls(m, e, at.node, at.port);
      var at', m' := Moved(m, e, at.node, at.port), MeshStep(m, e);
      StaysOnTime(TimeLeft(m, at), TimeLeft(m', at'), BlockerAt(m, at), BlockerAt(m', at'), TallyOf(before), e);
      if at'.Delivered? {
        HandedOverBy(es, next, at'.endpoint, p);
      }
    } else {
      HandedOverBy(es, next, at.endpoint, p);
    }
  }

  /** Liveness: from any state of any run, under any injections and any stalls, each packet in a
      slot has been handed to its own endpoint once every endpoint has been ready twenty times over. */
  lemma DeliveredInTwentyRounds(es: seq<Traffic>, next: seq<Traffic>, n: Node, i: Port, p: Packet)
    requires Run(es)[n].slots[i] == Full(p) && Rounds(next) >= 20
    ensures ValidDst(p.dstId) && Track(es, next, n, i) == Delivered(p.dstId)
    ensures HandedOver(es, next, p.dstId, p)
  {
    hide Track, TimeLeft, BlockerAt, SentAt, Run, HandedOver, Reachable, TallyOf;
    TracksPacket(es, next, n, i, p);
    var at := Track(es, next, n, i);
    if at.InSlot? {
      RunIsReachable(es + next);
      TimePositive(Run(es + next), at.node, at.port);
    }
  }

  lemma TimePositive(m: Mesh, n: Node, i: Port)
    requires Reachable(m) && m[n].slots[i].Full?
    ensures TimeLeft(m, InSlot(n, i)) >= 1
  {
    hide Delay;
    DelayBound(m, n, i);
  }

  /** In particular after any twenty cycles in which all endpoints are ready, with any cycles in between. */
  lemma DeliveredWithin20(es: seq<Traffic>, next: seq<Traffic>, n: Node, i: Port, p: Packet)
    requires Run(es)[n].slots[i] == Full(p) && ReadyCount(next) >= 20
    ensures ValidDst(p.dstId) && Track(es, next, n, i) == Delivered(p.dstId)
    ensures HandedOver(es, next, p.dstId, p)
  {
    hide Track, Run, HandedOver;
    ReadyCyclesAreRounds(next);
    DeliveredInTwentyRounds(es, next, n, i, p);
  }

  /** The same from the endpoint on: a packet for endpoint 0, 1, 2 or 3 that is offered to an empty
      local slot stands there after that cycle, and that very packet, followed slot by slot, arrives. */
  lemma InjectedIsDelivered(es: seq<Traffic>, e: Traffic, next: seq<Traffic>, s: Node, p: Packet)
    requires Run(es)[s].slots[LOCAL].Empty? && e.inject[s] == Full(p) && p.dstId < 4 && Rounds(next) >= 20
    ensures Run(es + [e])[s].slots[LOCAL] == Full(p)
    ensures Track(es + [e], next, s, LOCAL) == Delivered(p.dstId) && HandedOver(es + [e], next, p.dstId, p)
  {
    hide SentAt, MeshStep, HandedOver, Track;
    assert (es + [e])[..|es|] == es;
    LocalSlotTakes(Run(es), e, s);
    DeliveredInTwentyRounds(es + [e], next, s, LOCAL, p);
  }
}

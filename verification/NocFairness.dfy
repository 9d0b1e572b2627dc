/** How long an input of a lone router can wait. The bound of NocService is exact: an output
    serves every waiting input within n ready cycles if and only if at most n inputs request it. */
module NocFairness {
  import opened NocRouter
  import opened NocService
  import opened NocStability

  /** Input i waits throughout a run in which only the given inputs request output o. */
  ghost predicate Waits(rs: seq<Router>, ws: seq<Wires>, o: Port, i: Port, allowed: set<Port>)
    requires IsRun(rs, ws)
  {
    && i in allowed
    && (forall t :: 0 <= t < |ws| ==> Requests(rs[t], o, i) && !Served(rs[t], ws[t], i))
    && (forall t, j: Port :: 0 <= t < |ws| && Requests(rs[t], o, j) ==> j in allowed)
  }

  /** Whatever happens, a waiting input is served no later than the n-th ready cycle. */
  ghost predicate ServesWithin(o: Port, allowed: set<Port>, n: nat) {
    forall rs: seq<Router>, ws: seq<Wires>, i: Port ::
      IsRun(rs, ws) && Waits(rs, ws, o, i, allowed) ==> ReadyCycles(ws, o) < n
  }

  // ----------------------------------------------------------------------
  // The slowest run
  // ----------------------------------------------------------------------

  /** A router, at (0, 0) or (1, 1), and a destination such that the route is o. */
  function Coordinate(o: Port): nat {
    if o == NORTH || o == WEST then 1 else 0
  }

  function PacketFor(o: Port): Packet {
    Packet(0, if o == LOCAL then 0 else if o == EAST || o == NORTH then 1 else 2, 0, 0)
  }

  function Crowd(o: Port, waiting: set<Port>, start: Port): Router {
    Router(Coordinate(o), Coordinate(o), seq(5, i => if i in waiting then Full(PacketFor(o)) else Empty),
           seq(5, p => if p == o then start else LOCAL))
  }

  function Offers(o: Port, waiting: set<Port>): Wires {
    Wires(seq(5, i => if i in waiting then Full(PacketFor(o)) else Empty), [true, true, true, true, true])
  }

  function Nobody(): Wires {
    Wires([Empty, Empty, Empty, Empty, Empty], [true, true, true, true, true])
  }

  function Least(s: set<Port>): (j: Port)
    requires s != {}
    ensures j in s && forall k :: k in s ==> j <= k
  {
    if 0 in s then 0 else if 1 in s then 1 else if 2 in s then 2 else if 3 in s then 3
    else
      assert forall k: Port :: k in s ==> k == 4;
      4
  }

  function Greatest(s: set<Port>): (j: Port)
    requires s != {}
    ensures j in s && forall k :: k in s ==> k <= j
  {
    if 4 in s then 4 else if 3 in s then 3 else if 2 in s then 2 else if 1 in s then 1
    else
      assert forall k: Port :: k in s ==> k == 0;
      0
  }

  lemma CrowdRequests(o: Port, waiting: set<Port>, start: Port, p: Port, j: Port)
    ensures Requests(Crowd(o, waiting, start), p, j) <==> p == o && j in waiting
  {
  }

  /** A crowd at or after the pointer is served in order. */
  lemma CrowdGrants(o: Port, waiting: set<Port>, start: Port, p: Port)
    requires waiting != {} && start <= Least(waiting)
    ensures Granted(Crowd(o, waiting, start), p) == if p == o then To(Least(waiting)) else NoGrant
  {
    hide Granted, Requests;
    var r := Crowd(o, waiting, start);
    GrantsNearest(r, p);
    forall j: Port
      ensures Requests(r, p, j) <==> p == o && j in waiting
    {
      CrowdRequests(o, waiting, start, p, j);
    }
  }

  lemma CrowdServed(o: Port, waiting: set<Port>, start: Port, i: Port)
    requires waiting != {} && start <= Least(waiting)
    ensures Served(Crowd(o, waiting, start), Nobody(), i) <==> i == Least(waiting)
  {
    hide Granted, Least;
    var r, w := Crowd(o, waiting, start), Nobody();
    CrowdGrants(o, waiting, start, o);
    assert i == Least(waiting) ==> Transfers(r, w, o) && Granted(r, o) == To(i);
    forall p: Port | Granted(r, p) == To(i)
      ensures i == Least(waiting)
    {
      CrowdGrants(o, waiting, start, p);
    }
  }

  lemma CrowdStep(o: Port, waiting: set<Port>, start: Port)
    requires waiting != {} && start <= Least(waiting) && Least(waiting) != WEST
    ensures Step(Crowd(o, waiting, start), Nobody()) == Crowd(o, waiting - {Least(waiting)}, Least(waiting) + 1)
  {
    hide Granted, Served, Least;
    var r, w := Crowd(o, waiting, start), Nobody();
    var r' := Crowd(o, waiting - {Least(waiting)}, Least(waiting) + 1);
    forall i: Port
      ensures Step(r, w).slots[i] == r'.slots[i] && Step(r, w).rr[i] == r'.rr[i]
    {
      assert Step(r, w).slots[i] == NextSlot(r, w, i) && Step(r, w).rr[i] == NextPointer(r, w, i);
      CrowdGrants(o, waiting, start, i);
      CrowdServed(o, waiting, start, i);
    }
    SameRouter(Step(r, w), r');
  }

  lemma SameRouter(r: Router, r': Router)
    requires WellFormed(r) && WellFormed(r') && r.x == r'.x && r.y == r'.y
    requires forall i: Port :: r.slots[i] == r'.slots[i] && r.rr[i] == r'.rr[i]
    ensures r == r'
  {
    assert r.slots == r'.slots && r.rr == r'.rr;
  }

  /** The crowd forms in the cycle after reset. */
  lemma CrowdForms(o: Port, waiting: set<Port>)
    ensures Step(Reset(Coordinate(o), Coordinate(o)), Offers(o, waiting)) == Crowd(o, waiting, LOCAL)
  {
    hide Granted, Served;
    var r, w := Reset(Coordinate(o), Coordinate(o)), Offers(o, waiting);
    forall i: Port
      ensures Step(r, w).slots[i] == Crowd(o, waiting, LOCAL).slots[i] && Step(r, w).rr[i] == LOCAL
    {
      IdleStep(r, w, i);
    }
    SameRouter(Step(r, w), Crowd(o, waiting, LOCAL));
  }

  /** The last of a crowd waits while all others are served. */
  lemma {:induction false} TightRun(o: Port, waiting: set<Port>, start: Port) returns (rs: seq<Router>, ws: seq<Wires>)
    requires waiting != {} && start <= Least(waiting)
    ensures IsRun(rs, ws) && rs[0] == Crowd(o, waiting, start) && |ws| == |waiting| - 1
    ensures Waits(rs, ws, o, Greatest(waiting), waiting)
    ensures forall t :: 0 <= t < |ws| ==> ws[t] == Nobody()
    decreases |waiting|
  {
    hide Step, Served, Requests, Crowd, Least, Greatest;
    var first, last := Least(waiting), Greatest(waiting);
    var r := Crowd(o, waiting, start);
    CrowdIsRouter(o, waiting, start);
    if first == last {
      assert waiting == {last};
      rs, ws := [r], [];
    } else {
      var rest := waiting - {first};
      assert last in rest;
      var rs', ws' := TightRun(o, rest, first + 1);
      assert Greatest(rest) == last;
      CrowdStep(o, waiting, start);
      CrowdServed(o, waiting, start, last);
      rs, ws := [r] + rs', [Nobody()] + ws';
      forall j: Port
        ensures Requests(r, o, j) <==> j in waiting
      {
        CrowdRequests(o, waiting, start, o, j);
      }
      Prepend(r, rs', ws', o, last, rest, waiting);
    }
  }

  lemma CrowdIsRouter(o: Port, waiting: set<Port>, start: Port)
    ensures WellFormed(Crowd(o, waiting, start))
  {
  }

  lemma Prepend(r: Router, rs: seq<Router>, ws: seq<Wires>, o: Port, i: Port, rest: set<Port>, waiting: set<Port>)
    requires WellFormed(r) && IsRun(rs, ws) && rs[0] == Step(r, Nobody()) && Waits(rs, ws, o, i, rest)
    requires rest <= waiting
    requires Requests(r, o, i) && !Served(r, Nobody(), i) && forall j: Port :: Requests(r, o, j) ==> j in waiting
    ensures IsRun([r] + rs, [Nobody()] + ws) && Waits([r] + rs, [Nobody()] + ws, o, i, waiting)
  {
    hide Step, Served, Requests;
  }

  lemma {:induction false} AlwaysReady(ws: seq<Wires>, o: Port)
    requires forall t :: 0 <= t < |ws| ==> WellFormedWires(ws[t]) && ws[t].ready[o]
    ensures ReadyCycles(ws, o) == |ws|
    decreases |ws|
  {
    if |ws| > 0 {
      AlwaysReady(ws[..|ws| - 1], o);
    }
  }

  // ----------------------------------------------------------------------
  // The exact bound
  // ----------------------------------------------------------------------

  /** A run, reachable from reset, in which an input waits through all but one of as many ready
      cycles as there are inputs that request its output. */
  lemma SlowestRun(o: Port, allowed: set<Port>) returns (rs: seq<Router>, ws: seq<Wires>)
    requires allowed != {}
    ensures IsRun(rs, ws) && rs[0] == Step(Reset(Coordinate(o), Coordinate(o)), Offers(o, allowed))
    ensures Waits(rs, ws, o, Greatest(allowed), allowed) && ReadyCycles(ws, o) == |allowed| - 1
  {
    hide Step, Served, Requests, Crowd, Least, Greatest;
    CrowdForms(o, allowed);
    rs, ws := TightRun(o, allowed, LOCAL);
    AlwaysReady(ws, o);
  }

  /** For every output and every set of inputs that may request it: service within n ready cycles
      is guaranteed if and only if the set has at most n members. */
  lemma ServesWithinIff(o: Port, allowed: set<Port>, n: nat)
    ensures ServesWithin(o, allowed, n) <==> |allowed| <= n
  {
    hide Step, Served, Requests, Greatest, Offers;
    if |allowed| <= n {
      forall rs: seq<Router>, ws: seq<Wires>, i: Port | IsRun(rs, ws) && Waits(rs, ws, o, i, allowed)
        ensures ReadyCycles(ws, o) < n
      {
        BoundedWait(rs, ws, o, i, allowed);
      }
    } else {
      var rs, ws := SlowestRun(o, allowed);
      assert Waits(rs, ws, o, Greatest(allowed), allowed);
    }
  }
}

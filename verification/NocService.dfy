/** Bounded service of a round-robin output: a waiting input is overtaken at most once by
    each other input that can request the same output. */
module NocService {
  import opened NocRouter

  /** Inputs that stand before i in the scanning order, among those that may request. */
  ghost function Ahead(r: Router, o: Port, i: Port, allowed: set<Port>): set<Port>
    requires WellFormed(r)
  {
    set j: Port | j in allowed && Distance(r.rr[o], j) < Distance(r.rr[o], i)
  }

  /** A run of one router under arbitrary inputs and output readiness. */
  ghost predicate IsRun(rs: seq<Router>, ws: seq<Wires>) {
    && |rs| == |ws| + 1
    && (forall t :: 0 <= t < |rs| ==> WellFormed(rs[t]))
    && (forall t :: 0 <= t < |ws| ==> WellFormedWires(ws[t]) && rs[t + 1] == Step(rs[t], ws[t]))
  }

  /** Cycles in which the output was ready. */
  function ReadyCycles(ws: seq<Wires>, o: Port): nat
    requires forall t :: 0 <= t < |ws| ==> WellFormedWires(ws[t])
  {
    if |ws| == 0 then 0
    else
      assert WellFormedWires(ws[|ws| - 1]);
      ReadyCycles(ws[..|ws| - 1], o) + (if ws[|ws| - 1].ready[o] then 1 else 0)
  }

  lemma PointerPasses(start: Port, served: Port, i: Port, j: Port)
    requires Distance(start, served) < Distance(start, i)
    requires Distance(NextRr(served), j) < Distance(NextRr(served), i)
    ensures Distance(start, served) < Distance(start, j) < Distance(start, i)
  {
  }

  /** Each ready cycle spent waiting removes one input from those ahead, for good. */
  lemma AheadShrinks(r: Router, w: Wires, o: Port, i: Port, allowed: set<Port>)
    requires WellFormed(r) && WellFormedWires(w) && Requests(r, o, i) && !Served(r, w, i)
    requires forall j: Port :: Requests(r, o, j) ==> j in allowed
    ensures |Ahead(Step(r, w), o, i, allowed)| <= |Ahead(r, o, i, allowed)| - (if w.ready[o] then 1 else 0)
  {
    hide Step, Requests, Granted, Served, Distance;
    WaitingGetsCloser(r, w, o, i);
    var r' := Step(r, w);
    if w.ready[o] {
      var served := Granted(r, o).input;
      GrantsNearest(r, o);
      assert served in Ahead(r, o, i, allowed);
      forall j | j in Ahead(r', o, i, allowed)
        ensures j in Ahead(r, o, i, allowed) - {served}
      {
        PointerPasses(r.rr[o], served, i, j);
      }
      SubsetSize(Ahead(r', o, i, allowed), Ahead(r, o, i, allowed) - {served});
    } else {
      assert Ahead(r', o, i, allowed) == Ahead(r, o, i, allowed);
    }
  }

  lemma SubsetSize<T>(a: set<T>, b: set<T>)
    requires a <= b
    ensures |a| <= |b|
  {
    assert b == a + (b - a);
  }

  lemma {:induction false} AheadDuring(rs: seq<Router>, ws: seq<Wires>, o: Port, i: Port, allowed: set<Port>)
    requires IsRun(rs, ws)
    requires forall t :: 0 <= t < |ws| ==> Requests(rs[t], o, i) && !Served(rs[t], ws[t], i)
    requires forall t, j: Port :: 0 <= t < |ws| && Requests(rs[t], o, j) ==> j in allowed
    ensures |Ahead(rs[|ws|], o, i, allowed)| + ReadyCycles(ws, o) <= |Ahead(rs[0], o, i, allowed)|
    decreases |ws|
  {
    hide Step, Requests, Served, Ahead;
    if |ws| > 0 {
      var k := |ws| - 1;
      assert IsRun(rs[..|ws|], ws[..k]);
      AheadDuring(rs[..|ws|], ws[..k], o, i, allowed);
      AheadShrinks(rs[k], ws[k], o, i, allowed);
    }
  }

  /** While an input waits, its output is ready in fewer cycles than there are inputs that may
      request it: it is served no later than that many ready cycles. */
  lemma BoundedWait(rs: seq<Router>, ws: seq<Wires>, o: Port, i: Port, allowed: set<Port>)
    requires IsRun(rs, ws) && i in allowed
    requires forall t :: 0 <= t < |ws| ==> Requests(rs[t], o, i) && !Served(rs[t], ws[t], i)
    requires forall t, j: Port :: 0 <= t < |ws| && Requests(rs[t], o, j) ==> j in allowed
    ensures ReadyCycles(ws, o) < |allowed|
  {
    AheadDuring(rs, ws, o, i, allowed);
    SubsetSize(Ahead(rs[0], o, i, allowed), allowed - {i});
  }

  /** A router on its own: whatever its neighbours do, the fifth ready cycle serves. */
  lemma RouterServesWithinFive(rs: seq<Router>, ws: seq<Wires>, o: Port, i: Port)
    requires IsRun(rs, ws)
    requires forall t :: 0 <= t < |ws| ==> Requests(rs[t], o, i) && !Served(rs[t], ws[t], i)
    ensures ReadyCycles(ws, o) <= 4
  {
    var all: set<Port> := {0, 1, 2, 3, 4};
    assert |all| == 5;
    BoundedWait(rs, ws, o, i, all);
  }

  /** How often the packet that an output presents is replaced by another during a run. */
  function Replacements(rs: seq<Router>, o: Port): nat
    requires forall t :: 0 <= t < |rs| ==> WellFormed(rs[t])
  {
    if |rs| <= 1 then 0
    else
      var k := |rs| - 1;
      assert WellFormed(rs[k]) && WellFormed(rs[k - 1]);
      Replacements(rs[..k], o) + (if Output(rs[k], o) != Output(rs[k - 1], o) then 1 else 0)
  }

  lemma {:induction false} StalledRun(rs: seq<Router>, ws: seq<Wires>, o: Port)
    requires IsRun(rs, ws) && Granted(rs[0], o).To? && forall t :: 0 <= t < |ws| ==> !ws[t].ready[o]
    ensures rs[|ws|].rr[o] == rs[0].rr[o] && Granted(rs[|ws|], o).To?
    ensures Distance(rs[0].rr[o], Granted(rs[|ws|], o).input) + Replacements(rs, o) <=
            Distance(rs[0].rr[o], Granted(rs[0], o).input)
    decreases |ws|
  {
    hide Step, Granted, Output, Distance;
    if |ws| > 0 {
      var k := |ws| - 1;
      assert IsRun(rs[..|ws|], ws[..k]);
      StalledRun(rs[..|ws|], ws[..k], o);
      StalledOutput(rs[k], ws[k], o);
    }
  }

  /** However long an output is stalled, it stays valid, its pointer stays put, and the packet it
      presents is replaced at most four times. */
  lemma StallReplacesAtMostFour(rs: seq<Router>, ws: seq<Wires>, o: Port)
    requires IsRun(rs, ws) && Output(rs[0], o).Full? && forall t :: 0 <= t < |ws| ==> !ws[t].ready[o]
    ensures Output(rs[|ws|], o).Full? && rs[|ws|].rr[o] == rs[0].rr[o] && Replacements(rs, o) <= 4
  {
    hide Step, Granted;
    StalledRun(rs, ws, o);
    GrantsNearest(rs[|ws|], o);
  }
}

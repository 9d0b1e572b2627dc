/** Memory traffic: exactly one store per write and one fetch per read miss, in request order, and
    nothing for a hit. This depends on tags alone, so it holds over every memory, aliases included. */
module CacheTraffic {
  import opened Powers
  import opened CacheV2
  import opened CacheRefinement

  function HeldTag(line: Line): Resident {
    if line.valid then Holds(line.tag) else Nothing
  }

  ghost predicate TagsAgree(s: System, rs: seq<Request>)
    requires WellFormed(s)
  {
    forall x: nat :: x < 16 ==> ResidentTag(rs, x) == HeldTag(s.cache.lines[x])
  }

  /** Tags and traffic are those of the requests that have taken effect. */
  ghost predicate TrafficAgrees(s: System, rs: seq<Request>, answered: nat, ts: seq<Transaction>)
    requires WellFormed(s)
  {
    && Control(s, rs, answered)
    && TagsAgree(s, Effective(s, rs, answered)) && ts == FlatTraffic(Effective(s, rs, answered))
  }

  /** One more request: a hit adds nothing, a miss a fetch and a tag, a write a store. */
  lemma OneRequest(s: System, rs: seq<Request>)
    requires WellFormed(s) && TagsAgree(s, rs)
    ensures var r := s.cache.req;
      && FlatTraffic(rs + [r]) == FlatTraffic(rs) + (if !r.write && Hit(s.cache) then [] else
           [if r.write then Store(WordAddr(r), r.wdata, r.wstrb) else Fetch(WordAddr(r))])
      && forall x: nat :: x < 16 ==>
           ResidentTag(rs + [r], x) == if !r.write && x == Index(r) then Holds(Tag(r)) else ResidentTag(rs, x)
  {
    hide WordAddr, Index, Tag;
    assert (rs + [s.cache.req])[..|rs|] == rs;
  }

  lemma CycleKeepsTraffic(s: System, i: Inputs, rs: seq<Request>, answered: nat, ts: seq<Transaction>)
    requires WellFormed(s) && TrafficAgrees(s, rs, answered, ts)
    ensures TrafficAgrees(Step(s, i), if Accepts(s, i) then rs + [i.req] else rs,
                          if Responds(s, i) then answered + 1 else answered,
                          if Completes(s, i) then ts + [Completed(s)] else ts)
  {
    hide Index, Tag, WordAddr, Cell, MergeWstrb, FlatTraffic, ResidentTag;
    var s' := Step(s, i);
    if s.cache.state == IDLE {
      assert (rs + [i.req])[..|rs|] == rs;
    } else if s.cache.state != RESP {
      Last(rs, answered);
      OneRequest(s, rs[..answered]);
    }
  }

  lemma {:induction false} RunKeepsTraffic(memory: seq<Word>, ins: seq<Inputs>)
    requires |memory| > 0
    ensures TrafficAgrees(Run(memory, ins), Accepted(memory, ins), |Responses(memory, ins)|, Transactions(memory, ins))
  {
    hide Step, TrafficAgrees;
    if |ins| == 0 {
      NoTrafficAtReset(memory);
    } else {
      var before, i := ins[..|ins| - 1], ins[|ins| - 1];
      RunKeepsTraffic(memory, before);
      CycleKeepsTraffic(Run(memory, before), i, Accepted(memory, before), |Responses(memory, before)|,
        Transactions(memory, before));
    }
  }

  lemma NoTrafficAtReset(memory: seq<Word>)
    requires |memory| > 0
    ensures TrafficAgrees(Reset(memory), [], 0, [])
  {
  }

  /** In every run, over every memory, under any stalls: the completed transactions are those of
      the answered requests, or already those of all accepted ones, and these exactly when the pending
      request has taken effect. */
  lemma TrafficIsMinimal(memory: seq<Word>, ins: seq<Inputs>)
    requires |memory| > 0
    ensures var rs, n := Accepted(memory, ins), |Responses(memory, ins)|; var state := Run(memory, ins).cache.state;
      && n <= |rs| <= n + 1
      && Transactions(memory, ins) == FlatTraffic(if state == IDLE || state == RESP then rs else rs[..n])
      && (n == |rs| ==> Transactions(memory, ins) == FlatTraffic(rs))
  {
    hide Run, Accepted, Responses, Transactions, FlatTraffic, TagsAgree;
    RunKeepsTraffic(memory, ins);
    var rs := Accepted(memory, ins);
    assert rs[..|rs|] == rs;
  }
}

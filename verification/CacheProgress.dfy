/** How long a request takes: the cache never holds one back by itself. */
module CacheProgress {
  import opened Powers
  import opened CacheV2

  /** A request has been accepted and not yet answered. */
  predicate Pending(s: System) {
    s.cache.state != IDLE
  }

  /** Cycles that a pending request still needs when neither side stalls. */
  function CyclesLeft(s: System): nat {
    match s.cache.state
    case IDLE => 0
    case LOOKUP => 3
    case REFILL => 2
    case MEM_WRITE => 2
    case RESP => 1
  }

  /** The other side holds the cache up in this cycle. */
  predicate Stalled(s: System, i: Inputs) {
    match s.cache.state
    case IDLE => false
    case LOOKUP => false
    case REFILL => !i.memReady
    case MEM_WRITE => !i.memReady
    case RESP => !i.rspReady
  }

  /** Cycles of a run in which memReady or rspReady was low. */
  function LowCycles(ins: seq<Inputs>): nat {
    if |ins| == 0 then 0
    else LowCycles(ins[..|ins| - 1]) + (if ins[|ins| - 1].memReady && ins[|ins| - 1].rspReady then 0 else 1)
  }

  /** A stalled cycle changes nothing, and any other brings a pending request nearer its answer. */
  lemma CycleAdvances(s: System, i: Inputs)
    requires WellFormed(s) && Pending(s)
    ensures Stalled(s, i) ==> Step(s, i) == s
    ensures !Stalled(s, i) ==> CyclesLeft(Step(s, i)) < CyclesLeft(s)
    ensures Responds(s, i) <==> !Pending(Step(s, i))
    ensures Stalled(s, i) ==> !(i.memReady && i.rspReady)
  {
    hide MergeWstrb, Hit, Index, Cell;
  }

  /** What is pending and what has been answered tell each other. */
  lemma {:induction false} PendingIff(memory: seq<Word>, ins: seq<Inputs>)
    requires |memory| > 0
    ensures |Accepted(memory, ins)| == |Responses(memory, ins)| + (if Pending(Run(memory, ins)) then 1 else 0)
  {
    hide Hit, NextLines, NextMemory, NextResponse;
    if |ins| > 0 {
      PendingIff(memory, ins[..|ins| - 1]);
    }
  }

  /** As long as it is not answered, a request has used up no more cycles than were stalled. */
  lemma {:induction false} Waiting(memory: seq<Word>, ins: seq<Inputs>, next: seq<Inputs>)
    requires |memory| > 0 && Pending(Run(memory, ins))
    ensures |Responses(memory, ins + next)| >= |Responses(memory, ins)|
    ensures |Responses(memory, ins + next)| == |Responses(memory, ins)| ==>
      var s, s' := Run(memory, ins), Run(memory, ins + next);
      Pending(s') && |next| + CyclesLeft(s') <= LowCycles(next) + CyclesLeft(s)
  {
    hide Step, LowCycles;
    if |next| == 0 {
      assert ins + next == ins;
      NoLowCycles(next);
    } else {
      var before, i := next[..|next| - 1], next[|next| - 1];
      Waiting(memory, ins, before);
      LowCyclesGrow(next);
      assert (ins + next)[..|ins + next| - 1] == ins + before;
      var s := Run(memory, ins + before);
      if Pending(s) {
        CycleAdvances(s, i);
      }
    }
  }

  lemma NoLowCycles(ins: seq<Inputs>)
    requires |ins| == 0
    ensures LowCycles(ins) == 0
  {
  }

  lemma LowCyclesGrow(ins: seq<Inputs>)
    requires |ins| > 0
    ensures var i := ins[|ins| - 1];
      LowCycles(ins) == LowCycles(ins[..|ins| - 1]) + (if i.memReady && i.rspReady then 0 else 1)
  {
  }

  /** Response bound, for every run and every continuation of it: an accepted request is answered
      within three cycles and those in which the memory or the requester was not ready. */
  lemma AnsweredInTime(memory: seq<Word>, ins: seq<Inputs>, next: seq<Inputs>)
    requires |memory| > 0 && |Accepted(memory, ins)| > |Responses(memory, ins)|
    requires |next| >= 3 + LowCycles(next)
    ensures |Responses(memory, ins + next)| >= |Accepted(memory, ins)|
  {
    hide Run, Responses, Accepted, LowCycles;
    PendingIff(memory, ins);
    Waiting(memory, ins, next);
  }

  /** An idle cache takes every request it is offered, whatever the memory does: with all accepted
      requests answered, an offer is accepted on that edge, and in no other case is anything. */
  lemma AcceptsWhenIdle(memory: seq<Word>, ins: seq<Inputs>, i: Inputs)
    requires |memory| > 0
    ensures Accepted(memory, ins + [i]) ==
            if i.reqValid && |Accepted(memory, ins)| == |Responses(memory, ins)| then Accepted(memory, ins) + [i.req]
            else Accepted(memory, ins)
  {
    hide Run, Step;
    assert (ins + [i])[..|ins|] == ins;
    PendingIff(memory, ins);
  }
}

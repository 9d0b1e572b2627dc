/** Whole runs of the core against whole runs of the emulator. */
module CpuLockstep {
  import opened Powers
  import opened Rv32i
  import opened CpuExecCore
  import opened Rv32iEmulator
  import opened CpuSimulation

  /** The emulator is about to execute an instruction of the program. */
  predicate Fetches(r: Request, p: Progress) {
    p.Running? && p.m.pc % 4 == 0 && p.m.pc / 4 < r.count
  }

  function Fetched(r: Request, p: Progress): Word
    requires ValidRequest(r) && Fetches(r, p)
  {
    r.program[p.m.pc / 4]
  }

  ghost predicate StaysNow(r: Request, p: Progress, addresses: iset<Word>)
    requires ValidRequest(r)
  {
    Fetches(r, p) ==> StaysAt(Fetched(r, p), p.m, addresses)
  }

  /** The loads and stores of the first n emulator steps use only the given addresses. */
  ghost predicate StaysIn(r: Request, n: nat, addresses: iset<Word>)
    requires ValidRequest(r)
  {
    forall k: nat :: k < n ==> StaysNow(r, After(r, k), addresses)
  }

  predicate ImplementedNow(r: Request, p: Progress)
    requires ValidRequest(r)
  {
    Fetches(r, p) ==> Implemented(Fetched(r, p), p.m)
  }

  /** The core at PC 0 with the program and the registers loaded and its data memory cleared. */
  predicate Starts(c: Core, r: Request)
    requires ValidRequest(r)
  {
    c.pc == 0 && c.banks.ints == r.regs && SameProgram(c, r) && c.memory == ClearedMemory()
  }

  ghost predicate MatchesAfter(c: Core, r: Request, n: nat, addresses: iset<Word>)
    requires ValidRequest(r)
  {
    After(r, n).Running? && Matches(Run(c, n), After(r, n).m, addresses)
  }

  lemma StartMatches(c: Core, r: Request, addresses: iset<Word>)
    requires ValidRequest(r) && Starts(c, r)
    ensures MatchesAfter(c, r, 0, addresses)
  {
  }

  lemma {:induction false} ProgramKept(c: Core, r: Request, n: nat)
    requires ValidRequest(r) && SameProgram(c, r)
    ensures SameProgram(Run(c, n), r)
  {
    hide NextPc, NextBanks, NextMemory;
    if n > 0 {
      ProgramKept(c, r, n - 1);
    }
  }

  /** Clearing x0 after an instruction changes nothing: no instruction writes it. */
  lemma ZeroStays(i: Word, m: Machine)
    requires m.regs[0] == 0 && ExecuteInstruction(i, m).Done?
    ensures var regs := ExecuteInstruction(i, m).m.regs; regs[0 := 0] == regs
  {
    hide Field, RType, ImmediateI, ImmediateS, ImmediateB, Wrap;
  }

  lemma RunningBefore(r: Request, n: nat)
    requires ValidRequest(r) && n > 0 && After(r, n).Running?
    ensures var p := After(r, n - 1);
      Fetches(r, p) && ExecuteInstruction(Fetched(r, p), p.m).Done?
      && After(r, n) == Turn(r, p.m, p.trace)
  {
    hide ExecuteInstruction;
  }

  /** Out of a matching state, the next states match exactly when the instruction is implemented. */
  lemma TurnMatchesIff(c: Core, r: Request, n: nat, addresses: iset<Word>)
    requires Accepted(r) && SameProgram(c, r) && AliasFree(addresses)
    requires MatchesAfter(c, r, n, addresses) && After(r, n + 1).Running? && StaysNow(r, After(r, n), addresses)
    ensures MatchesAfter(c, r, n + 1, addresses) <==> ImplementedNow(r, After(r, n))
    ensures Opcode(Fetched(r, After(r, n))) != OP_IMM ==>
              After(r, n + 1).trace == After(r, n).trace + [After(r, n + 1).trace[|After(r, n).trace|]]
              && CoreCommit(Run(c, n)) == Architectural(After(r, n + 1).trace[|After(r, n).trace|])
  {
    hide After, ExecuteInstruction, Step, AliasFree, StaysAt, InScope, Implemented, CoreCommit, Field, SameMemory;
    RunningBefore(r, n + 1);
    var p := After(r, n);
    var i := Fetched(r, p);
    ProgramKept(c, r, n);
    assert Instruction(Run(c, n)) == i;
    StepMatchesIff(Run(c, n), p.m, i, addresses);
    ZeroStays(i, p.m);
  }

  lemma {:induction false} RunningPrefix(r: Request, n: nat, k: nat)
    requires ValidRequest(r) && k <= n && After(r, n).Running?
    ensures After(r, k).Running?
  {
    hide Turn;
    if k < n {
      RunningPrefix(r, n - 1, k);
    }
  }

  /** The core keeps step with the emulator for n steps if and only if none of the n instructions
      is an ADDI that changes a register. */
  lemma {:induction false} LockstepIff(c: Core, r: Request, n: nat, addresses: iset<Word>)
    requires Accepted(r) && Starts(c, r) && AliasFree(addresses)
    requires After(r, n).Running? && StaysIn(r, n, addresses)
    ensures (forall k: nat :: k <= n ==> MatchesAfter(c, r, k, addresses)) <==>
            (forall k: nat :: k < n ==> ImplementedNow(r, After(r, k)))
  {
    hide After, MatchesAfter, ImplementedNow, StaysNow, Starts, SameProgram, InScope, AliasFree;
    StartMatches(c, r, addresses);
    if n > 0 {
      RunningPrefix(r, n, n - 1);
      LockstepIff(c, r, n - 1, addresses);
      StartsWithProgram(c, r);
      if MatchesAfter(c, r, n - 1, addresses) {
        TurnMatchesIff(c, r, n - 1, addresses);
      }
    }
  }

  lemma StartsWithProgram(c: Core, r: Request)
    requires ValidRequest(r) && Starts(c, r)
    ensures SameProgram(c, r)
  {
  }

  // ----------------------------------------------------------------------
  // The subset both sides implement
  // ----------------------------------------------------------------------

  /** A program the emulator accepts and that has no ADDI: the eight R-type operations, BEQ, LW and SW. */
  predicate SharedSubset(r: Request) {
    Accepted(r) && forall k :: 0 <= k < r.count ==> Opcode(r.program[k]) != OP_IMM
  }

  function CoreTrace(c: Core, n: nat): seq<Commit> {
    if n == 0 then [] else CoreTrace(c, n - 1) + [CoreCommit(Run(c, n - 1))]
  }

  function ArchitecturalTrace(trace: seq<Commit>): seq<Commit> {
    seq(|trace|, k requires 0 <= k < |trace| => Architectural(trace[k]))
  }

  /** PC, registers, memory and the trace of commits, after n clock edges and n emulator steps. */
  ghost predicate Follows(c: Core, r: Request, n: nat, addresses: iset<Word>)
    requires ValidRequest(r)
  {
    MatchesAfter(c, r, n, addresses) && CoreTrace(c, n) == ArchitecturalTrace(After(r, n).trace)
      && |After(r, n).trace| == n
  }

  /** Simulation: for as long as the emulator executes instructions of a program in the shared
      subset, each clock edge of the core matches one step. */
  lemma {:induction false} SimulatesEmulator(c: Core, r: Request, n: nat, addresses: iset<Word>)
    requires SharedSubset(r) && Starts(c, r) && AliasFree(addresses)
    requires After(r, n).Running? && StaysIn(r, n, addresses)
    ensures Follows(c, r, n, addresses)
  {
    hide After, AliasFree, StaysNow, Opcode, Starts, InScope, MatchesAfter, ArchitecturalTrace;
    if n == 0 {
      StartMatches(c, r, addresses);
      StartTrace(r);
    } else {
      RunningPrefix(r, n, n - 1);
      SimulatesEmulator(c, r, n - 1, addresses);
      StartsWithProgram(c, r);
      FollowsStep(c, r, n, addresses);
    }
  }

  lemma FollowsStep(c: Core, r: Request, n: nat, addresses: iset<Word>)
    requires n > 0 && SharedSubset(r) && SameProgram(c, r) && AliasFree(addresses)
    requires Follows(c, r, n - 1, addresses) && After(r, n).Running? && StaysNow(r, After(r, n - 1), addresses)
    ensures Follows(c, r, n, addresses)
  {
    hide After, AliasFree, Opcode, CoreCommit, SameProgram, InScope, ArchitecturalTrace, Architectural;
    hide Matches, Run, ExecuteInstruction, Turn, StaysAt;
    RunningBefore(r, n);
    TurnMatchesIff(c, r, n - 1, addresses);
    TraceGrows(After(r, n - 1).trace, After(r, n).trace[n - 1]);
  }

  lemma StartTrace(r: Request)
    requires ValidRequest(r)
    ensures After(r, 0).trace == [] && ArchitecturalTrace([]) == []
  {
  }

  lemma TraceGrows(trace: seq<Commit>, commit: Commit)
    ensures ArchitecturalTrace(trace + [commit]) == ArchitecturalTrace(trace) + [Architectural(commit)]
  {
  }

  /** A run that left the loop had reached its last state by executing every commit of its trace. */
  lemma {:induction false} StoppedAt(r: Request, n: nat)
    requires ValidRequest(r) && !After(r, n).Failed?
    ensures |After(r, n).trace| <= n
    ensures After(r, |After(r, n).trace|) == Running(After(r, n).m, After(r, n).trace)
    ensures After(r, n).Stopped? ==> After(r, n).m.pc % 4 == 0 && After(r, n).m.pc / 4 >= r.count
  {
    hide ExecuteInstruction;
    if n > 0 {
      StoppedAt(r, n - 1);
    }
  }

  /** An all-zero instruction holds the whole core. */
  lemma {:induction false} ZeroHolds(c: Core, k: nat)
    requires Instruction(c) == 0
    ensures Run(c, k) == c
  {
    hide Step, Instruction;
    if k > 0 {
      ZeroHolds(c, k - 1);
      ZeroStep(c);
    }
  }

  lemma ZeroStep(c: Core)
    requires Instruction(c) == 0
    ensures Step(c, EXECUTE) == c
  {
    hide NextPc, Writeback, AluOut, Instruction;
    assert Opcode(0) == 0;
  }

  /** What execute reports is what the core reaches after as many clock edges as there are
      commits, and where an all-zero word follows the program the core then stays there. */
  lemma ResultMatches(c: Core, r: Request, addresses: iset<Word>, k: nat)
    requires SharedSubset(r) && Starts(c, r) && AliasFree(addresses) && StaysIn(r, r.limit, addresses)
    requires Result(r).Pass?
    ensures var result, n := Result(r), |Result(r).trace|; var end := Run(c, n);
      && end.pc == result.pc && end.banks.ints == result.regs && CoreTrace(c, n) == ArchitecturalTrace(result.trace)
      && (Instruction(end) == 0 ==> Run(end, k) == end)
  {
    hide After, AliasFree, InScope, Opcode, Starts, StaysNow, Field, SameMemory;
    var n := |Result(r).trace|;
    StoppedAt(r, r.limit);
    SimulatesEmulator(c, r, n, addresses);
    if Instruction(Run(c, n)) == 0 {
      ZeroHolds(Run(c, n), k);
    }
  }
}

/** The emulator in the form of its source: a loop that fetches, executes in place on the
    register list and the memory dictionary, and collects the trace. */
module Rv32iBackend {
  import opened Powers
  import opened Rv32i
  import opened Rv32iEmulator

  datatype Scope = InScopeAll | FirstOutside(index: nat)

  datatype Executed = Raises(error: Error) | Commits(commit: Commit, nextPc: nat)

  class Backend {
    var regs: Registers
    var memory: Memory

    constructor () {
      regs, memory := seq(32, _ => 0), map[];
    }

    function State(pc: nat): Machine
      reads this
    {
      Machine(pc, regs, memory)
    }

    /** _validate_request_scope, after its check for an empty program. */
    static method ValidateScope(r: Request) returns (scope: Scope)
      requires ValidRequest(r)
      ensures scope == InScopeAll <==> forall k :: 0 <= k < r.count ==> InScope(r.program[k])
      ensures scope.FirstOutside? ==> scope.index < r.count && !InScope(r.program[scope.index])
      ensures scope.FirstOutside? ==> forall k :: 0 <= k < scope.index ==> InScope(r.program[k])
    {
      hide InScope;
      for index := 0 to r.count
        invariant forall k :: 0 <= k < index ==> InScope(r.program[k])
      {
        if !InScope(r.program[index]) {
          return FirstOutside(index);
        }
      }
      return InScopeAll;
    }

    /** _execute_instruction: registers and memory change only when it returns a commit. */
    method ExecuteInPlace(i: Word, pc: nat) returns (executed: Executed)
      modifies this
      ensures match ExecuteInstruction(i, old(State(pc)))
        case Raised(error) => executed == Raises(error) && State(pc) == old(State(pc))
        case Done(m, commit) => executed == Commits(commit, m.pc) && State(m.pc) == m
    {
      hide Field, SignExtend, Bitwise, Pow2;
      var rd, rs1, rs2, nextPc := Rd(i), Rs1(i), Rs2(i), pc + 4;
      if Opcode(i) == OP_IMM {
        var result := Wrap(regs[rs1] + ImmediateI(i));
        WriteBack(rd, result);
        return Commits(Commit(pc, i, Writes(rd, if rd == 0 then 0 else result)), nextPc);
      }
      if Opcode(i) == OP {
        match RType(i, regs[rs1], regs[rs2]) {
          case NoSuchOperation => return Raises(Unsupported(i));
          case Value(v) =>
            var result := Wrap(v);
            WriteBack(rd, result);
            return Commits(Commit(pc, i, Writes(rd, if rd == 0 then 0 else result)), nextPc);
        }
      }
      if Opcode(i) == BRANCH && Funct3(i) == 0 {
        if regs[rs1] == regs[rs2] {
          nextPc := Wrap(pc + ImmediateB(i));
        }
        return Commits(Commit(pc, i, NoDestination), nextPc);
      }
      if Opcode(i) == LOAD && Funct3(i) == 2 {
        var address := Wrap(regs[rs1] + ImmediateI(i));
        if address % 4 != 0 {
          return Raises(MisalignedAccess(address));
        }
        var value := if address in memory then memory[address] else 0;
        WriteBack(rd, value);
        return Commits(Commit(pc, i, Writes(rd, if rd == 0 then 0 else value)), nextPc);
      }
      if Opcode(i) == STORE && Funct3(i) == 2 {
        var address := Wrap(regs[rs1] + ImmediateS(i));
        if address % 4 != 0 {
          return Raises(MisalignedAccess(address));
        }
        memory := memory[address := regs[rs2]];
        return Commits(Commit(pc, i, NoDestination), nextPc);
      }
      return Raises(Unsupported(i));
    }

    method WriteBack(rd: RegIndex, v: Word)
      modifies this`regs
      ensures regs == SetRegister(old(regs), rd, v)
    {
      if rd != 0 {
        regs := regs[rd := v];
      }
    }

    /** execute: the reported result is that of the specification run. */
    method Execute(r: Request) returns (result: IssResult)
      requires ValidRequest(r)
      modifies this
      ensures result == Result(r)
    {
      hide InScope, ExecuteInstruction;
      if r.count == 0 {
        return Fail(EmptyProgram);
      }
      var scope := ValidateScope(r);
      if scope.FirstOutside? {
        FirstIs(r.program[..r.count], scope.index);
        return Fail(OutOfScope(scope.index));
      }
      regs := r.regs[0 := 0];
      memory := map[];
      var pc: nat := 0;
      var trace: seq<Commit> := [];
      while |trace| < r.limit
        invariant |trace| <= r.limit
        invariant After(r, |trace|) == Running(State(pc), trace)
      {
        if pc % 4 != 0 {
          Settles(r, |trace| + 1, r.limit);
          return Fail(MisalignedPc(pc));
        }
        if pc / 4 >= r.count {
          Settles(r, |trace| + 1, r.limit);
          assert After(r, r.limit) == Stopped(State(pc), trace);
          break;
        }
        var executed := ExecuteInPlace(r.program[pc / 4], pc);
        match executed {
          case Raises(error) =>
            Settles(r, |trace| + 1, r.limit);
            return Fail(error);
          case Commits(commit, nextPc) =>
            trace := trace + [commit];
            regs := regs[0 := 0];
            pc := nextPc;
        }
      }
      return Passing(State(pc), trace);
    }
  }

  lemma {:induction false} FirstIs(program: seq<Word>, index: nat)
    requires index < |program| && !InScope(program[index])
    requires forall k :: 0 <= k < index ==> InScope(program[k])
    ensures FirstOutOfScope(program) == index
  {
    hide InScope;
    if index > 0 {
      FirstIs(program[1..], index - 1);
    }
  }

  /** Once a run has left the loop it no longer changes. */
  lemma {:induction false} Settles(r: Request, n: nat, limit: nat)
    requires ValidRequest(r) && n <= limit && !After(r, n).Running?
    ensures After(r, limit) == After(r, n)
    decreases limit
  {
    hide Turn;
    if n < limit {
      Settles(r, n, limit - 1);
    }
  }
}

/** scripts/riscv_iss/rv32i_emulator_backend.py and the contract of iss_contract.py: the
    architectural emulator. */
module Rv32iEmulator {
  import opened Powers
  import opened Rv32i

  datatype Error =
    | EmptyProgram
    | OutOfScope(index: nat)
    | MisalignedPc(pc: nat)
    | MisalignedAccess(address: Word)
    | Unsupported(instruction: Word)

  datatype Destination = NoDestination | Writes(rd: RegIndex, value: Word)

  datatype Commit = Commit(pc: nat, instruction: Word, dest: Destination)

  datatype Request = Request(program: seq<Word>, count: nat, regs: seq<Word>, limit: nat)

  datatype IssResult = Pass(pc: nat, regs: seq<Word>, trace: seq<Commit>) | Fail(error: Error)

  /** What ISSRequest checks when it is built. */
  predicate ValidRequest(r: Request) {
    |r.program| == 64 && |r.regs| == 32 && r.count <= 64 && r.limit > 0 && r.regs[0] == 0
  }

  type Memory = map<Word, Word>

  datatype Machine = Machine(pc: nat, regs: Registers, memory: Memory)

  /** memory.get(address, 0) */
  function Load(memory: Memory, address: Word): Word {
    if address in memory then memory[address] else 0
  }

  /** _sign_extend */
  function SignExtend(value: nat, width: nat): int
    requires width > 0
  {
    if (value / Pow2(width - 1)) % 2 == 1 then value - Pow2(width) else value
  }

  /** The I-immediate is instruction >> 20. */
  function ImmediateI(i: Word): int {
    SignExtend(i / 0x10_0000, 12)
  }

  function ImmediateS(i: Word): int {
    SignExtend(Bitwise(OR, Field(i, 25, 7) * 0x20, Field(i, 7, 5)), 12)
  }

  function ImmediateB(i: Word): int {
    SignExtend(
      Bitwise(OR, Bitwise(OR, Bitwise(OR, Field(i, 31, 1) * 0x1000, Field(i, 7, 1) * 0x800), Field(i, 25, 6) * 0x20),
              Field(i, 8, 4) * 2),
      13)
  }

  datatype Arithmetic = Value(v: int) | NoSuchOperation

  function RType(i: Word, left: Word, right: Word): Arithmetic {
    var shift := right % 32;
    var f3, f7 := Funct3(i), Funct7(i);
    if f3 == 0 && f7 == 0x00 then Value(left + right)
    else if f3 == 0 && f7 == 0x20 then Value(left - right)
    else if f3 == 7 && f7 == 0x00 then Value(Bitwise(AND, left, right))
    else if f3 == 6 && f7 == 0x00 then Value(Bitwise(OR, left, right))
    else if f3 == 4 && f7 == 0x00 then Value(Bitwise(XOR, left, right))
    else if f3 == 1 && f7 == 0x00 then Value(left * Pow2(shift))
    else if f3 == 5 && f7 == 0x20 then Value(Signed(left) / Pow2(shift))
    else if f3 == 2 && f7 == 0x00 then Value(if Signed(left) < Signed(right) then 1 else 0)
    else NoSuchOperation
  }

  datatype Outcome = Raised(error: Error) | Done(m: Machine, commit: Commit)

  function SetRegister(regs: Registers, rd: RegIndex, v: Word): Registers {
    if rd == 0 then regs else regs[rd := v]
  }

  /** Retiring an instruction that names a destination register. */
  function Retire(i: Word, m: Machine, v: Word): Outcome {
    Done(Machine(m.pc + 4, SetRegister(m.regs, Rd(i), v), m.memory),
         Commit(m.pc, i, Writes(Rd(i), if Rd(i) == 0 then 0 else v)))
  }

  function LoadAddress(i: Word, regs: Registers): Word {
    Wrap(regs[Rs1(i)] + ImmediateI(i))
  }

  function StoreAddress(i: Word, regs: Registers): Word {
    Wrap(regs[Rs1(i)] + ImmediateS(i))
  }

  /** _execute_instruction */
  function ExecuteInstruction(i: Word, m: Machine): Outcome {
    if Opcode(i) == OP_IMM then
      Retire(i, m, Wrap(m.regs[Rs1(i)] + ImmediateI(i)))
    else if Opcode(i) == OP then
      match RType(i, m.regs[Rs1(i)], m.regs[Rs2(i)])
      case Value(v) => Retire(i, m, Wrap(v))
      case NoSuchOperation => Raised(Unsupported(i))
    else if Opcode(i) == BRANCH && Funct3(i) == 0 then
      var taken := m.regs[Rs1(i)] == m.regs[Rs2(i)];
      Done(m.(pc := if taken then Wrap(m.pc + ImmediateB(i)) else m.pc + 4), Commit(m.pc, i, NoDestination))
    else if Opcode(i) == LOAD && Funct3(i) == 2 then
      var address := LoadAddress(i, m.regs);
      if address % 4 != 0 then Raised(MisalignedAccess(address))
      else Retire(i, m, Load(m.memory, address))
    else if Opcode(i) == STORE && Funct3(i) == 2 then
      var address := StoreAddress(i, m.regs);
      if address % 4 != 0 then Raised(MisalignedAccess(address))
      else Done(Machine(m.pc + 4, m.regs, m.memory[address := m.regs[Rs2(i)]]), Commit(m.pc, i, NoDestination))
    else Raised(Unsupported(i))
  }

  /** One encoding that _validate_request_scope lets through. */
  predicate InScope(i: Word) {
    if Opcode(i) == OP_IMM then Funct3(i) == 0
    else if Opcode(i) == OP then
      (Funct3(i), Funct7(i)) in {(0, 0x00), (0, 0x20), (7, 0x00), (6, 0x00), (4, 0x00), (1, 0x00), (5, 0x20), (2, 0x00)}
    else if Opcode(i) == BRANCH then Funct3(i) == 0
    else if Opcode(i) == LOAD then Funct3(i) == 2
    else if Opcode(i) == STORE then Funct3(i) == 2
    else false
  }

  // ----------------------------------------------------------------------
  // The loop of execute
  // ----------------------------------------------------------------------

  datatype Progress = Running(m: Machine, trace: seq<Commit>) | Stopped(m: Machine, trace: seq<Commit>)
      | Failed(error: Error)

  function Start(r: Request): Machine
    requires ValidRequest(r)
  {
    Machine(0, r.regs[0 := 0], map[])
  }

  /** One turn of the loop body. */
  function Turn(r: Request, m: Machine, trace: seq<Commit>): Progress
    requires ValidRequest(r)
  {
    if m.pc % 4 != 0 then Failed(MisalignedPc(m.pc))
    else if m.pc / 4 >= r.count then Stopped(m, trace)
    else
      match ExecuteInstruction(r.program[m.pc / 4], m)
      case Raised(error) => Failed(error)
      case Done(m', commit) => Running(m'.(regs := m'.regs[0 := 0]), trace + [commit])
  }

  /** The state after at most n turns. */
  function After(r: Request, n: nat): Progress
    requires ValidRequest(r)
  {
    if n == 0 then Running(Start(r), [])
    else
      match After(r, n - 1)
      case Running(m, trace) => Turn(r, m, trace)
      case other => other
  }

  /** A passing result must end on an aligned PC. */
  function Passing(m: Machine, trace: seq<Commit>): IssResult {
    if m.pc % 4 != 0 then Fail(MisalignedPc(m.pc)) else Pass(m.pc, m.regs, trace)
  }

  /** The index of the first instruction out of scope, or the number of instructions. */
  function FirstOutOfScope(program: seq<Word>): (k: nat)
    ensures k <= |program| && (forall j :: 0 <= j < k ==> InScope(program[j]))
    ensures (k < |program| ==> !InScope(program[k]))
  {
    if |program| == 0 then 0
    else if !InScope(program[0]) then 0
    else
      var k := FirstOutOfScope(program[1..]);
      assert forall j :: 0 < j <= k ==> program[j] == program[1..][j - 1];
      k + 1
  }

  /** execute */
  function Result(r: Request): IssResult
    requires ValidRequest(r)
  {
    if r.count == 0 then Fail(EmptyProgram)
    else if FirstOutOfScope(r.program[..r.count]) < r.count then Fail(OutOfScope(FirstOutOfScope(r.program[..r.count])))
    else
      match After(r, r.limit)
      case Failed(error) => Fail(error)
      case Running(m, trace) => Passing(m, trace)
      case Stopped(m, trace) => Passing(m, trace)
  }

  predicate Accepted(r: Request) {
    ValidRequest(r) && r.count > 0 && forall k :: 0 <= k < r.count ==> InScope(r.program[k])
  }
}

/** rtl/cpu_exec_core.sv with its control unit, register file, ALU and data memory: a
    single-cycle core as a state machine over clock edges. */
module CpuExecCore {
  import opened Powers
  import opened Rv32i
  import Alu

  // ----------------------------------------------------------------------
  // rtl/cu.sv
  // ----------------------------------------------------------------------

  datatype Control = Control(aluOp: nat, rs1: RegIndex, rs2: RegIndex, rd: RegIndex, isFp: bool,
                             memRead: bool, memWrite: bool, regWrite: bool, imm: Word, branch: bool)

  /** {20{instruction[31]}}, instruction[31:20] */
  function ImmI(i: Word): Word {
    SignFill(i, 0xFFFF_F000) + ITypeBits(i)
  }

  function SignFill(i: Word, ones: nat): nat {
    if Field(i, 31, 1) == 1 then ones else 0
  }

  function ITypeBits(i: Word): (v: nat)
    ensures v < 0x1000
  {
    Field(i, 20, 12)
  }

  /** instruction[31:25], instruction[11:7] */
  function STypeBits(i: Word): (v: nat)
    ensures v < 0x1000
  {
    Field(i, 25, 7) * 0x20 + Field(i, 7, 5)
  }

  function ImmS(i: Word): Word {
    SignFill(i, 0xFFFF_F000) + STypeBits(i)
  }

  /** instruction[31], instruction[7], instruction[30:25], instruction[11:8], 1'b0 */
  function BTypeBits(i: Word): (v: nat)
    ensures v < 0x2000
  {
    Field(i, 31, 1) * 0x1000 + Field(i, 7, 1) * 0x800 + Field(i, 25, 6) * 0x20 + Field(i, 8, 4) * 2
  }

  function ImmB(i: Word): Word {
    SignFill(i, 0xFFFF_E000) + BTypeBits(i)
  }

  const UNSUPPORTED_OP: nat := 15

  function AluOp(i: Word): nat {
    var funct7Bit5 := Field(i, 30, 1) == 1;
    match Funct3(i)
    case 0 => if funct7Bit5 then 6 else 2
    case 7 => 0
    case 6 => 1
    case 4 => 3
    case 1 => 4
    case 5 => if funct7Bit5 then 5 else UNSUPPORTED_OP
    case 2 => 7
    case _ => UNSUPPORTED_OP
  }

  function Decode(i: Word): Control {
    if Opcode(i) == OP then Control(AluOp(i), Rs1(i), Rs2(i), Rd(i), false, false, false, true, 0, false)
    else if Opcode(i) == LOAD then Control(0, Rs1(i), 0, Rd(i), false, true, false, true, ImmI(i), false)
    else if Opcode(i) == STORE then Control(0, Rs1(i), Rs2(i), 0, false, false, true, false, ImmS(i), false)
    else if Opcode(i) == BRANCH then Control(0, Rs1(i), Rs2(i), 0, false, false, false, false, ImmB(i), true)
    else Control(0, 0, 0, 0, false, false, false, false, 0, false)
  }

  // ----------------------------------------------------------------------
  // The core
  // ----------------------------------------------------------------------

  type Program = p: seq<Word> | |p| == 64 witness seq(64, _ => 0)

  type DataMemory = m: seq<Word> | |m| == 256 witness seq(256, _ => 0)

  /** The two halves of the register file. */
  datatype Banks = Banks(ints: Registers, fps: Registers)

  datatype Core = Core(pc: Word, banks: Banks, instrMem: Program, memory: DataMemory)

  type ProgramIndex = k: int | 0 <= k < 64

  datatype ProgramPort = NoProgram | WriteProgram(addr: ProgramIndex, data: Word)

  datatype InitPort = NoInit | InitRegister(addr: RegIndex, data: Word, fp: bool)

  /** The input pins on one clock edge. */
  datatype Inputs = Inputs(reset: bool, enable: bool, program: ProgramPort, init: InitPort)

  // ----------------------------------------------------------------------
  // rtl/register_file.sv
  // ----------------------------------------------------------------------

  /** A combinational read: integer x0 reads as zero whatever is stored. */
  function ReadPort(b: Banks, fp: bool, k: RegIndex): Word {
    if fp then b.fps[k] else if k == 0 then 0 else b.ints[k]
  }

  function WritePort(b: Banks, fp: bool, k: RegIndex, data: Word): Banks {
    if fp then b.(fps := b.fps[k := data]) else if k == 0 then b else b.(ints := b.ints[k := data])
  }

  function ClearedBanks(): Banks {
    Banks(seq(32, _ => 0), seq(32, _ => 0))
  }

  /** What a port reads after a write: the data where it was written, except in x0, and elsewhere
      what it read before. No write to x0 and no write to the other bank is ever seen, and x0 reads
      as zero whatever is stored. */
  lemma ReadAfterWrite(b: Banks, fp: bool, k: RegIndex, data: Word, fp': bool, k': RegIndex)
    ensures ReadPort(WritePort(b, fp, k, data), fp', k') ==
            if fp' == fp && k' == k && (fp || k != 0) then data else ReadPort(b, fp', k')
    ensures ReadPort(b, false, 0) == 0
  {
  }

  function ClearedMemory(): DataMemory {
    seq(256, _ => 0)
  }

  // ----------------------------------------------------------------------
  // The datapath of one cycle
  // ----------------------------------------------------------------------

  function Instruction(c: Core): Word {
    c.instrMem[c.pc / 4 % 64]
  }

  /** The bank both read ports and the write port use: that of the initialisation port while it is
      active, otherwise the one the control unit asks for. */
  predicate FpBank(c: Core, i: Inputs) {
    if i.init.InitRegister? then i.init.fp else Decode(Instruction(c)).isFp
  }

  function Operand1(c: Core, fp: bool): Word {
    ReadPort(c.banks, fp, Decode(Instruction(c)).rs1)
  }

  function Operand2(c: Core, fp: bool): Word {
    ReadPort(c.banks, fp, Decode(Instruction(c)).rs2)
  }

  predicate BranchTaken(c: Core, fp: bool) {
    var left, right := Operand1(c, fp), Operand2(c, fp);
    Decode(Instruction(c)).branch &&
    match Funct3(Instruction(c))
    case 0 => left == right
    case 1 => left != right
    case 4 => Signed(left) < Signed(right)
    case 5 => Signed(left) >= Signed(right)
    case _ => false
  }

  function NextPc(c: Core, fp: bool): Word {
    if BranchTaken(c, fp) then Wrap(c.pc + Decode(Instruction(c)).imm) else Wrap(c.pc + 4)
  }

  function AluOut(c: Core, fp: bool): Word {
    var control := Decode(Instruction(c));
    if control.memRead || control.memWrite then Alu.Result(Operand1(c, fp), control.imm, 2)
    else Alu.Result(Operand1(c, fp), Operand2(c, fp), control.aluOp)
  }

  /** The data memory is indexed by the low byte of the address. */
  function DataIndex(address: Word): (k: nat)
    ensures k < 256
  {
    address % 256
  }

  function Writeback(c: Core, fp: bool): Word {
    if Decode(Instruction(c)).memRead then c.memory[DataIndex(AluOut(c, fp))] else AluOut(c, fp)
  }

  // ----------------------------------------------------------------------
  // The clock edge
  // ----------------------------------------------------------------------

  function NextBanks(c: Core, i: Inputs): Banks {
    var control := Decode(Instruction(c));
    if i.reset then ClearedBanks()
    else if i.init.InitRegister? then WritePort(c.banks, i.init.fp, i.init.addr, i.init.data)
    else if control.regWrite then WritePort(c.banks, control.isFp, control.rd, Writeback(c, control.isFp))
    else c.banks
  }

  function NextMemory(c: Core, i: Inputs): DataMemory {
    var fp := FpBank(c, i);
    if i.reset then ClearedMemory()
    else if Decode(Instruction(c)).memWrite then c.memory[DataIndex(AluOut(c, fp)) := Operand2(c, fp)]
    else c.memory
  }

  /** Only the PC is gated by the execution enable; an all-zero instruction holds it. */
  function NextPcRegister(c: Core, i: Inputs): Word {
    if i.reset then 0 else if i.enable && Instruction(c) != 0 then NextPc(c, FpBank(c, i)) else c.pc
  }

  function Step(c: Core, i: Inputs): Core {
    Core(NextPcRegister(c, i), NextBanks(c, i),
         if i.program.WriteProgram? then c.instrMem[i.program.addr := i.program.data] else c.instrMem,
         NextMemory(c, i))
  }

  const EXECUTE := Inputs(false, true, NoProgram, NoInit)

  /** n clock edges of plain execution. */
  function Run(c: Core, n: nat): Core {
    if n == 0 then c else Step(Run(c, n - 1), EXECUTE)
  }

  function RunInputs(c: Core, ins: seq<Inputs>): Core {
    if |ins| == 0 then c else Step(RunInputs(c, ins[..|ins| - 1]), ins[|ins| - 1])
  }

  /** No input sequence ever makes x0 hold anything but zero, once it does. */
  lemma {:induction false} ZeroRegister(c: Core, ins: seq<Inputs>)
    requires c.banks.ints[0] == 0
    ensures RunInputs(c, ins).banks.ints[0] == 0
  {
    hide Decode, Writeback;
    if |ins| > 0 {
      ZeroRegister(c, ins[..|ins| - 1]);
    }
  }
}

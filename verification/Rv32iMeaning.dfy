/** What the instructions do, apart from decoder, ALU and emulator: their effect on registers, memory
    and PC in arithmetic and bits. Core and emulator are each proved to have these effects. */
module Rv32iMeaning {
  import opened Powers
  import opened Rv32i
  import opened CpuExecCore
  import opened Rv32iEmulator
  import opened CpuSimulation
  import opened Rv32iEncoding
  import Alu

  // ----------------------------------------------------------------------
  // The operations
  // ----------------------------------------------------------------------

  /** The signed reading of a word, and the order it induces. */
  function TwosComplement(w: Word): int {
    if Bit(w, 31) then w - 0x1_0000_0000 else w
  }

  ghost predicate Computes(op: Op, a: Word, b: Word, v: Word) {
    match op
    case Add => v == (a + b) % 0x1_0000_0000
    case Sub => v == (a - b) % 0x1_0000_0000
    case And => forall k: nat :: Bit(v, k) <==> Bit(a, k) && Bit(b, k)
    case Or => forall k: nat :: Bit(v, k) <==> Bit(a, k) || Bit(b, k)
    case Xor => forall k: nat :: Bit(v, k) <==> Bit(a, k) != Bit(b, k)
    case Sll => v == (a * Pow2(b % 32)) % 0x1_0000_0000
    case Sra => TwosComplement(v) == TwosComplement(a) / Pow2(b % 32)
    case Slt => v == if TwosComplement(a) < TwosComplement(b) then 1 else 0
  }

  lemma SignedIs(w: Word)
    ensures Signed(w) == TwosComplement(w)
  {
    hide Pow2, Bit;
    Pow2Values();
    Pow2Step(32);
    TopBit(w, 31);
  }

  /** The ALU under each operation code. */
  function CodeOf(op: Op): nat {
    match op
    case Add => 2 case Sub => 6 case And => 0 case Or => 1 case Xor => 3 case Sll => 4 case Sra => 5 case Slt => 7
  }

  lemma AluComputes(op: Op, a: Word, b: Word)
    ensures Computes(op, a, b, Alu.Result(a, b, CodeOf(op)))
  {
    hide Pow2, Bit, Bitwise, Signed, TwosComplement, Alu.ShiftLeft, Alu.ShiftRightArithmetic;
    match op {
      case Add =>
      case Sub =>
      case And => AllBits(AND, a, b);
      case Or => AllBits(OR, a, b);
      case Xor => AllBits(XOR, a, b);
      case Sll => Alu.ShiftLeftMultiplies(a, b % 32);
      case Sra =>
        Alu.ShiftRightDivides(a, b % 32);
        SignedIs(a);
        SignedIs(Alu.ShiftRightArithmetic(a, b % 32));
      case Slt =>
        SignedIs(a);
        SignedIs(b);
    }
  }

  lemma AllBits(op: Logic, a: Word, b: Word)
    ensures forall k: nat :: Bit(BitwiseWord(op, a, b), k) <==> Gate(op, Bit(a, k), Bit(b, k))
  {
    hide Pow2, Bit, Bitwise, Gate;
    forall k: nat
      ensures Bit(BitwiseWord(op, a, b), k) <==> Gate(op, Bit(a, k), Bit(b, k))
    {
      BitwiseAt(op, a, b, k);
    }
  }

  /** The operation codes outside the table give zero. */
  lemma OtherCodesGiveZero(a: Word, b: Word, code: nat)
    requires code >= 8
    ensures Alu.Result(a, b, code) == 0
  {
  }

  // ----------------------------------------------------------------------
  // The core
  // ----------------------------------------------------------------------

  /** Bit 30 tells SUB from ADD and marks SRA; the other rows ignore funct7. */
  predicate RowOf(i: Word, op: Op) {
    && i % 0x80 == 0x33 && (i / 0x1000) % 8 == Funct3Of(op)
    && (op == Add ==> (i / 0x4000_0000) % 2 == 0) && (op == Sub || op == Sra ==> (i / 0x4000_0000) % 2 == 1)
  }

  /** Rows without an operation: SLTU, and SRL. */
  predicate NoRow(i: Word) {
    i % 0x80 == 0x33 && ((i / 0x1000) % 8 == 3 || ((i / 0x1000) % 8 == 5 && (i / 0x4000_0000) % 2 == 0))
  }

  function Source1(c: Core): Word {
    ReadPort(c.banks, false, (Instruction(c) / 0x8000) % 0x20)
  }

  function Source2(c: Core): Word {
    ReadPort(c.banks, false, (Instruction(c) / 0x10_0000) % 0x20)
  }

  /** The core writes v to the destination register and goes on to the next word. */
  predicate Retires(c: Core, v: Word) {
    var c' := Step(c, EXECUTE);
    && c'.banks == WritePort(c.banks, false, (Instruction(c) / 0x80) % 0x20, v)
    && c'.pc == (c.pc + 4) % 0x1_0000_0000 && c'.memory == c.memory && c'.instrMem == c.instrMem
  }

  /** Every row with an operation: one clock edge writes what the operation computes. */
  lemma CoreComputes(c: Core, op: Op) returns (v: Word)
    requires RowOf(Instruction(c), op)
    ensures Computes(op, Source1(c), Source2(c), v) && Retires(c, v)
  {
    hide Field, Opcode, Rd, Rs1, Rs2, Funct3, Alu.Result, Computes;
    var i := Instruction(c);
    FieldsInNumbers(i);
    FieldValues(i);
    v := Alu.Result(Source1(c), Source2(c), CodeOf(op));
    AluComputes(op, Source1(c), Source2(c));
  }

  /** The other rows write zero. */
  lemma CoreUnsupported(c: Core)
    requires NoRow(Instruction(c))
    ensures Retires(c, 0)
  {
    hide Field, Opcode, Rd, Rs1, Rs2, Funct3, Alu.Result;
    FieldsInNumbers(Instruction(c));
    FieldValues(Instruction(c));
    OtherCodesGiveZero(Source1(c), Source2(c), UNSUPPORTED_OP);
  }

  /** Every load, whatever its funct3, reads a word at the low byte of the address. */
  lemma CoreLoads(c: Core)
    requires Instruction(c) % 0x80 == 0x03
    ensures Retires(c, c.memory[((Source1(c) + SignedI(Instruction(c))) % 0x1_0000_0000) % 256])
  {
    hide Field, Opcode, Rd, Rs1, ImmI, ImmS, ImmB, SignedI;
    FieldsInNumbers(Instruction(c));
    CoreImmediates(Source1(c), Instruction(c));
  }

  /** Every store, whatever its funct3, writes a word there. */
  lemma CoreStores(c: Core)
    requires Instruction(c) % 0x80 == 0x23
    ensures var c' := Step(c, EXECUTE);
      && c'.memory == c.memory[((Source1(c) + SignedS(Instruction(c))) % 0x1_0000_0000) % 256 := Source2(c)]
      && c'.banks == c.banks && c'.pc == (c.pc + 4) % 0x1_0000_0000 && c'.instrMem == c.instrMem
  {
    hide Field, Opcode, Rd, Rs1, Rs2, ImmI, ImmS, ImmB, SignedS;
    FieldsInNumbers(Instruction(c));
    CoreImmediates(Source1(c), Instruction(c));
  }

  /** BEQ, BNE, BLT and BGE go to the offset from the PC when their comparison holds and on to the
      next word otherwise; the other four codes never branch. None changes a register or the memory. */
  lemma CoreBranches(c: Core)
    requires Instruction(c) % 0x80 == 0x63
    ensures var c' := Step(c, EXECUTE); var funct3 := (Instruction(c) / 0x1000) % 8;
      var target, next := (c.pc + SignedB(Instruction(c))) % 0x1_0000_0000, (c.pc + 4) % 0x1_0000_0000;
      && c'.banks == c.banks && c'.memory == c.memory && c'.instrMem == c.instrMem
      && (funct3 == 0 ==> c'.pc == if Source1(c) == Source2(c) then target else next)
      && (funct3 == 1 ==> c'.pc == if Source1(c) != Source2(c) then target else next)
      && (funct3 == 4 ==> c'.pc == if TwosComplement(Source1(c)) < TwosComplement(Source2(c)) then target else next)
      && (funct3 == 5 ==> c'.pc == if TwosComplement(Source1(c)) >= TwosComplement(Source2(c)) then target else next)
      && (funct3 !in {0, 1, 4, 5} ==> c'.pc == next)
  {
    hide Field, Opcode, Rd, Rs1, Rs2, Funct3, ImmI, ImmS, ImmB, SignedB, Signed, TwosComplement;
    FieldsInNumbers(Instruction(c));
    CoreImmediates(c.pc, Instruction(c));
    SignedIs(Source1(c));
    SignedIs(Source2(c));
  }

  /** Two branches on the same registers and offset at the same place. */
  predicate SameBranch(c: Core, d: Core) {
    var i, j := Instruction(c), Instruction(d);
    && i % 0x80 == 0x63 && j % 0x80 == 0x63 && c.pc == d.pc
    && Source1(c) == Source1(d) && Source2(c) == Source2(d) && SignedB(i) == SignedB(j)
  }

  /** Of BEQ and BNE, and of BLT and BGE, exactly one is taken. */
  lemma BranchesComplement(c: Core, d: Core)
    requires SameBranch(c, d)
    requires var f, g := (Instruction(c) / 0x1000) % 8, (Instruction(d) / 0x1000) % 8;
      (f == 0 && g == 1) || (f == 4 && g == 5)
    ensures var target, next := (c.pc + SignedB(Instruction(c))) % 0x1_0000_0000, (c.pc + 4) % 0x1_0000_0000;
      var p, q := Step(c, EXECUTE).pc, Step(d, EXECUTE).pc;
      (p == target && q == next) || (p == next && q == target)
  {
    hide Step, SignedB, TwosComplement;
    CoreBranches(c);
    CoreBranches(d);
  }

  /** Every other word but zero only goes on to the next, and zero stays. */
  lemma CoreIgnores(c: Core)
    requires Instruction(c) % 0x80 !in {0x33, 0x03, 0x23, 0x63}
    ensures Step(c, EXECUTE) == c.(pc := if Instruction(c) == 0 then c.pc else (c.pc + 4) % 0x1_0000_0000)
  {
    hide Field, Opcode;
    FieldsInNumbers(Instruction(c));
  }

  /** The word fetched is that of pc[7:2]. */
  lemma FetchesWord(c: Core, k: nat, above: nat, low: nat)
    requires k < 64 && low < 4 && c.pc == above * 0x100 + k * 4 + low
    ensures Instruction(c) == c.instrMem[k]
  {
    SliceIs(c.pc, low, 4, k, 64, above);
  }

  /** Reset clears PC, registers and data memory, whatever else the pins say. Out of reset a disabled
      core keeps its PC, and the initialisation port takes the place of the writeback. The programming
      port writes its one word in any case. */
  lemma PinsAct(c: Core, i: Inputs)
    ensures i.reset ==> Step(c, i).pc == 0
    ensures i.reset ==> forall k: RegIndex :: Step(c, i).banks.ints[k] == 0 && Step(c, i).banks.fps[k] == 0
    ensures i.reset ==> forall x: nat :: x < 256 ==> Step(c, i).memory[x] == 0
    ensures !i.reset && !i.enable ==> Step(c, i).pc == c.pc
    ensures !i.reset && i.init.InitRegister? ==>
              Step(c, i).banks == WritePort(c.banks, i.init.fp, i.init.addr, i.init.data)
    ensures Step(c, i).instrMem ==
            if i.program.WriteProgram? then c.instrMem[i.program.addr := i.program.data] else c.instrMem
  {
    hide NextPc, Writeback, AluOut, Decode;
  }

  // ----------------------------------------------------------------------
  // The emulator
  // ----------------------------------------------------------------------

  /** The emulator writes v to rd, unless that is x0, goes on to the next word and reports it. */
  predicate RetiresAs(i: Word, m: Machine, rd: RegIndex, v: Word) {
    ExecuteInstruction(i, m) ==
    Done(Machine(m.pc + 4, if rd == 0 then m.regs else m.regs[rd := v], m.memory),
         Commit(m.pc, i, Writes(rd, if rd == 0 then 0 else v)))
  }

  lemma EmulatorComputes(m: Machine, op: Op, rd: RegIndex, rs1: RegIndex, rs2: RegIndex) returns (v: Word)
    ensures Computes(op, m.regs[rs1], m.regs[rs2], v) && RetiresAs(EncodeR(op, rd, rs1, rs2), m, rd, v)
  {
    hide Field, Opcode, Rd, Rs1, Rs2, Funct3, Funct7, EncodeR, Alu.Result, Computes, RType;
    var i := EncodeR(op, rd, rs1, rs2);
    EncodedR(op, rd, rs1, rs2);
    v := Alu.Result(m.regs[rs1], m.regs[rs2], CodeOf(op));
    AluComputes(op, m.regs[rs1], m.regs[rs2]);
    CodesAgree(i, op);
    SameArithmetic(i, m.regs[rs1], m.regs[rs2]);
  }

  lemma CodesAgree(i: Word, op: Op)
    requires Opcode(i) == OP && Funct3(i) == Funct3Of(op) && Funct7(i) == Funct7Of(op)
    ensures InScope(i) && AluOp(i) == CodeOf(op)
  {
    hide Field, Opcode, Funct3, Funct7;
    FunctBit(i);
  }

  lemma EmulatorAdds(m: Machine, rd: RegIndex, rs1: RegIndex, imm: Imm12)
    ensures RetiresAs(EncodeI(0x13, 0, rd, rs1, imm), m, rd, (m.regs[rs1] + imm) % 0x1_0000_0000)
  {
    hide Field, Opcode, Rd, Rs1, Funct3, EncodeI, SignedI, ImmediateI, ImmediateS, ImmediateB;
    EncodedI(0x13, 0, rd, rs1, imm);
    ImmediateIs(EncodeI(0x13, 0, rd, rs1, imm));
  }

  /** BEQ goes to the offset from the PC when the registers are equal and on to the next word otherwise. */
  lemma EmulatorBranches(m: Machine, rs1: RegIndex, rs2: RegIndex, offset: Offset)
    ensures var i := EncodeB(0, rs1, rs2, offset);
      ExecuteInstruction(i, m) ==
      Done(m.(pc := if m.regs[rs1] == m.regs[rs2] then (m.pc + offset) % 0x1_0000_0000 else m.pc + 4),
           Commit(m.pc, i, NoDestination))
  {
    hide Field, Opcode, Rs1, Rs2, Funct3, EncodeB, SignedB, ImmediateI, ImmediateS, ImmediateB;
    EncodedB(0, rs1, rs2, offset);
    ImmediateIs(EncodeB(0, rs1, rs2, offset));
  }

  /** LW reads the word at a multiple of four, zero where nothing was stored, and raises elsewhere. */
  lemma EmulatorLoads(m: Machine, rd: RegIndex, rs1: RegIndex, imm: Imm12)
    ensures var i, address: Word := EncodeI(0x03, 2, rd, rs1, imm), (m.regs[rs1] + imm) % 0x1_0000_0000;
      if address % 4 == 0 then RetiresAs(i, m, rd, if address in m.memory then m.memory[address] else 0)
      else ExecuteInstruction(i, m) == Raised(MisalignedAccess(address))
  {
    hide Field, Opcode, Rd, Rs1, Funct3, EncodeI, SignedI, ImmediateI, ImmediateS, ImmediateB;
    EncodedI(0x03, 2, rd, rs1, imm);
    ImmediateIs(EncodeI(0x03, 2, rd, rs1, imm));
  }

  lemma EmulatorStores(m: Machine, rs2: RegIndex, rs1: RegIndex, imm: Imm12)
    ensures var i, address: Word := EncodeS(2, rs2, rs1, imm), (m.regs[rs1] + imm) % 0x1_0000_0000;
      ExecuteInstruction(i, m) ==
      if address % 4 == 0 then
        Done(Machine(m.pc + 4, m.regs, m.memory[address := m.regs[rs2]]), Commit(m.pc, i, NoDestination))
      else Raised(MisalignedAccess(address))
  {
    hide Field, Opcode, Rs1, Rs2, Funct3, EncodeS, SignedS, ImmediateI, ImmediateS, ImmediateB;
    EncodedS(2, rs2, rs1, imm);
    ImmediateIs(EncodeS(2, rs2, rs1, imm));
  }

  /** A commit reports the place, the word and exactly the register change of its instruction. */
  lemma CommitTells(i: Word, m: Machine)
    requires ExecuteInstruction(i, m).Done?
    ensures var m', commit := ExecuteInstruction(i, m).m, ExecuteInstruction(i, m).commit;
      && commit.pc == m.pc && commit.instruction == i
      && match commit.dest
         case NoDestination => m'.regs == m.regs
         case Writes(rd, v) =>
           && v == (if rd == 0 then 0 else m'.regs[rd])
           && forall k: RegIndex :: k != rd || k == 0 ==> m'.regs[k] == m.regs[k]
  {
    hide Field, Opcode, Funct3, Funct7, Rs1, Rs2, ImmediateI, ImmediateS, ImmediateB, RType, Wrap;
  }

  /** Any program of 64 words, any part of it, any registers with x0 zero and any positive limit make
      a request. */
  lemma EveryRequest(program: seq<Word>, count: nat, regs: Registers, limit: nat)
    requires |program| == 64
    ensures ValidRequest(Request(program, count, regs, limit)) <==> count <= 64 && limit > 0 && regs[0] == 0
  {
  }

  /** An accepted request fails only for alignment: of the PC, or of a data address. */
  lemma {:induction false} FailsForAlignment(r: Request, n: nat)
    requires Accepted(r)
    ensures After(r, n).Failed? ==> After(r, n).error.MisalignedPc? || After(r, n).error.MisalignedAccess?
  {
    hide InScope, ExecuteInstruction;
    if n > 0 {
      FailsForAlignment(r, n - 1);
      if After(r, n - 1).Running? {
        var m := After(r, n - 1).m;
        if m.pc % 4 == 0 && m.pc / 4 < r.count {
          RaisesForAlignment(r.program[m.pc / 4], m);
        }
      }
    }
  }

  lemma RaisesForAlignment(i: Word, m: Machine)
    requires InScope(i)
    ensures ExecuteInstruction(i, m).Raised? ==> ExecuteInstruction(i, m).error.MisalignedAccess?
  {
    hide Field, Opcode, Funct3, Funct7, Rs1, Rs2, ImmediateI, ImmediateS, ImmediateB, Wrap;
  }

  /** execute passes exactly when the program is not empty, every word of it is one of the ten
      instructions, no step raises, and the run ends at a multiple of four. */
  lemma PassesIff(r: Request)
    requires ValidRequest(r)
    ensures Result(r).Pass? <==>
      && r.count > 0 && (forall k :: 0 <= k < r.count ==> exists ins: Instr :: Encode(ins) == r.program[k])
      && !After(r, r.limit).Failed? && After(r, r.limit).m.pc % 4 == 0
  {
    hide InScope, Encode, After;
    forall k | 0 <= k < r.count
      ensures InScope(r.program[k]) <==> exists ins: Instr :: Encode(ins) == r.program[k]
    {
      ScopeIsTheInstructions(r.program[k]);
    }
    assert forall k :: 0 <= k < r.count ==> r.program[..r.count][k] == r.program[k];
  }
}

/** The core against the emulator: each clock edge of the core is one step of the emulator. */
module CpuSimulation {
  import opened Powers
  import opened Rv32i
  import opened CpuExecCore
  import opened Rv32iEmulator
  import Alu

  // ----------------------------------------------------------------------
  // Immediates
  // ----------------------------------------------------------------------

  /** Adding a sign-filled immediate and adding the sign-extended number agree on 32 bits. */
  lemma SameImmediate(a: int, bits: nat, filled: Word, width: nat)
    requires width == 12 || width == 13
    requires bits < Pow2(width)
    requires filled == bits + (if bits >= Pow2(width - 1) then 0x1_0000_0000 - Pow2(width) else 0)
    ensures Wrap(a + SignExtend(bits, width)) == Wrap(a + filled)
  {
    TopBit(bits, width - 1);
    assert Bit(bits, width - 1) <==> (bits / Pow2(width - 1)) % 2 == 1;
  }

  lemma SameI(a: Word, i: Word)
    ensures Wrap(a + ImmediateI(i)) == Wrap(a + ImmI(i))
  {
    hide SignExtend;
    assert Pow2(11) == 0x800 && Pow2(12) == 0x1000;
    TopOfI(i);
    SameImmediate(a, ITypeBits(i), ImmI(i), 12);
  }

  lemma TopOfI(i: Word)
    ensures i / 0x10_0000 == ITypeBits(i)
    ensures Field(i, 31, 1) == 1 <==> ITypeBits(i) >= 0x800
  {
    FieldValues(i);
  }

  /** The slices used by the immediates, in plain numbers. */
  lemma FieldValues(i: Word)
    ensures Field(i, 31, 1) == i / 0x8000_0000
    ensures Field(i, 20, 12) == i / 0x10_0000
    ensures Field(i, 25, 7) == i / 0x200_0000
    ensures Field(i, 30, 1) == (i / 0x4000_0000) % 2
  {
    hide Field;
    Pow2Values();
    assert Pow2(31) == 0x8000_0000 && Pow2(30) == 0x4000_0000 by {
      Pow2Step(32);
      Pow2Step(31);
    }
    assert Pow2(20) == 0x10_0000 && Pow2(25) == 0x200_0000 && Pow2(1) == 2 && Pow2(12) == 0x1000 && Pow2(7) == 0x80;
    FieldIs(i, 31, 1, 0x8000_0000, 2);
    FieldIs(i, 20, 12, 0x10_0000, 0x1000);
    FieldIs(i, 25, 7, 0x200_0000, 0x80);
    FieldIs(i, 30, 1, 0x4000_0000, 2);
  }

  lemma FieldIs(i: Word, lo: nat, width: nat, unit: nat, range: nat)
    requires unit == Pow2(lo) && range == Pow2(width)
    ensures Field(i, lo, width) == (i / unit) % range
  {
  }

  lemma SameS(a: Word, i: Word)
    ensures Wrap(a + ImmediateS(i)) == Wrap(a + ImmS(i))
  {
    hide SignExtend, Field, ImmediateS, STypeBits, Bitwise;
    assert Pow2(11) == 0x800 && Pow2(12) == 0x1000;
    SBits(i);
    TopOfS(i);
    SameImmediate(a, STypeBits(i), ImmS(i), 12);
  }

  lemma TopOfS(i: Word)
    ensures Field(i, 31, 1) == 1 <==> STypeBits(i) >= 0x800
  {
    hide Field;
    FieldValues(i);
    assert Pow2(5) == 0x20;
  }

  /** The OR of the shifted fields is the concatenation of the control unit. */
  lemma SBits(i: Word)
    ensures ImmediateS(i) == SignExtend(STypeBits(i), 12)
  {
    hide SignExtend, Bitwise, Field;
    assert Pow2(5) == 0x20;
    OrConcatenates(Field(i, 25, 7), Field(i, 7, 5), 5);
  }

  lemma SameB(a: nat, i: Word)
    ensures Wrap(a + ImmediateB(i)) == Wrap(a + ImmB(i))
  {
    hide SignExtend, Field, ImmediateB, BTypeBits, Bitwise;
    assert Pow2(12) == 0x1000 && Pow2(13) == 0x2000;
    BBits(i);
    TopOfB(i);
    SameImmediate(a, BTypeBits(i), ImmB(i), 13);
  }

  lemma BBits(i: Word)
    ensures ImmediateB(i) == SignExtend(BTypeBits(i), 13)
  {
    hide SignExtend, Bitwise, Field;
    assert Pow2(1) == 2 && Pow2(4) == 0x10 && Pow2(5) == 0x20 && Pow2(6) == 0x40;
    assert Pow2(11) == 0x800 && Pow2(12) == 0x1000;
    var sign, b7, high, low := Field(i, 31, 1), Field(i, 7, 1), Field(i, 25, 6), Field(i, 8, 4);
    OrConcatenates(sign, b7 * 0x800, 12);
    OrConcatenates(sign * 2 + b7, high * 0x20, 11);
    OrConcatenates((sign * 2 + b7) * 0x40 + high, low * 2, 5);
  }

  lemma TopOfB(i: Word)
    ensures Field(i, 31, 1) == 1 <==> BTypeBits(i) >= 0x1000
  {
    hide Field;
    FieldValues(i);
    assert Pow2(1) == 2 && Pow2(4) == 0x10 && Pow2(6) == 0x40;
  }

  // ----------------------------------------------------------------------
  // One instruction
  // ----------------------------------------------------------------------

  /** The ALU computes what the emulator computes with unbounded integers and then truncates. */
  lemma SameArithmetic(i: Word, left: Word, right: Word)
    requires Opcode(i) == OP && InScope(i)
    ensures RType(i, left, right).Value? && Wrap(RType(i, left, right).v) == Alu.Result(left, right, AluOp(i))
  {
    hide Field, Opcode, Funct3, Funct7, RType, Alu.Result, AluOp, Wrap;
    match Funct3(i) {
      case 0 => SumRows(i, left, right);
      case 7 => LogicRow(i, left, right, AND);
      case 6 => LogicRow(i, left, right, OR);
      case 4 => LogicRow(i, left, right, XOR);
      case 1 => LeftRow(i, left, right);
      case 5 => RightRow(i, left, right);
      case 2 => LessRow(i, left, right);
      case _ =>
    }
  }

  /** ADD and SUB. */
  lemma SumRows(i: Word, left: Word, right: Word)
    requires Funct3(i) == 0 && Funct7(i) in {0x00, 0x20}
    ensures RType(i, left, right).Value? && Wrap(RType(i, left, right).v) == Alu.Result(left, right, AluOp(i))
  {
    hide Field, Funct3, Funct7, Wrap;
    FunctBit(i);
  }

  lemma LogicRow(i: Word, left: Word, right: Word, op: Logic)
    requires Funct7(i) == 0 && Funct3(i) == match op { case AND => 7 case OR => 6 case XOR => 4 }
    ensures RType(i, left, right).Value? && Wrap(RType(i, left, right).v) == Alu.Result(left, right, AluOp(i))
  {
    hide Field, Funct3, Funct7, Wrap, Bitwise;
    BitwiseIsWord(op, left, right);
    WrapIsWord(Bitwise(op, left, right));
  }

  lemma WrapIsWord(v: nat)
    requires v < 0x1_0000_0000
    ensures Wrap(v) == v
  {
  }

  lemma LeftRow(i: Word, left: Word, right: Word)
    requires Funct3(i) == 1 && Funct7(i) == 0
    ensures RType(i, left, right).Value? && Wrap(RType(i, left, right).v) == Alu.Result(left, right, AluOp(i))
  {
    hide Field, Funct3, Funct7, Wrap, Pow2, Alu.ShiftLeft;
    Alu.ShiftLeftMultiplies(left, right % 32);
  }

  lemma RightRow(i: Word, left: Word, right: Word)
    requires Funct3(i) == 5 && Funct7(i) == 0x20
    ensures RType(i, left, right).Value? && Wrap(RType(i, left, right).v) == Alu.Result(left, right, AluOp(i))
  {
    hide Field, Funct3, Funct7, Wrap, Pow2, Signed, Alu.ShiftRightArithmetic;
    FunctBit(i);
    Alu.ShiftRightDivides(left, right % 32);
  }

  lemma LessRow(i: Word, left: Word, right: Word)
    requires Funct3(i) == 2 && Funct7(i) == 0
    ensures RType(i, left, right).Value? && Wrap(RType(i, left, right).v) == Alu.Result(left, right, AluOp(i))
  {
    hide Field, Funct3, Funct7, Wrap, Signed;
    WrapIsWord(if Signed(left) < Signed(right) then 1 else 0);
  }

  lemma FunctBit(i: Word)
    ensures Funct7(i) == 0 ==> Field(i, 30, 1) == 0
    ensures Funct7(i) == 0x20 ==> Field(i, 30, 1) == 1
  {
    hide Field;
    FieldValues(i);
  }

  ghost predicate AliasFree(addresses: iset<Word>) {
    forall a: Word, b: Word :: a in addresses && b in addresses && DataIndex(a) == DataIndex(b) ==> a == b
  }

  predicate InWindow(a: Word, base: nat) {
    base <= a < base + 256
  }

  /** Any 256 consecutive bytes, wherever they start, are free of aliases. */
  lemma WindowIsAliasFree(base: nat)
    ensures AliasFree(iset a: Word | InWindow(a, base))
  {
  }

  /** The two memories agree on the given addresses, and the emulator has written no others. */
  ghost predicate SameMemory(sparse: Memory, memory: DataMemory, addresses: iset<Word>) {
    && (forall a: Word :: a in sparse ==> a in addresses)
    && (forall a: Word :: a in addresses ==> Load(sparse, a) == memory[DataIndex(a)])
  }

  /** PC, x0 to x31 and memory agree. */
  ghost predicate Matches(c: Core, m: Machine, addresses: iset<Word>) {
    c.pc == m.pc && c.banks.ints == m.regs && m.regs[0] == 0 && SameMemory(m.memory, c.memory, addresses)
  }

  predicate SameProgram(c: Core, r: Request)
    requires ValidRequest(r)
  {
    forall k :: 0 <= k < r.count ==> c.instrMem[k] == r.program[k]
  }

  /** The data address of a load or store, when the instruction is one, is a given address. */
  ghost predicate StaysAt(i: Word, m: Machine, addresses: iset<Word>) {
    && (Opcode(i) == LOAD ==> LoadAddress(i, m.regs) in addresses)
    && (Opcode(i) == STORE ==> StoreAddress(i, m.regs) in addresses)
  }

  /** The instruction is not an ADDI that changes a register: the control unit has no OP-IMM row. */
  predicate Implemented(i: Word, m: Machine) {
    Opcode(i) == OP_IMM ==> Rd(i) == 0 || m.regs[Rd(i)] == Wrap(m.regs[Rs1(i)] + ImmediateI(i))
  }

  /** What the observation port of the core shows of an instruction: a write to x0 is no write. */
  function Architectural(commit: Commit): Commit {
    if commit.dest.Writes? && commit.dest.rd == 0 then commit.(dest := NoDestination) else commit
  }

  function CoreCommit(c: Core): Commit {
    var control := Decode(Instruction(c));
    Commit(c.pc, Instruction(c),
           if control.regWrite && !control.isFp && control.rd != 0 then Writes(control.rd, Writeback(c, control.isFp))
           else NoDestination)
  }

  ghost predicate AtInstruction(c: Core, m: Machine, i: Word, addresses: iset<Word>) {
    Matches(c, m, addresses) && m.pc < 256 && Instruction(c) == i && InScope(i) && StaysAt(i, m, addresses)
  }

  /** An instruction in scope is not the all-zero word that holds the core. */
  lemma Executes(c: Core, i: Word)
    requires Instruction(c) == i && InScope(i)
    ensures Step(c, EXECUTE) == Core(NextPc(c, false), NextBanks(c, EXECUTE), c.instrMem, NextMemory(c, EXECUTE))
    ensures EXECUTE.init == NoInit && !EXECUTE.reset && !FpBank(c, EXECUTE) && !Decode(i).isFp
  {
    hide NextPc, NextBanks, NextMemory;
    assert Opcode(0) == 0;
  }

  lemma OpStep(c: Core, m: Machine, i: Word, addresses: iset<Word>)
    requires AtInstruction(c, m, i, addresses) && Opcode(i) == OP
    ensures ExecuteInstruction(i, m).Done?
    ensures var done, c' := ExecuteInstruction(i, m), Step(c, EXECUTE);
      Matches(c', done.m, addresses) && CoreCommit(c) == Architectural(done.commit)
  {
    hide Field, RType, Alu.Result, AluOp, SameMemory;
    Executes(c, i);
    SameArithmetic(i, m.regs[Rs1(i)], m.regs[Rs2(i)]);
  }

  lemma BranchStep(c: Core, m: Machine, i: Word, addresses: iset<Word>)
    requires AtInstruction(c, m, i, addresses) && Opcode(i) == BRANCH
    ensures ExecuteInstruction(i, m).Done?
    ensures var done, c' := ExecuteInstruction(i, m), Step(c, EXECUTE);
      Matches(c', done.m, addresses) && CoreCommit(c) == Architectural(done.commit)
  {
    hide Field, ImmediateB, ImmB, Wrap, SameMemory;
    Executes(c, i);
    SameB(m.pc, i);
    NextWord(m.pc);
  }

  lemma NextWord(pc: nat)
    requires pc < 256
    ensures Wrap(pc + 4) == pc + 4
  {
  }

  lemma LoadStep(c: Core, m: Machine, i: Word, addresses: iset<Word>)
    requires AtInstruction(c, m, i, addresses) && Opcode(i) == LOAD
    ensures ExecuteInstruction(i, m).Raised? <==> LoadAddress(i, m.regs) % 4 != 0
    ensures var done, c' := ExecuteInstruction(i, m), Step(c, EXECUTE);
      done.Done? ==> Matches(c', done.m, addresses) && CoreCommit(c) == Architectural(done.commit)
  {
    hide Field, ImmediateI, ImmI, Wrap, DataIndex;
    Executes(c, i);
    SameI(m.regs[Rs1(i)], i);
    NextWord(m.pc);
  }

  lemma StoreStep(c: Core, m: Machine, i: Word, addresses: iset<Word>)
    requires AtInstruction(c, m, i, addresses) && Opcode(i) == STORE && AliasFree(addresses)
    ensures ExecuteInstruction(i, m).Raised? <==> StoreAddress(i, m.regs) % 4 != 0
    ensures var done, c' := ExecuteInstruction(i, m), Step(c, EXECUTE);
      done.Done? ==> Matches(c', done.m, addresses) && CoreCommit(c) == Architectural(done.commit)
  {
    hide Field, ImmediateS, ImmS, Wrap, DataIndex;
    Executes(c, i);
    SameS(m.regs[Rs1(i)], i);
    NextWord(m.pc);
  }

  /** An ADDI is a no-op to the core. */
  lemma AddiStep(c: Core, m: Machine, i: Word, addresses: iset<Word>)
    requires AtInstruction(c, m, i, addresses) && Opcode(i) == OP_IMM
    ensures ExecuteInstruction(i, m).Done?
    ensures Matches(Step(c, EXECUTE), ExecuteInstruction(i, m).m, addresses) <==> Implemented(i, m)
  {
    hide Field, ImmediateI, Wrap, SameMemory;
    Executes(c, i);
    NextWord(m.pc);
  }

  /** One clock edge matches one emulator step exactly when the instruction is not an effective ADDI. */
  lemma StepMatchesIff(c: Core, m: Machine, i: Word, addresses: iset<Word>)
    requires AtInstruction(c, m, i, addresses) && AliasFree(addresses) && ExecuteInstruction(i, m).Done?
    ensures Matches(Step(c, EXECUTE), ExecuteInstruction(i, m).m, addresses) <==> Implemented(i, m)
    ensures Opcode(i) != OP_IMM ==> CoreCommit(c) == Architectural(ExecuteInstruction(i, m).commit)
  {
    hide Field, Matches, ExecuteInstruction, Step, CoreCommit, AliasFree;
    OpcodeInScope(i);
    if Opcode(i) == OP { OpStep(c, m, i, addresses); }
    if Opcode(i) == BRANCH { BranchStep(c, m, i, addresses); }
    if Opcode(i) == LOAD { LoadStep(c, m, i, addresses); }
    if Opcode(i) == STORE { StoreStep(c, m, i, addresses); }
    if Opcode(i) == OP_IMM { AddiStep(c, m, i, addresses); }
  }

  lemma OpcodeInScope(i: Word)
    requires InScope(i)
    ensures Opcode(i) in {OP, BRANCH, LOAD, STORE, OP_IMM}
  {
  }
}

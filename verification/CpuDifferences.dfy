/** Inputs on which core and emulator part: an ADDI, and a store that runs while registers are
    being initialised. */
module CpuDifferences {
  import opened Powers
  import opened Rv32i
  import opened CpuExecCore
  import opened Rv32iEmulator
  import opened CpuSimulation
  import opened CpuLockstep
  import opened CpuAliases
  import opened Rv32iEncoding
  import opened CpuLoading

  /** ADDI x1, x0, 1 */
  const ADDI_X1_X0_1: Word := 0x0010_0093

  /** One instruction, and x1 set to the given value. */
  function Single(instruction: Word, x1: Word): Request {
    Request(seq(64, k => if k == 0 then instruction else 0), 1, seq(32, k => if k == 1 then x1 else 0), 1)
  }

  lemma AddiDecodes()
    ensures var i := ADDI_X1_X0_1;
      Opcode(i) == OP_IMM && Funct3(i) == 0 && Rs1(i) == 0 && Rd(i) == 1 && ImmI(i) == 1
  {
    hide Field;
    FieldsInNumbers(ADDI_X1_X0_1);
    FieldValues(ADDI_X1_X0_1);
  }

  /** The emulator sets x1 to 1, and the core leaves it at 0. */
  lemma AddiIsDropped()
    ensures var r := Single(ADDI_X1_X0_1, 0); var c := Loaded(r);
      && Accepted(r) && Starts(c, r) && After(r, 1).Running?
      && After(r, 1).m.regs[1] == 1 && Run(c, 1).banks.ints[1] == 0
  {
    hide Field, Opcode, Funct3, Rs1, Rd, ImmediateI, Wrap;
    AddiDecodes();
    SameI(0, ADDI_X1_X0_1);
    WrapWord(1);
    var r := Single(ADDI_X1_X0_1, 0);
    var c := Loaded(r);
    assert After(r, 0) == Running(Start(r), []) && Run(c, 0) == c;
    assert Instruction(c) == ADDI_X1_X0_1;
  }

  /** SW x1, 0(x2) with x1 set to 1 and then x2 set to 0: the edge that sets x2 already stores x1,
      so that the core does not begin where the emulator does, whatever state it was in before. */
  lemma StoreWhileLoading(c: Core)
    ensures var r := Single(STORE_X1_AT_X2, 1);
      && Accepted(r) && !Starts(RunInputs(Programmed(c, r, 64), Initialising(r, 0, [1, 2])), r)
  {
    hide Field, Opcode, Funct3, Rs2, Programmed, RunInputs, Initialising, Starts;
    StoreDecodes();
    var r := Single(STORE_X1_AT_X2, 1);
    var ks: seq<RegIndex> := [1, 2];
    assert ks[..1] == [1];
    InitialisesIff(c, r, 64, 0, ks);
  }
}

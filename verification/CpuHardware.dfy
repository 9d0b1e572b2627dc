/** The core in the form of the design: the PC, the instruction memory, the register file and
    the data memory, each updated in place on the clock edge, proved to follow Step. */
module CpuHardware {
  import opened Powers
  import opened Rv32i
  import opened CpuExecCore
  import Alu

  /** rtl/register_file.sv */
  class RegisterFile {
    const intRegs: array<Word>
    const fpRegs: array<Word>

    ghost predicate Valid() {
      intRegs.Length == 32 && fpRegs.Length == 32 && intRegs != fpRegs
    }

    ghost function Contents(): Banks
      requires Valid()
      reads intRegs, fpRegs
    {
      Banks(intRegs[..], fpRegs[..])
    }

    constructor ()
      ensures Valid() && fresh(intRegs) && fresh(fpRegs)
    {
      intRegs := new Word[32];
      fpRegs := new Word[32];
    }

    /** A combinational read port. */
    function Read(fp: bool, k: RegIndex): (v: Word)
      requires Valid()
      reads intRegs, fpRegs
      ensures v == ReadPort(Contents(), fp, k)
    {
      if fp then fpRegs[k] else if k == 0 then 0 else intRegs[k]
    }

    method Clear()
      requires Valid()
      modifies intRegs, fpRegs
      ensures Contents() == ClearedBanks()
    {
      for i := 0 to 32
        invariant forall j :: 0 <= j < i ==> intRegs[j] == 0 && fpRegs[j] == 0
      {
        intRegs[i] := 0;
        fpRegs[i] := 0;
      }
      assert intRegs[..] == ClearedBanks().ints && fpRegs[..] == ClearedBanks().fps;
    }

    method Clock(reset: bool, enable: bool, fp: bool, k: RegIndex, data: Word)
      requires Valid()
      modifies intRegs, fpRegs
      ensures Contents() == if reset then ClearedBanks()
                            else if enable then WritePort(old(Contents()), fp, k, data)
                            else old(Contents())
    {
      hide ClearedBanks;
      if reset {
        Clear();
      } else if enable {
        if fp {
          fpRegs[k] := data;
        } else if k != 0 {
          intRegs[k] := data;
        }
      }
    }
  }

  /** rtl/mmu.sv */
  class Mmu {
    const memory: array<Word>

    ghost predicate Valid() {
      memory.Length == 256
    }

    ghost function Contents(): DataMemory
      requires Valid()
      reads memory
    {
      memory[..]
    }

    constructor ()
      ensures Valid() && fresh(memory)
    {
      memory := new Word[256];
    }

    function Read(memRead: bool, address: Word): (v: Word)
      requires Valid()
      reads memory
      ensures v == if memRead then Contents()[DataIndex(address)] else 0
    {
      if memRead then memory[DataIndex(address)] else 0
    }

    method Clock(reset: bool, memWrite: bool, address: Word, data: Word)
      requires Valid()
      modifies memory
      ensures Contents() == if reset then ClearedMemory()
                            else if memWrite then old(Contents())[DataIndex(address) := data]
                            else old(Contents())
    {
      if reset {
        for i := 0 to 256
          invariant forall j :: 0 <= j < i ==> memory[j] == 0
        {
          memory[i] := 0;
        }
        assert memory[..] == ClearedMemory();
      } else if memWrite {
        memory[DataIndex(address)] := data;
      }
    }
  }

  class CoreUnit {
    var pc: Word
    const instrMem: array<Word>
    const registers: RegisterFile
    const mmu: Mmu

    ghost predicate Valid() {
      && instrMem.Length == 64 && registers.Valid() && mmu.Valid()
      && instrMem !in {registers.intRegs, registers.fpRegs, mmu.memory}
      && mmu.memory !in {registers.intRegs, registers.fpRegs}
    }

    ghost function State(): Core
      requires Valid()
      reads this, instrMem, registers.intRegs, registers.fpRegs, mmu.memory
    {
      Core(pc, registers.Contents(), instrMem[..], mmu.Contents())
    }

    constructor ()
      ensures Valid() && fresh(instrMem) && fresh(mmu.memory) && fresh(registers.intRegs) && fresh(registers.fpRegs)
    {
      pc := 0;
      instrMem := new Word[64];
      registers := new RegisterFile();
      mmu := new Mmu();
    }

    /** The combinational values of the current cycle, for the register bank in use. */
    method Settle(fp: bool) returns (reg2: Word, aluOut: Word, writeback: Word, nextPc: Word)
      requires Valid()
      ensures reg2 == Operand2(State(), fp) && aluOut == AluOut(State(), fp)
      ensures writeback == Writeback(State(), fp) && nextPc == NextPc(State(), fp)
    {
      hide Decode, Alu.Result, Wrap, BranchTaken, Signed, ReadPort;
      var instruction := instrMem[pc / 4 % 64];
      var control := Decode(instruction);
      var reg1 := registers.Read(fp, control.rs1);
      reg2 := registers.Read(fp, control.rs2);
      var taken := SettleBranch(control.branch, Funct3(instruction), reg1, reg2, State(), fp);
      var isMem := control.memRead || control.memWrite;
      aluOut := Alu.Result(reg1, if isMem then control.imm else reg2, if isMem then 2 else control.aluOp);
      writeback := if control.memRead then mmu.Read(control.memRead, aluOut) else aluOut;
      nextPc := if control.branch && taken then Wrap(pc + control.imm) else Wrap(pc + 4);
    }

    /** One clock edge; every multiplexer is settled from the registers before it. */
    method Clock(i: Inputs)
      requires Valid()
      modifies this, instrMem, registers.intRegs, registers.fpRegs, mmu.memory
      ensures State() == Step(old(State()), i)
    {
      hide Decode, NextPc, AluOut, Writeback, Operand2, WritePort, ClearedBanks, Field;
      var instruction := instrMem[pc / 4 % 64];
      var control := Decode(instruction);
      var fp := if i.init.InitRegister? then i.init.fp else control.isFp;
      var reg2, aluOut, writeback, nextPc := Settle(fp);
      if i.program.WriteProgram? {
        instrMem[i.program.addr] := i.program.data;
      }
      if i.init.InitRegister? {
        registers.Clock(i.reset, true, fp, i.init.addr, i.init.data);
      } else {
        registers.Clock(i.reset, control.regWrite, fp, control.rd, writeback);
      }
      mmu.Clock(i.reset, control.memWrite, aluOut, reg2);
      if i.reset {
        pc := 0;
      } else if i.enable && instruction != 0 {
        pc := nextPc;
      }
    }

    static method SettleBranch(branch: bool, funct3: nat, reg1: Word, reg2: Word, ghost c: Core, ghost fp: bool)
        returns (taken: bool)
      requires branch == Decode(Instruction(c)).branch && funct3 == Funct3(Instruction(c))
      requires reg1 == Operand1(c, fp) && reg2 == Operand2(c, fp)
      ensures taken == BranchTaken(c, fp) && (taken ==> branch)
    {
      hide Decode, Field, Instruction, Funct3, Operand1, Operand2;
      taken := false;
      if branch {
        match funct3 {
          case 0 => taken := reg1 == reg2;
          case 1 => taken := reg1 != reg2;
          case 4 => taken := Signed(reg1) < Signed(reg2);
          case 5 => taken := Signed(reg1) >= Signed(reg2);
          case _ => taken := false;
        }
      }
    }
  }
}

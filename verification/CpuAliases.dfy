/** Which data addresses the core's 256-entry memory can serve: it keeps only the low byte of
    an address, while the emulator keeps the whole of it. */
module CpuAliases {
  import opened Powers
  import opened Rv32i
  import opened CpuExecCore
  import opened Rv32iEmulator
  import opened CpuSimulation
  import opened CpuLockstep
  import opened Rv32iEncoding

  /** The registers a program can see are the emulator's, after any number of steps. */
  predicate SameRegisters(c: Core, r: Request, n: nat)
    requires ValidRequest(r)
  {
    After(r, n).Running? ==> Run(c, n).pc == After(r, n).m.pc && Run(c, n).banks.ints == After(r, n).m.regs
  }

  /** No program of the shared subset can tell the core from the emulator by using these addresses. */
  ghost predicate Indistinguishable(addresses: iset<Word>) {
    forall c: Core, r: Request, n: nat ::
      SharedSubset(r) && Starts(c, r) && StaysIn(r, n, addresses) ==> SameRegisters(c, r, n)
  }

  const STORE_X1_AT_X2: Word := 0x0011_2023

  const LOAD_X3_AT_X4: Word := 0x0002_2183

  lemma StoreDecodes()
    ensures var i := STORE_X1_AT_X2;
      Opcode(i) == STORE && Funct3(i) == 2 && Rs1(i) == 2 && Rs2(i) == 1 && ImmS(i) == 0
  {
    hide Field;
    FieldsInNumbers(STORE_X1_AT_X2);
    FieldValues(STORE_X1_AT_X2);
  }

  lemma LoadDecodes()
    ensures var i := LOAD_X3_AT_X4;
      Opcode(i) == LOAD && Funct3(i) == 2 && Rs1(i) == 4 && Rd(i) == 3 && ImmI(i) == 0
  {
    hide Field;
    FieldsInNumbers(LOAD_X3_AT_X4);
    FieldValues(LOAD_X3_AT_X4);
  }

  function StoreThenLoad(a: Word, b: Word): Request {
    Request(seq(64, k => if k == 0 then STORE_X1_AT_X2 else if k == 1 then LOAD_X3_AT_X4 else 0), 2,
            seq(32, k => if k == 1 then 1 else if k == 2 then a else if k == 4 then b else 0), 2)
  }

  function Loaded(r: Request): Core
    requires ValidRequest(r)
  {
    Core(0, Banks(r.regs, seq(32, _ => 0)), r.program, ClearedMemory())
  }

  lemma RequestIsShared(a: Word, b: Word)
    ensures SharedSubset(StoreThenLoad(a, b)) && Starts(Loaded(StoreThenLoad(a, b)), StoreThenLoad(a, b))
  {
    hide Field, Opcode, Funct3, Funct7;
    StoreDecodes();
    LoadDecodes();
  }

  /** The emulator stores 1 at a and loads 0 from b. */
  lemma EmulatorRun(a: Word, b: Word)
    requires a != b && a % 4 == 0 && b % 4 == 0
    ensures var r := StoreThenLoad(a, b);
      && After(r, 2).Running? && After(r, 2).m.regs[3] == 0 && StaysIn(r, 2, iset{a, b})
  {
    hide Field, ImmediateI, ImmediateS, RType, Wrap;
    StoreDecodes();
    LoadDecodes();
    var r := StoreThenLoad(a, b);
    SameS(a, STORE_X1_AT_X2);
    SameI(b, LOAD_X3_AT_X4);
    WrapWord(a);
    WrapWord(b);
    assert After(r, 0) == Running(Start(r), []);
    var regs := r.regs;
    assert regs[0 := 0] == regs;
    assert After(r, 1).Running? && After(r, 1).m == Machine(4, regs, map[a := 1]);
  }

  lemma WrapWord(a: Word)
    ensures Wrap(a + 0) == a
  {
  }

  lemma CoreStores(c: Core)
    requires c.pc == 0 && c.instrMem[0] == STORE_X1_AT_X2
    ensures var c1 := Step(c, EXECUTE);
      && c1.pc == 4 && c1.banks == c.banks && c1.instrMem == c.instrMem
      && c1.memory[c.banks.ints[2] % 256] == c.banks.ints[1]
  {
    hide Field, ImmI, ImmS, ImmB, Wrap;
    StoreDecodes();
    WrapWord(c.banks.ints[2]);
    NextWord(0);
  }

  lemma CoreLoads(c: Core)
    requires c.pc == 4 && c.instrMem[1] == LOAD_X3_AT_X4
    ensures Step(c, EXECUTE).banks.ints[3] == c.memory[c.banks.ints[4] % 256]
  {
    hide Field, ImmI, ImmS, ImmB, Wrap, NextPc, NextMemory;
    LoadDecodes();
    WrapWord(c.banks.ints[4]);
  }

  /** The core loads back the 1 when a and b share a memory entry. */
  lemma CoreRun(a: Word, b: Word)
    requires a % 256 == b % 256
    ensures Run(Loaded(StoreThenLoad(a, b)), 2).banks.ints[3] == 1
  {
    hide Step;
    var c := Loaded(StoreThenLoad(a, b));
    CoreStores(c);
    CoreLoads(Step(c, EXECUTE));
    assert Run(c, 1) == Step(c, EXECUTE) by {
      assert Run(c, 0) == c;
    }
  }

  /** The exact condition: the core is indistinguishable from the emulator over a set of word
      addresses if and only if no two of them have the same low byte. */
  lemma IndistinguishableIffAliasFree(addresses: iset<Word>)
    requires forall a: Word :: a in addresses ==> a % 4 == 0
    ensures Indistinguishable(addresses) <==> AliasFree(addresses)
  {
    hide InScope, Opcode, Starts, StaysIn, StoreThenLoad, Loaded, Run, After;
    if AliasFree(addresses) {
      forall c: Core, r: Request, n: nat | SharedSubset(r) && Starts(c, r) && StaysIn(r, n, addresses)
        ensures SameRegisters(c, r, n)
      {
        SharedIsAccepted(r);
        if After(r, n).Running? {
          SimulatesEmulator(c, r, n, addresses);
        }
      }
    } else {
      var a: Word, b: Word :| a in addresses && b in addresses && DataIndex(a) == DataIndex(b) && a != b;
      var r := StoreThenLoad(a, b);
      RequestIsShared(a, b);
      SharedIsAccepted(r);
      EmulatorRun(a, b);
      CoreRun(a, b);
      WiderSet(r, 2, iset{a, b}, addresses);
      assert !SameRegisters(Loaded(r), r, 2);
    }
  }

  lemma SharedIsAccepted(r: Request)
    requires SharedSubset(r)
    ensures ValidRequest(r)
  {
  }

  lemma WiderSet(r: Request, n: nat, narrow: iset<Word>, wide: iset<Word>)
    requires ValidRequest(r) && StaysIn(r, n, narrow) && narrow <= wide
    ensures StaysIn(r, n, wide)
  {
    hide After, LoadAddress, StoreAddress, Opcode;
  }
}

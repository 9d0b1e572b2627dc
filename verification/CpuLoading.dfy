/** Bringing the core to the emulator's start: the program through the programming port under
    reset, then the registers through the initialisation port with execution disabled. Disabling
    execution holds only the PC. Instruction 0 keeps writing its register in idle cycles, and
    keeps storing in idle and in initialisation cycles. */
module CpuLoading {
  import opened Powers
  import opened Rv32i
  import opened CpuExecCore
  import opened Rv32iEmulator
  import opened CpuSimulation
  import opened CpuLockstep
  import Alu

  // ----------------------------------------------------------------------
  // Programming
  // ----------------------------------------------------------------------

  function ProgramEdge(r: Request, k: ProgramIndex): Inputs
    requires ValidRequest(r)
  {
    Inputs(true, false, WriteProgram(k, r.program[k]), NoInit)
  }

  /** A core in any state after the first n words have been programmed under reset. */
  function Programmed(c: Core, r: Request, n: nat): Core
    requires ValidRequest(r) && n <= 64
  {
    if n == 0 then c else Step(Programmed(c, r, n - 1), ProgramEdge(r, n - 1))
  }

  lemma {:induction false} ProgrammedSoFar(c: Core, r: Request, n: nat)
    requires ValidRequest(r) && n <= 64
    ensures var p := Programmed(c, r, n);
      && (forall k :: 0 <= k < n ==> p.instrMem[k] == r.program[k])
      && (n > 0 ==> p.pc == 0 && p.banks == ClearedBanks() && p.memory == ClearedMemory())
  {
    hide NextPc, Decode, Writeback, AluOut;
    if n > 0 {
      ProgrammedSoFar(c, r, n - 1);
    }
  }

  // ----------------------------------------------------------------------
  // Any sequence of initialisation and idle edges
  // ----------------------------------------------------------------------

  /** Out of reset, execution disabled, no programming: an initialisation edge or an idle one. */
  predicate IsLoading(e: Inputs) {
    !e.reset && !e.enable && e.program == NoProgram
  }

  predicate AllLoading(ins: seq<Inputs>) {
    forall t :: 0 <= t < |ins| ==> IsLoading(ins[t])
  }

  /** Instruction i writes integer register k whenever no initialisation takes its place. */
  predicate Rewrites(i: Word, k: RegIndex) {
    (Opcode(i) == OP || Opcode(i) == LOAD) && Rd(i) == k && k != 0
  }

  /** What a register holds after loading edges under instruction i: the data of the last
      initialisation, unless a later idle edge had i write it again. A load reads zero, because no
      other instruction stores. */
  function Held(i: Word, ins: seq<Inputs>, fp: bool, k: RegIndex): Word {
    if |ins| == 0 then 0
    else
      var before, e := ins[..|ins| - 1], ins[|ins| - 1];
      if e.init.InitRegister? then
        if e.init.fp == fp && e.init.addr == k && (fp || k != 0) then e.init.data else Held(i, before, fp, k)
      else if fp || !Rewrites(i, k) then Held(i, before, fp, k)
      else if Opcode(i) == LOAD then 0
      else Alu.Result(Held(i, before, false, Rs1(i)), Held(i, before, false, Rs2(i)), AluOp(i))
  }

  /** The bank an edge reads. */
  predicate ReadsFp(e: Inputs) {
    e.init.InitRegister? && e.init.fp
  }

  /** The entry an edge stores to when instruction i is a store. */
  function StoreIndex(i: Word, before: seq<Inputs>, e: Inputs): nat {
    DataIndex(Wrap(Held(i, before, ReadsFp(e), Rs1(i)) + ImmS(i)))
  }

  /** What entry x of the data memory holds after loading edges: the last word stored to it. */
  function Stored(i: Word, ins: seq<Inputs>, x: nat): Word {
    if |ins| == 0 then 0
    else
      var before, e := ins[..|ins| - 1], ins[|ins| - 1];
      if Opcode(i) == STORE && StoreIndex(i, before, e) == x then Held(i, before, ReadsFp(e), Rs2(i))
      else Stored(i, before, x)
  }

  lemma {:induction false} OnlyStoresStore(i: Word, ins: seq<Inputs>, x: nat)
    requires Opcode(i) != STORE
    ensures Stored(i, ins, x) == 0
  {
    if |ins| > 0 {
      OnlyStoresStore(i, ins[..|ins| - 1], x);
    }
  }

  lemma {:induction false} ZeroHeld(i: Word, ins: seq<Inputs>)
    ensures Held(i, ins, false, 0) == 0
  {
    if |ins| > 0 {
      ZeroHeld(i, ins[..|ins| - 1]);
    }
  }

  ghost predicate HoldsBanks(b: Banks, i: Word, ins: seq<Inputs>) {
    forall k: RegIndex :: b.ints[k] == Held(i, ins, false, k) && b.fps[k] == Held(i, ins, true, k)
  }

  ghost predicate HoldsMemory(m: DataMemory, i: Word, ins: seq<Inputs>) {
    forall x: nat :: x < 256 ==> m[x] == Stored(i, ins, x)
  }

  lemma ReadsHeld(b: Banks, i: Word, ins: seq<Inputs>, fp: bool, k: RegIndex)
    requires HoldsBanks(b, i, ins)
    ensures ReadPort(b, fp, k) == Held(i, ins, fp, k)
  {
    hide Held;
    ZeroHeld(i, ins);
  }

  lemma LoadingBanks(c: Core, i: Word, ins: seq<Inputs>, e: Inputs)
    requires IsLoading(e) && Instruction(c) == i && HoldsBanks(c.banks, i, ins) && HoldsMemory(c.memory, i, ins)
    ensures HoldsBanks(NextBanks(c, e), i, ins + [e])
  {
    hide Field, AluOp, Alu.Result, ImmI, ImmS, ImmB, Stored, Instruction;
    assert (ins + [e])[..|ins|] == ins;
    ReadsHeld(c.banks, i, ins, false, Rs1(i));
    ReadsHeld(c.banks, i, ins, false, Rs2(i));
    if Opcode(i) == LOAD {
      OnlyStoresStore(i, ins, DataIndex(AluOut(c, false)));
    }
  }

  lemma LoadingMemory(c: Core, i: Word, ins: seq<Inputs>, e: Inputs)
    requires IsLoading(e) && Instruction(c) == i && HoldsBanks(c.banks, i, ins) && HoldsMemory(c.memory, i, ins)
    ensures HoldsMemory(NextMemory(c, e), i, ins + [e])
  {
    hide Field, Held, ImmI, ImmS, ImmB, AluOp, Instruction, HoldsBanks, DataIndex;
    assert (ins + [e])[..|ins|] == ins;
    ReadsHeld(c.banks, i, ins, ReadsFp(e), Rs1(i));
    ReadsHeld(c.banks, i, ins, ReadsFp(e), Rs2(i));
  }

  /** Registers and memory after any loading edges are what the history says. */
  lemma {:induction false} LoadingHolds(p: Core, i: Word, ins: seq<Inputs>)
    requires p.pc == 0 && p.instrMem[0] == i && p.banks == ClearedBanks() && p.memory == ClearedMemory()
    requires AllLoading(ins)
    ensures var c := RunInputs(p, ins);
      && c.pc == 0 && c.instrMem == p.instrMem && HoldsBanks(c.banks, i, ins) && HoldsMemory(c.memory, i, ins)
  {
    hide NextPc, NextBanks, NextMemory, HoldsBanks, HoldsMemory;
    if |ins| == 0 {
      NothingHeld(i);
    } else {
      var before, e := ins[..|ins| - 1], ins[|ins| - 1];
      LoadingHolds(p, i, before);
      var c := RunInputs(p, before);
      assert Instruction(c) == i;
      LoadingBanks(c, i, before, e);
      LoadingMemory(c, i, before, e);
      assert before + [e] == ins;
    }
  }

  lemma NothingHeld(i: Word)
    ensures HoldsBanks(ClearedBanks(), i, []) && HoldsMemory(ClearedMemory(), i, [])
  {
  }

  /** The last word stored to each entry of the data memory, if any, is zero. */
  ghost predicate StoredClean(i: Word, ins: seq<Inputs>) {
    forall x: nat :: x < 256 ==> Stored(i, ins, x) == 0
  }

  lemma MemoryIsClean(m: DataMemory, i: Word, ins: seq<Inputs>)
    requires HoldsMemory(m, i, ins)
    ensures m == ClearedMemory() <==> StoredClean(i, ins)
  {
    hide Stored;
    if m == ClearedMemory() {
      forall x: nat | x < 256
        ensures Stored(i, ins, x) == 0
      {
        assert m[x] == 0;
      }
    }
    if StoredClean(i, ins) {
      assert forall x: nat :: x < 256 ==> m[x] == Stored(i, ins, x);
      assert m == ClearedMemory();
    }
  }

  /** Exactly when a sequence of initialisation and idle edges brings a core, in whatever state it
      was before at least the program was written, to the start of the emulator: the registers end
      up as requested, and the last word stored to each entry of the data memory is zero. */
  lemma LoadsIff(c: Core, r: Request, words: nat, ins: seq<Inputs>)
    requires ValidRequest(r) && 0 < words <= 64 && r.count <= words && AllLoading(ins)
    ensures var i := r.program[0];
      Starts(RunInputs(Programmed(c, r, words), ins), r) <==>
      (forall k: RegIndex :: Held(i, ins, false, k) == r.regs[k]) && StoredClean(i, ins)
  {
    hide Programmed, RunInputs, Held, StoredClean, AllLoading;
    ProgrammedSoFar(c, r, words);
    var i := r.program[0];
    LoadingHolds(Programmed(c, r, words), i, ins);
    var s := RunInputs(Programmed(c, r, words), ins);
    assert s.banks.ints == r.regs <==> forall k: RegIndex :: Held(i, ins, false, k) == r.regs[k];
    MemoryIsClean(s.memory, i, ins);
    assert SameProgram(s, r);
  }

  // ----------------------------------------------------------------------
  // Idle edges, then one edge per register
  // ----------------------------------------------------------------------

  const IDLE := Inputs(false, false, NoProgram, NoInit)

  function InitEdge(r: Request, k: RegIndex): Inputs
    requires ValidRequest(r)
  {
    Inputs(false, false, NoProgram, InitRegister(k, r.regs[k], false))
  }

  /** The registers of ks in turn, each with its requested value, after some idle edges. */
  function Initialising(r: Request, idle: nat, ks: seq<RegIndex>): seq<Inputs>
    requires ValidRequest(r)
  {
    if |ks| > 0 then Initialising(r, idle, ks[..|ks| - 1]) + [InitEdge(r, ks[|ks| - 1])]
    else if idle > 0 then Initialising(r, idle - 1, ks) + [IDLE]
    else []
  }

  lemma {:induction false} InitialisingLoads(r: Request, idle: nat, ks: seq<RegIndex>)
    requires ValidRequest(r)
    ensures AllLoading(Initialising(r, idle, ks))
    decreases |ks|, idle
  {
    if |ks| > 0 {
      InitialisingLoads(r, idle, ks[..|ks| - 1]);
    } else if idle > 0 {
      InitialisingLoads(r, idle - 1, ks);
    }
  }

  lemma ZerosCompute(op: nat)
    ensures Alu.Result(0, 0, op) == 0
  {
    assert Pow2(0) == 1 && Pow2(32) == 0x1_0000_0000 by {
      Pow2Values();
    }
  }

  /** Idle edges on cleared registers change nothing, and each initialisation sets its register. */
  lemma {:induction false} HeldSoFar(i: Word, r: Request, idle: nat, ks: seq<RegIndex>, k: RegIndex)
    requires ValidRequest(r)
    ensures Held(i, Initialising(r, idle, ks), false, k) == if k in ks then r.regs[k] else 0
    decreases |ks|, idle
  {
    hide Field, Alu.Result, AluOp;
    if |ks| > 0 {
      HeldSoFar(i, r, idle, ks[..|ks| - 1], k);
      assert ks == ks[..|ks| - 1] + [ks[|ks| - 1]];
    } else if idle > 0 {
      HeldSoFar(i, r, idle - 1, ks, k);
      HeldSoFar(i, r, idle - 1, ks, Rs1(i));
      HeldSoFar(i, r, idle - 1, ks, Rs2(i));
      ZerosCompute(AluOp(i));
    }
  }

  /** Integer and idle edges leave the floating-point bank cleared. */
  lemma {:induction false} FpCleared(i: Word, r: Request, idle: nat, ks: seq<RegIndex>, k: RegIndex)
    requires ValidRequest(r)
    ensures Held(i, Initialising(r, idle, ks), true, k) == 0
    decreases |ks|, idle
  {
    if |ks| > 0 {
      FpCleared(i, r, idle, ks[..|ks| - 1], k);
    } else if idle > 0 {
      FpCleared(i, r, idle - 1, ks, k);
    }
  }

  /** What a store at instruction 0 stores on the edge that sets ks[t], and to which entry. */
  function IntValue(i: Word, r: Request, ks: seq<RegIndex>, t: nat): Word
    requires ValidRequest(r) && t <= |ks|
  {
    if Rs2(i) in ks[..t] then r.regs[Rs2(i)] else 0
  }

  function IntIndex(i: Word, r: Request, ks: seq<RegIndex>, t: nat): nat
    requires ValidRequest(r) && t <= |ks|
  {
    DataIndex(Wrap((if Rs1(i) in ks[..t] then r.regs[Rs1(i)] else 0) + ImmS(i)))
  }

  /** After idle and integer edges an entry is dirty exactly when some edge stored a word there that
      is not zero: later stores to it are not zero either. */
  lemma {:induction false} DirtyAfterInts(i: Word, r: Request, idle: nat, ks: seq<RegIndex>, x: nat)
    requires ValidRequest(r) && Opcode(i) == STORE
    ensures Stored(i, Initialising(r, idle, ks), x) != 0 <==>
            exists t :: 0 <= t < |ks| && IntIndex(i, r, ks, t) == x && IntValue(i, r, ks, t) != 0
    decreases |ks|, idle
  {
    hide Field, Held, DataIndex;
    if |ks| > 0 {
      var n, before := |ks| - 1, ks[..|ks| - 1];
      DirtyAfterInts(i, r, idle, before, x);
      HeldSoFar(i, r, idle, before, Rs1(i));
      HeldSoFar(i, r, idle, before, Rs2(i));
      assert IntIndex(i, r, ks, n) == StoreIndex(i, Initialising(r, idle, before), InitEdge(r, ks[n]));
      forall t | 0 <= t < n
        ensures IntIndex(i, r, ks, t) == IntIndex(i, r, before, t) && IntValue(i, r, ks, t) == IntValue(i, r, before, t)
        ensures IntValue(i, r, ks, t) != 0 ==> IntValue(i, r, ks, n) != 0
      {
        assert ks[..t] == before[..t];
        assert forall k :: k in ks[..t] ==> k in ks[..n];
      }
    } else if idle > 0 {
      DirtyAfterInts(i, r, idle - 1, ks, x);
      HeldSoFar(i, r, idle - 1, ks, Rs2(i));
      assert !ReadsFp(IDLE);
    }
  }

  // ----------------------------------------------------------------------
  // Floating-point registers after the integer ones
  // ----------------------------------------------------------------------

  datatype FpInit = FpInit(addr: RegIndex, data: Word)

  function FpEdge(f: FpInit): Inputs {
    Inputs(false, false, NoProgram, InitRegister(f.addr, f.data, true))
  }

  function WithFp(r: Request, idle: nat, ks: seq<RegIndex>, fs: seq<FpInit>): seq<Inputs>
    requires ValidRequest(r)
  {
    if |fs| == 0 then Initialising(r, idle, ks)
    else WithFp(r, idle, ks, fs[..|fs| - 1]) + [FpEdge(fs[|fs| - 1])]
  }

  /** The floating-point register k after the edges fs. */
  function FpHeld(fs: seq<FpInit>, k: RegIndex): Word {
    if |fs| == 0 then 0
    else if fs[|fs| - 1].addr == k then fs[|fs| - 1].data
    else FpHeld(fs[..|fs| - 1], k)
  }

  /** What a store at instruction 0 stores on the edge fs[u], and to which entry: both operands come
      from the floating-point bank. */
  function FpValue(i: Word, fs: seq<FpInit>, u: nat): Word
    requires u <= |fs|
  {
    FpHeld(fs[..u], Rs2(i))
  }

  function FpIndex(i: Word, fs: seq<FpInit>, u: nat): nat
    requires u <= |fs|
  {
    DataIndex(Wrap(FpHeld(fs[..u], Rs1(i)) + ImmS(i)))
  }

  lemma {:induction false} WithFpLoads(r: Request, idle: nat, ks: seq<RegIndex>, fs: seq<FpInit>)
    requires ValidRequest(r)
    ensures AllLoading(WithFp(r, idle, ks, fs))
  {
    if |fs| == 0 {
      InitialisingLoads(r, idle, ks);
    } else {
      WithFpLoads(r, idle, ks, fs[..|fs| - 1]);
    }
  }

  lemma {:induction false} HeldWithFp(i: Word, r: Request, idle: nat, ks: seq<RegIndex>, fs: seq<FpInit>, k: RegIndex)
    requires ValidRequest(r)
    ensures Held(i, WithFp(r, idle, ks, fs), true, k) == FpHeld(fs, k)
    ensures Held(i, WithFp(r, idle, ks, fs), false, k) == if k in ks then r.regs[k] else 0
  {
    hide Field;
    if |fs| == 0 {
      FpCleared(i, r, idle, ks, k);
      HeldSoFar(i, r, idle, ks, k);
    } else {
      HeldWithFp(i, r, idle, ks, fs[..|fs| - 1], k);
    }
  }

  /** The last floating-point edge that stores to entry x. */
  predicate LastAt(i: Word, fs: seq<FpInit>, u: nat, x: nat) {
    u < |fs| && FpIndex(i, fs, u) == x && forall v :: u < v < |fs| ==> FpIndex(i, fs, v) != x
  }

  lemma {:induction false} StoredWithFp(i: Word, r: Request, idle: nat, ks: seq<RegIndex>, fs: seq<FpInit>, x: nat)
    requires ValidRequest(r) && Opcode(i) == STORE
    ensures (forall u :: 0 <= u < |fs| ==> FpIndex(i, fs, u) != x) ==>
              Stored(i, WithFp(r, idle, ks, fs), x) == Stored(i, Initialising(r, idle, ks), x)
    ensures forall u: nat :: LastAt(i, fs, u, x) ==> Stored(i, WithFp(r, idle, ks, fs), x) == FpValue(i, fs, u)
    ensures (exists u :: 0 <= u < |fs| && FpIndex(i, fs, u) == x) ==> exists u: nat :: LastAt(i, fs, u, x)
  {
    hide Field, Held, DataIndex, FpHeld;
    if |fs| > 0 {
      var n, before := |fs| - 1, fs[..|fs| - 1];
      StoredWithFp(i, r, idle, ks, before, x);
      HeldWithFp(i, r, idle, ks, before, Rs1(i));
      HeldWithFp(i, r, idle, ks, before, Rs2(i));
      assert FpIndex(i, fs, n) == StoreIndex(i, WithFp(r, idle, ks, before), FpEdge(fs[n]));
      forall u | 0 <= u < n
        ensures FpIndex(i, fs, u) == FpIndex(i, before, u) && FpValue(i, fs, u) == FpValue(i, before, u)
      {
        assert fs[..u] == before[..u];
      }
      if FpIndex(i, fs, n) == x {
        assert LastAt(i, fs, n, x);
      } else {
        assert forall u: nat :: LastAt(i, before, u, x) <==> LastAt(i, fs, u, x);
      }
    }
  }

  /** Every non-zero word that an integer edge stores is overwritten by a floating-point edge, and
      every non-zero word that a floating-point edge stores by a later one. */
  predicate Overwritten(i: Word, r: Request, ks: seq<RegIndex>, fs: seq<FpInit>)
    requires ValidRequest(r)
  {
    && (forall t :: 0 <= t < |ks| && IntValue(i, r, ks, t) != 0 ==>
          exists u :: 0 <= u < |fs| && FpIndex(i, fs, u) == IntIndex(i, r, ks, t))
    && (forall u :: 0 <= u < |fs| && FpValue(i, fs, u) != 0 ==>
          exists v :: u < v < |fs| && FpIndex(i, fs, v) == FpIndex(i, fs, u))
  }

  lemma CleanIffOverwritten(i: Word, r: Request, idle: nat, ks: seq<RegIndex>, fs: seq<FpInit>)
    requires ValidRequest(r) && Opcode(i) == STORE
    ensures StoredClean(i, WithFp(r, idle, ks, fs)) <==> Overwritten(i, r, ks, fs)
  {
    hide Stored, IntIndex, IntValue, FpIndex, FpValue, WithFp, Initialising, Opcode;
    var ins := WithFp(r, idle, ks, fs);
    IndexRange(i, r, ks, fs);
    forall x: nat
      ensures (forall u :: 0 <= u < |fs| ==> FpIndex(i, fs, u) != x) ==>
                Stored(i, ins, x) == Stored(i, Initialising(r, idle, ks), x)
      ensures forall u: nat :: LastAt(i, fs, u, x) ==> Stored(i, ins, x) == FpValue(i, fs, u)
      ensures (exists u :: 0 <= u < |fs| && FpIndex(i, fs, u) == x) ==> exists u: nat :: LastAt(i, fs, u, x)
      ensures Stored(i, Initialising(r, idle, ks), x) != 0 <==>
              exists t :: 0 <= t < |ks| && IntIndex(i, r, ks, t) == x && IntValue(i, r, ks, t) != 0
    {
      StoredWithFp(i, r, idle, ks, fs, x);
      DirtyAfterInts(i, r, idle, ks, x);
    }
    if StoredClean(i, ins) {
      forall u | 0 <= u < |fs| && FpValue(i, fs, u) != 0
        ensures exists v :: u < v < |fs| && FpIndex(i, fs, v) == FpIndex(i, fs, u)
      {
        assert Stored(i, ins, FpIndex(i, fs, u)) == 0;
        assert !LastAt(i, fs, u, FpIndex(i, fs, u));
      }
      forall t | 0 <= t < |ks| && IntValue(i, r, ks, t) != 0
        ensures exists u :: 0 <= u < |fs| && FpIndex(i, fs, u) == IntIndex(i, r, ks, t)
      {
        assert Stored(i, ins, IntIndex(i, r, ks, t)) == 0;
      }
    }
    if Overwritten(i, r, ks, fs) {
      forall x: nat | x < 256
        ensures Stored(i, ins, x) == 0
      {
        if u: nat :| LastAt(i, fs, u, x) {
          assert Stored(i, ins, x) == FpValue(i, fs, u);
        }
      }
    }
  }

  lemma IndexRange(i: Word, r: Request, ks: seq<RegIndex>, fs: seq<FpInit>)
    requires ValidRequest(r)
    ensures forall t :: 0 <= t < |ks| ==> IntIndex(i, r, ks, t) < 256
    ensures forall u :: 0 <= u < |fs| ==> FpIndex(i, fs, u) < 256
  {
  }

  /** Idle edges, then integer registers in any order, each one that must not be zero at least once,
      then any floating-point registers: the core is at the emulator's start if and only if
      instruction 0 is not a store, or all the non-zero words it stores meanwhile are overwritten. */
  lemma InitialisesWithFpIff(c: Core, r: Request, words: nat, idle: nat, ks: seq<RegIndex>, fs: seq<FpInit>)
    requires ValidRequest(r) && 0 < words <= 64 && r.count <= words
    requires forall k: RegIndex :: r.regs[k] != 0 ==> k in ks
    ensures Starts(RunInputs(Programmed(c, r, words), WithFp(r, idle, ks, fs)), r) <==>
            (Opcode(r.program[0]) == STORE ==> Overwritten(r.program[0], r, ks, fs))
  {
    hide Programmed, RunInputs, Held, Stored, AllLoading, WithFp, Starts, Field, Overwritten;
    var i, ins := r.program[0], WithFp(r, idle, ks, fs);
    WithFpLoads(r, idle, ks, fs);
    LoadsIff(c, r, words, ins);
    forall k: RegIndex
      ensures Held(i, ins, false, k) == r.regs[k]
    {
      HeldWithFp(i, r, idle, ks, fs, k);
    }
    if Opcode(i) == STORE {
      CleanIffOverwritten(i, r, idle, ks, fs);
    } else {
      forall x: nat
        ensures Stored(i, ins, x) == 0
      {
        OnlyStoresStore(i, ins, x);
      }
    }
  }

  /** Without floating-point edges: if and only if instruction 0 is not a store of a register that is
      not zero and is set before the last edge. */
  lemma InitialisesIff(c: Core, r: Request, words: nat, idle: nat, ks: seq<RegIndex>)
    requires ValidRequest(r) && 0 < words <= 64 && r.count <= words
    requires forall k: RegIndex :: r.regs[k] != 0 ==> k in ks
    ensures var i := r.program[0];
      Starts(RunInputs(Programmed(c, r, words), Initialising(r, idle, ks)), r) <==>
      !(Opcode(i) == STORE && |ks| > 0 && Rs2(i) in ks[..|ks| - 1] && r.regs[Rs2(i)] != 0)
  {
    hide Programmed, RunInputs, Initialising, Starts, Field, IntIndex, FpIndex, FpValue;
    var i := r.program[0];
    InitialisesWithFpIff(c, r, words, idle, ks, []);
    assert WithFp(r, idle, ks, []) == Initialising(r, idle, ks);
    if |ks| > 0 {
      assert forall t :: 0 <= t < |ks| ==> forall k :: k in ks[..t] ==> k in ks[..|ks| - 1];
      assert IntValue(i, r, ks, |ks| - 1) != 0 <==> Rs2(i) in ks[..|ks| - 1] && r.regs[Rs2(i)] != 0;
    }
  }

  /** One idle edge at the start keeps it if and only if instruction 0 neither changes its register
      nor stores a word that is not zero. */
  lemma IdleKeepsStartIff(c: Core, r: Request)
    requires ValidRequest(r) && Starts(c, r) && r.count > 0
    ensures var i := r.program[0]; var left, right := r.regs[Rs1(i)], r.regs[Rs2(i)];
      Starts(Step(c, IDLE), r) <==>
      && (Opcode(i) == OP && Rd(i) != 0 ==> Alu.Result(left, right, AluOp(i)) == r.regs[Rd(i)])
      && (Opcode(i) == LOAD ==> r.regs[Rd(i)] == 0)
      && (Opcode(i) == STORE ==> right == 0)
  {
    hide Field, Alu.Result, AluOp, NextPc;
    var i, c' := r.program[0], Step(c, IDLE);
    assert Instruction(c) == i;
    if Opcode(i) == STORE {
      SameEntry(c.memory, DataIndex(AluOut(c, false)), r.regs[Rs2(i)]);
    }
    if Opcode(i) == OP || Opcode(i) == LOAD {
      SameUpdate(r.regs, Rd(i), Writeback(c, false));
    }
  }

  lemma SameEntry(m: DataMemory, x: nat, v: Word)
    requires x < 256
    ensures m[x := v] == m <==> m[x] == v
  {
    if m[x] == v {
      assert m[x := v] == m;
    }
  }

  lemma SameUpdate(regs: Registers, k: RegIndex, v: Word)
    ensures regs[k := v] == regs <==> regs[k] == v
  {
    if regs[k] == v {
      assert regs[k := v] == regs;
    }
  }
}

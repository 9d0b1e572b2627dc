/** The encodings of the ten instructions as numbers (RISC-V ISA Manual, Vol. I, version 20191213,
    sections 2.2 to 2.6), apart from the decoders of core and emulator, and what these make of them. */
module Rv32iEncoding {
  import opened Powers
  import opened Rv32i
  import opened CpuExecCore
  import opened Rv32iEmulator
  import opened CpuSimulation

  // ----------------------------------------------------------------------
  // The instructions
  // ----------------------------------------------------------------------

  datatype Op = Add | Sub | And | Or | Xor | Sll | Sra | Slt

  /** Signed 12-bit immediates, and even branch offsets. */
  type Imm12 = k: int | -2048 <= k < 2048

  type Offset = k: int | -4096 <= k < 4096 && k % 2 == 0

  datatype Instr =
    | Register(op: Op, rd: RegIndex, rs1: RegIndex, rs2: RegIndex)
    | Addi(rd: RegIndex, rs1: RegIndex, imm: Imm12)
    | Beq(rs1: RegIndex, rs2: RegIndex, offset: Offset)
    | Lw(rd: RegIndex, rs1: RegIndex, imm: Imm12)
    | Sw(rs2: RegIndex, rs1: RegIndex, imm: Imm12)

  function Funct3Of(op: Op): (f: nat)
    ensures f < 8
  {
    match op
    case Add => 0 case Sub => 0 case Sll => 1 case Slt => 2 case Xor => 4 case Sra => 5 case Or => 6 case And => 7
  }

  function Funct7Of(op: Op): nat {
    if op == Sub || op == Sra then 0x20 else 0
  }

  /** The five fields below funct7: rs2, rs1, funct3, rd, opcode. */
  function Fields(rs2: RegIndex, rs1: RegIndex, funct3: nat, rd: RegIndex, opcode: nat): nat {
    rs2 * 0x10_0000 + rs1 * 0x8000 + funct3 * 0x1000 + rd * 0x80 + opcode
  }

  function EncodeR(op: Op, rd: RegIndex, rs1: RegIndex, rs2: RegIndex): Word {
    Funct7Of(op) * 0x200_0000 + Fields(rs2, rs1, Funct3Of(op), rd, 0x33)
  }

  /** Two's complement in 12 bits. */
  function Low12(imm: Imm12): (v: nat)
    ensures v < 0x1000
  {
    if imm < 0 then imm + 0x1000 else imm
  }

  function EncodeI(opcode: nat, funct3: nat, rd: RegIndex, rs1: RegIndex, imm: Imm12): Word
    requires opcode < 0x80 && funct3 < 8
  {
    Low12(imm) * 0x10_0000 + rs1 * 0x8000 + funct3 * 0x1000 + rd * 0x80 + opcode
  }

  function EncodeS(funct3: nat, rs2: RegIndex, rs1: RegIndex, imm: Imm12): Word
    requires funct3 < 8
  {
    (Low12(imm) / 0x20) * 0x200_0000 + Fields(rs2, rs1, funct3, Low12(imm) % 0x20, 0x23)
  }

  /** Two's complement in 13 bits, of which the last is not stored. */
  function Low13(offset: Offset): (v: nat)
    ensures v < 0x2000
  {
    if offset < 0 then offset + 0x2000 else offset
  }

  /** imm[12|10:5] rs2 rs1 funct3 imm[4:1|11] opcode */
  function EncodeB(funct3: nat, rs1: RegIndex, rs2: RegIndex, offset: Offset): Word
    requires funct3 < 8
  {
    var v := Low13(offset);
    (v / 0x1000) * 0x8000_0000 + ((v / 0x20) % 0x40) * 0x200_0000
    + Fields(rs2, rs1, funct3, ((v / 2) % 0x10) * 2 + (v / 0x800) % 2, 0x63)
  }

  function Encode(ins: Instr): Word {
    match ins
    case Register(op, rd, rs1, rs2) => EncodeR(op, rd, rs1, rs2)
    case Addi(rd, rs1, imm) => EncodeI(0x13, 0, rd, rs1, imm)
    case Beq(rs1, rs2, offset) => EncodeB(0, rs1, rs2, offset)
    case Lw(rd, rs1, imm) => EncodeI(0x03, 2, rd, rs1, imm)
    case Sw(rs2, rs1, imm) => EncodeS(2, rs2, rs1, imm)
  }

  // ----------------------------------------------------------------------
  // Slices and immediates in plain numbers
  // ----------------------------------------------------------------------

  lemma SliceIs(i: nat, low: nat, unit: nat, mid: nat, range: nat, top: nat)
    requires unit > 0 && range > 0 && low < unit && mid < range && i == low + (mid + top * range) * unit
    ensures (i / unit) % range == mid && i / unit == mid + top * range && i % unit == low
  {
    DivUnique(i, unit, mid + top * range);
    DivUnique(mid + top * range, range, top);
  }

  /** The fields of an assembled word are those it was assembled from. */
  lemma Disassembles(i: Word, funct7: nat, rs2: RegIndex, rs1: RegIndex, funct3: nat, rd: RegIndex, opcode: nat)
    requires funct7 < 0x80 && funct3 < 8 && opcode < 0x80
    requires i == funct7 * 0x200_0000 + Fields(rs2, rs1, funct3, rd, opcode)
    ensures Opcode(i) == opcode && Rd(i) == rd && Funct3(i) == funct3
    ensures Rs1(i) == rs1 && Rs2(i) == rs2 && Funct7(i) == funct7
  {
    hide Field, Opcode, Rd, Funct3, Rs1, Rs2, Funct7;
    FieldsInNumbers(i);
    var above20 := funct7 * 0x20 + rs2;
    var above15 := above20 * 0x20 + rs1;
    var above12 := above15 * 8 + funct3;
    var above7 := above12 * 0x20 + rd;
    SliceIs(i, 0, 1, opcode, 0x80, above7);
    SliceIs(i, opcode, 0x80, rd, 0x20, above12);
    SliceIs(i, rd * 0x80 + opcode, 0x1000, funct3, 8, above15);
    SliceIs(i, funct3 * 0x1000 + rd * 0x80 + opcode, 0x8000, rs1, 0x20, above20);
    SliceIs(i, rs1 * 0x8000 + funct3 * 0x1000 + rd * 0x80 + opcode, 0x10_0000, rs2, 0x20, funct7);
    SliceIs(i, Fields(rs2, rs1, funct3, rd, opcode), 0x200_0000, funct7, 0x80, 0);
  }

  lemma FieldsInNumbers(i: Word)
    ensures Opcode(i) == i % 0x80 && Rd(i) == (i / 0x80) % 0x20 && Funct3(i) == (i / 0x1000) % 8
    ensures Rs1(i) == (i / 0x8000) % 0x20 && Rs2(i) == (i / 0x10_0000) % 0x20 && Funct7(i) == i / 0x200_0000
  {
    hide Field, Pow2;
    SmallPowers();
    FieldIs(i, 0, 7, 1, 0x80);
    FieldIs(i, 7, 5, 0x80, 0x20);
    FieldIs(i, 12, 3, 0x1000, 8);
    FieldIs(i, 15, 5, 0x8000, 0x20);
    FieldIs(i, 20, 5, 0x10_0000, 0x20);
    FieldValues(i);
  }

  lemma SmallPowers()
    ensures Pow2(0) == 1 && Pow2(1) == 2 && Pow2(3) == 8 && Pow2(4) == 0x10 && Pow2(5) == 0x20 && Pow2(6) == 0x40
    ensures Pow2(7) == 0x80 && Pow2(8) == 0x100 && Pow2(11) == 0x800 && Pow2(12) == 0x1000 && Pow2(13) == 0x2000
    ensures Pow2(15) == 0x8000 && Pow2(20) == 0x10_0000 && Pow2(25) == 0x200_0000
  {
    assert Pow2(7) == 0x80;
    assert Pow2(15) == 0x8000;
    assert Pow2(20) == 0x10_0000;
  }

  /** Every word is assembled from its fields. */
  lemma Assembles(i: Word)
    ensures i == (i / 0x200_0000) * 0x200_0000
                 + Fields((i / 0x10_0000) % 0x20, (i / 0x8000) % 0x20, (i / 0x1000) % 8, (i / 0x80) % 0x20, i % 0x80)
  {
    SplitAt(i, 0x80, i / 0x80);
    SplitAt(i / 0x80, 0x20, i / 0x1000);
    SplitAt(i / 0x1000, 8, i / 0x8000);
    SplitAt(i / 0x8000, 0x20, i / 0x10_0000);
    SplitAt(i / 0x10_0000, 0x20, i / 0x200_0000);
  }

  lemma SplitAt(n: nat, unit: nat, q: nat)
    requires unit > 0 && q == n / unit
    ensures n == q * unit + n % unit
  {
  }

  function SignedI(i: Word): int {
    i / 0x10_0000 - (if i >= 0x8000_0000 then 0x1000 else 0)
  }

  function SignedS(i: Word): int {
    (i / 0x200_0000) * 0x20 + (i / 0x80) % 0x20 - (if i >= 0x8000_0000 then 0x1000 else 0)
  }

  function SignedB(i: Word): int {
    ((i / 0x80) % 2) * 0x800 + ((i / 0x200_0000) % 0x40) * 0x20 + ((i / 0x100) % 0x10) * 2
    - (if i >= 0x8000_0000 then 0x1000 else 0)
  }

  // ----------------------------------------------------------------------
  // What the decoders make of immediates
  // ----------------------------------------------------------------------

  lemma ExtendIs(bits: nat, width: nat, half: nat, negative: bool)
    requires width > 0 && half == Pow2(width - 1) && bits < 2 * half && (negative <==> bits >= half)
    ensures SignExtend(bits, width) == bits - (if negative then 2 * half else 0)
  {
    hide Pow2;
    Pow2Step(width);
    TopBit(bits, width - 1);
    assert Bit(bits, width - 1) <==> (bits / Pow2(width - 1)) % 2 == 1;
  }

  lemma ImmediateIs(i: Word)
    ensures ImmediateI(i) == SignedI(i) && ImmediateS(i) == SignedS(i) && ImmediateB(i) == SignedB(i)
  {
    hide Field, SignExtend, Bitwise, Pow2;
    SmallPowers();
    FieldValues(i);
    FieldsInNumbers(i);
    BFieldsInNumbers(i);
    SBits(i);
    BBits(i);
    TopOfB(i);
    ExtendIs(i / 0x10_0000, 12, 0x800, i >= 0x8000_0000);
    ExtendIs(STypeBits(i), 12, 0x800, i >= 0x8000_0000);
    ExtendIs(BTypeBits(i), 13, 0x1000, i >= 0x8000_0000);
  }

  lemma BFieldsInNumbers(i: Word)
    ensures Field(i, 7, 1) == (i / 0x80) % 2 && Field(i, 8, 4) == (i / 0x100) % 0x10
    ensures Field(i, 25, 6) == (i / 0x200_0000) % 0x40
    ensures Field(i, 7, 5) == (i / 0x80) % 0x20
  {
    hide Field, Pow2;
    SmallPowers();
    FieldIs(i, 7, 1, 0x80, 2);
    FieldIs(i, 25, 6, 0x200_0000, 0x40);
    FieldIs(i, 8, 4, 0x100, 0x10);
    FieldIs(i, 7, 5, 0x80, 0x20);
  }

  /** The control unit adds the same numbers modulo 2^32. */
  lemma CoreImmediates(a: Word, i: Word)
    ensures Wrap(a + ImmI(i)) == (a + SignedI(i)) % 0x1_0000_0000
    ensures Wrap(a + ImmS(i)) == (a + SignedS(i)) % 0x1_0000_0000
    ensures Wrap(a + ImmB(i)) == (a + SignedB(i)) % 0x1_0000_0000
  {
    hide ImmI, ImmS, ImmB, ImmediateI, ImmediateS, ImmediateB;
    ImmediateIs(i);
    SameI(a, i);
    SameS(a, i);
    SameB(a, i);
  }

  // ----------------------------------------------------------------------
  // Encodings come back
  // ----------------------------------------------------------------------

  lemma EncodedR(op: Op, rd: RegIndex, rs1: RegIndex, rs2: RegIndex)
    ensures var i := EncodeR(op, rd, rs1, rs2);
      && Opcode(i) == 0x33 && Rd(i) == rd && Rs1(i) == rs1 && Rs2(i) == rs2
      && Funct3(i) == Funct3Of(op) && Funct7(i) == Funct7Of(op)
  {
    hide Field;
    Disassembles(EncodeR(op, rd, rs1, rs2), Funct7Of(op), rs2, rs1, Funct3Of(op), rd, 0x33);
  }

  lemma EncodedI(opcode: nat, funct3: nat, rd: RegIndex, rs1: RegIndex, imm: Imm12)
    requires opcode < 0x80 && funct3 < 8
    ensures var i := EncodeI(opcode, funct3, rd, rs1, imm);
      && Opcode(i) == opcode && Rd(i) == rd && Rs1(i) == rs1 && Funct3(i) == funct3 && SignedI(i) == imm
  {
    hide Field;
    var v := Low12(imm);
    var i := EncodeI(opcode, funct3, rd, rs1, imm);
    SplitAt(v, 0x20, v / 0x20);
    Disassembles(i, v / 0x20, v % 0x20, rs1, funct3, rd, opcode);
    DivUnique(i, 0x10_0000, v);
  }

  lemma EncodedS(funct3: nat, rs2: RegIndex, rs1: RegIndex, imm: Imm12)
    requires funct3 < 8
    ensures var i := EncodeS(funct3, rs2, rs1, imm);
      && Opcode(i) == 0x23 && Rs1(i) == rs1 && Rs2(i) == rs2 && Funct3(i) == funct3 && SignedS(i) == imm
  {
    hide Field;
    var v := Low12(imm);
    var i := EncodeS(funct3, rs2, rs1, imm);
    SplitAt(v, 0x20, v / 0x20);
    Disassembles(i, v / 0x20, rs2, rs1, funct3, v % 0x20, 0x23);
    FieldsInNumbers(i);
  }

  lemma EncodedB(funct3: nat, rs1: RegIndex, rs2: RegIndex, offset: Offset)
    requires funct3 < 8
    ensures var i := EncodeB(funct3, rs1, rs2, offset);
      && Opcode(i) == 0x63 && Rs1(i) == rs1 && Rs2(i) == rs2 && Funct3(i) == funct3 && SignedB(i) == offset
  {
    hide Field, Opcode, Rs1, Rs2, Funct3, Funct7, Rd, SignedB, EncodeB, Low13, Fields;
    var v, i := Low13(offset), EncodeB(funct3, rs1, rs2, offset);
    var sign, high, b7, low := v / 0x1000, (v / 0x20) % 0x40, (v / 0x800) % 2, (v / 2) % 0x10;
    EvenOffset(offset);
    OffsetBits(v);
    EncodeBIs(funct3, rs1, rs2, offset);
    Disassembles(i, sign * 0x40 + high, rs2, rs1, funct3, low * 2 + b7, 0x63);
    FieldsInNumbers(i);
    SignedBIs(i, sign, high, b7, low);
    OffsetIs(offset, sign);
  }

  lemma EncodeBIs(funct3: nat, rs1: RegIndex, rs2: RegIndex, offset: Offset)
    requires funct3 < 8
    ensures var v := Low13(offset);
      EncodeB(funct3, rs1, rs2, offset) == (v / 0x1000 * 0x40 + (v / 0x20) % 0x40) * 0x200_0000
        + Fields(rs2, rs1, funct3, ((v / 2) % 0x10) * 2 + (v / 0x800) % 2, 0x63)
  {
    hide Low13, Fields;
  }

  lemma OffsetIs(offset: Offset, sign: nat)
    requires sign == Low13(offset) / 0x1000
    ensures offset == Low13(offset) - sign * 0x2000
  {
    DivUnique(Low13(offset), 0x1000, if offset < 0 then 1 else 0);
  }

  lemma EvenOffset(offset: Offset)
    ensures Low13(offset) % 2 == 0
  {
  }

  lemma SignedBIs(i: Word, sign: nat, high: nat, b7: nat, low: nat)
    requires sign < 2 && high < 0x40 && b7 < 2 && low < 0x10
    requires i / 0x200_0000 == sign * 0x40 + high && (i / 0x80) % 0x20 == low * 2 + b7
    ensures SignedB(i) == b7 * 0x800 + high * 0x20 + low * 2 - sign * 0x1000
  {
    LowField(i, low, b7);
    SliceIs(sign * 0x40 + high, 0, 1, high, 0x40, sign);
  }

  lemma OffsetBits(v: nat)
    requires v < 0x2000 && v % 2 == 0
    ensures v == (v / 0x1000) * 0x1000 + ((v / 0x800) % 2) * 0x800 + ((v / 0x20) % 0x40) * 0x20 + ((v / 2) % 0x10) * 2
    ensures v / 0x1000 < 2
  {
    SplitAt(v, 2, v / 2);
    SplitAt(v / 2, 0x10, v / 0x20);
    SplitAt(v / 0x20, 0x40, v / 0x800);
    SplitAt(v / 0x800, 2, v / 0x1000);
  }

  /** Bits 7 and 8 to 11, from the field that holds both. */
  lemma LowField(i: Word, low: nat, b7: nat)
    requires low < 0x10 && b7 < 2 && (i / 0x80) % 0x20 == low * 2 + b7
    ensures (i / 0x80) % 2 == b7 && (i / 0x100) % 0x10 == low
  {
    var q := i / 0x80;
    SplitAt(q, 0x20, q / 0x20);
    SliceIs(q, 0, 1, b7, 2, low + (q / 0x20) * 0x10);
    SplitAt(i, 0x80, q);
    DivUnique(i, 0x100, low + (q / 0x20) * 0x10);
    SliceIs(low + (q / 0x20) * 0x10, 0, 1, low, 0x10, q / 0x20);
  }

  // ----------------------------------------------------------------------
  // The scope of the emulator
  // ----------------------------------------------------------------------

  /** _validate_request_scope lets through exactly the encodings of the ten instructions. */
  lemma ScopeIsTheInstructions(i: Word)
    ensures InScope(i) <==> exists ins: Instr :: Encode(ins) == i
  {
    hide Field, EncodeR, EncodeI, EncodeS, EncodeB, SignedI, SignedS, SignedB;
    forall ins: Instr | Encode(ins) == i
      ensures InScope(i)
    {
      match ins {
        case Register(op, rd, rs1, rs2) => EncodedR(op, rd, rs1, rs2);
        case Addi(rd, rs1, imm) => EncodedI(0x13, 0, rd, rs1, imm);
        case Beq(rs1, rs2, offset) => EncodedB(0, rs1, rs2, offset);
        case Lw(rd, rs1, imm) => EncodedI(0x03, 2, rd, rs1, imm);
        case Sw(rs2, rs1, imm) => EncodedS(2, rs2, rs1, imm);
      }
    }
    if InScope(i) {
      var ins := Disassembled(i);
      assert Encode(ins) == i;
    }
  }

  lemma Disassembled(i: Word) returns (ins: Instr)
    requires InScope(i)
    ensures Encode(ins) == i
  {
    hide Field, Opcode, Funct3, Funct7, EncodeR, EncodeI, EncodeS, EncodeB, SignedI, SignedS, SignedB;
    var rd, rs1, rs2 := Rd(i), Rs1(i), Rs2(i);
    if Opcode(i) == OP {
      var op := OpOf(i);
      AssembledR(i, op);
      ins := Register(op, rd, rs1, rs2);
    } else if Opcode(i) == BRANCH {
      var offset := AssembledB(i);
      ins := Beq(rs1, rs2, offset);
    } else if Opcode(i) == STORE {
      var imm := AssembledS(i);
      ins := Sw(rs2, rs1, imm);
    } else {
      var imm := AssembledI(i);
      ins := if Opcode(i) == LOAD then Lw(rd, rs1, imm) else Addi(rd, rs1, imm);
    }
  }

  lemma OpOf(i: Word) returns (op: Op)
    requires InScope(i) && Opcode(i) == OP
    ensures Funct3(i) == Funct3Of(op) && Funct7(i) == Funct7Of(op)
  {
    hide Field, Opcode, Funct3, Funct7;
    op := match Funct3(i)
      case 0 => (if Funct7(i) == 0 then Add else Sub)
      case 1 => Sll
      case 2 => Slt
      case 4 => Xor
      case 5 => Sra
      case 6 => Or
      case _ => And;
  }

  lemma AssembledR(i: Word, op: Op)
    requires Opcode(i) == 0x33 && Funct3(i) == Funct3Of(op) && Funct7(i) == Funct7Of(op)
    ensures EncodeR(op, Rd(i), Rs1(i), Rs2(i)) == i
  {
    hide Field, Opcode, Rd, Rs1, Rs2, Funct3, Funct7;
    FieldsInNumbers(i);
    Assembles(i);
  }

  lemma AssembledI(i: Word) returns (imm: Imm12)
    ensures EncodeI(Opcode(i), Funct3(i), Rd(i), Rs1(i), imm) == i
  {
    hide Field, Opcode, Rd, Rs1, Funct3;
    FieldsInNumbers(i);
    Assembles(i);
    SplitAt(i / 0x10_0000, 0x20, i / 0x200_0000);
    imm := SignedI(i);
  }

  lemma AssembledS(i: Word) returns (imm: Imm12)
    requires Opcode(i) == 0x23
    ensures EncodeS(Funct3(i), Rs2(i), Rs1(i), imm) == i
  {
    hide Field, Opcode, Rs1, Rs2, Funct3;
    FieldsInNumbers(i);
    Assembles(i);
    imm := SignedS(i);
    JoinedImmediate(i / 0x200_0000, (i / 0x80) % 0x20);
  }

  lemma JoinedImmediate(high: nat, low: nat)
    requires high < 0x80 && low < 0x20
    ensures (high * 0x20 + low) / 0x20 == high && (high * 0x20 + low) % 0x20 == low
  {
    DivUnique(high * 0x20 + low, 0x20, high);
  }

  lemma AssembledB(i: Word) returns (offset: Offset)
    requires Opcode(i) == 0x63
    ensures EncodeB(Funct3(i), Rs1(i), Rs2(i), offset) == i
  {
    hide Field, Opcode, Rs1, Rs2, Funct3;
    FieldsInNumbers(i);
    Assembles(i);
    var rd, f7 := (i / 0x80) % 0x20, i / 0x200_0000;
    SplitAt(rd, 2, rd / 2);
    SplitAt(f7, 0x40, f7 / 0x40);
    offset := JoinedOffset(f7 / 0x40, rd % 2, f7 % 0x40, rd / 2);
  }

  /** The offset with the given bits. */
  lemma JoinedOffset(sign: nat, b7: nat, high: nat, low: nat) returns (offset: Offset)
    requires sign < 2 && b7 < 2 && high < 0x40 && low < 0x10
    ensures var v := Low13(offset);
      v / 0x1000 == sign && (v / 0x800) % 2 == b7 && (v / 0x20) % 0x40 == high && (v / 2) % 0x10 == low
  {
    var v := sign * 0x1000 + b7 * 0x800 + high * 0x20 + low * 2;
    SliceIs(v, 0, 2, low, 0x10, sign * 0x80 + b7 * 0x40 + high);
    SliceIs(v, low * 2, 0x20, high, 0x40, sign * 2 + b7);
    SliceIs(v, high * 0x20 + low * 2, 0x800, b7, 2, sign);
    DivUnique(v, 0x1000, sign);
    EvenDifference(v, sign * 0x800 + b7 * 0x400 + high * 0x10 + low);
    offset := if sign == 1 then v - 0x2000 else v;
  }

  lemma EvenDifference(v: nat, half: nat)
    requires v == 2 * half
    ensures v % 2 == 0 && (v - 0x2000) % 2 == 0
  {
    DivUnique(v, 2, half);
    DivUnique(v - 0x2000, 2, half - 0x1000);
  }

  /** Apart from ADDI, which the emulator executes for every funct3, the scope is what it can execute. */
  lemma ScopeIsExecutable(i: Word)
    ensures Opcode(i) != OP_IMM ==>
              (InScope(i) <==> forall m: Machine :: ExecuteInstruction(i, m) != Raised(Unsupported(i)))
    ensures Opcode(i) == OP_IMM ==> (InScope(i) <==> (i / 0x1000) % 8 == 0)
  {
    hide Field, ImmediateI, ImmediateS, ImmediateB, Wrap, Pow2, Bitwise, Signed;
    FieldsInNumbers(i);
    if Opcode(i) != OP_IMM && !InScope(i) {
      var m := Machine(0, seq(32, _ => 0), map[]);
      assert ExecuteInstruction(i, m) == Raised(Unsupported(i));
    }
  }
}

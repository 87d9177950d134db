/** Operations, their tables (ops.h, ops.c) and the words that parse_line makes of them (parser.c:433-544), against the
    base instruction formats of sections 2.2 and 2.3 of The RISC-V Instruction Set Manual, Volume I. */
module Encoder {
  import opened Options

  datatype Format = RType | IType | SType | BType | UType | JType

  datatype Op =
    | ADD | SUB | XOR | OR | AND | SLL | SRL | SRA | SLT | SLTU
    | ADDI | XORI | ORI | ANDI | SLLI | SRLI | SRAI | SLTI | SLTIU
    | LB | LH | LW | LBU | LHU
    | SB | SH | SW
    | BEQ | BNE | BLT | BGE | BLTU | BGEU
    | JALR
    | ECALL | EBREAK
    | JAL
    | LUI | AUIPC

  /** formats, ops.c:5-54. */
  function FormatOf(op: Op): Format {
    match op
    case ADD | SUB | XOR | OR | AND | SLL | SRL | SRA | SLT | SLTU => RType
    case ADDI | XORI | ORI | ANDI | SLLI | SRLI | SRAI | SLTI | SLTIU => IType
    case LB | LH | LW | LBU | LHU => IType
    case SB | SH | SW => SType
    case BEQ | BNE | BLT | BGE | BLTU | BGEU => BType
    case JALR | ECALL | EBREAK => IType
    case JAL => JType
    case LUI | AUIPC => UType
  }

  /** opcodes, ops.c:57-106. */
  function Opcode(op: Op): bv32 {
    match op
    case ADD | SUB | XOR | OR | AND | SLL | SRL | SRA | SLT | SLTU => 0x33
    case ADDI | XORI | ORI | ANDI | SLLI | SRLI | SRAI | SLTI | SLTIU => 0x13
    case LB | LH | LW | LBU | LHU => 0x03
    case SB | SH | SW => 0x23
    case BEQ | BNE | BLT | BGE | BLTU | BGEU => 0x63
    case JALR => 0x67
    case ECALL | EBREAK => 0x73
    case JAL => 0x6F
    case LUI => 0x37
    case AUIPC => 0x17
  }

  /** func3s, ops.c:110-157; not used for U- and J-type. */
  function Func3(op: Op): bv32 {
    match op
    case ADD | SUB | ADDI | LB | SB | BEQ | JALR | ECALL | EBREAK => 0
    case SLL | SLLI | LH | SH | BNE => 1
    case SLT | SLTI | LW | SW => 2
    case SLTU | SLTIU => 3
    case XOR | XORI | LBU | BLT => 4
    case SRL | SRA | SRLI | SRAI | LHU | BGE => 5
    case OR | ORI | BLTU => 6
    case AND | ANDI | BGEU => 7
    case JAL | LUI | AUIPC => 0
  }

  /** func7s, ops.c:160-171; only for R-type. */
  function Func7(op: Op): bv32 {
    if op == SUB || op == SRA then 0x20 else 0
  }

  /** An operation with its operands as parse_line has read them: registers, and immediates or offsets as uint32_t. */
  datatype Instr = Instr(op: Op, rd: bv32, rs1: bv32, rs2: bv32, imm: bv32)

  /** The value, seen as signed, lies in [-half, half). */
  predicate SignedBelow(x: bv32, half: bv32) {
    x < half || !x < half
  }

  predicate IsEven(x: bv32) {
    x & 1 == 0
  }

  predicate IsShift(op: Op) {
    op == SLLI || op == SRLI || op == SRAI
  }

  /** What the parser accepts for each operation (parser.c:204-255, 435-538), plus even branch and jump offsets that
      fit, which the source leaves to its callers; operands an operation does not have are zero. */
  predicate Valid(i: Instr) {
    && i.rd < 32 && i.rs1 < 32 && i.rs2 < 32
    && match FormatOf(i.op)
       case RType => i.imm == 0
       case IType =>
         && i.rs2 == 0
         && (if i.op == ECALL || i.op == EBREAK then i.rd == 0 && i.rs1 == 0 && i.imm == (if i.op == ECALL then 0 else 1)
             else if IsShift(i.op) then i.imm <= 31
             else SignedBelow(i.imm, 0x800))
       case SType => i.rd == 0 && SignedBelow(i.imm, 0x800)
       case BType => i.rd == 0 && SignedBelow(i.imm, 0x1000) && IsEven(i.imm)
       case UType => i.rs1 == 0 && i.rs2 == 0 && i.imm < 0x100000
       case JType => i.rs1 == 0 && i.rs2 == 0 && SignedBelow(i.imm, 0x100000) && IsEven(i.imm)
  }

  // ---------- encoding ----------

  /** set_btype_imm, parser.c:339-341. */
  function SetBImm(w: bv32, i: bv32): bv32 {
    w | ((i & 0x1000) << 19) | ((i & 0x7e0) << 20) | ((i & 0x1e) << 7) | ((i & 0x800) >> 4)
  }

  /** set_jtype_imm, parser.c:343-345. */
  function SetJImm(w: bv32, i: bv32): bv32 {
    w | ((i & 0x100000) << 11) | (i & 0xff000) | ((i & 0x7fe) << 20) | ((i & 0x800) << 9)
  }

  function RWord(opc: bv32, rd: bv32, f3: bv32, rs1: bv32, rs2: bv32, f7: bv32): bv32 {
    opc | (rd << 7) | (rs1 << 15) | (rs2 << 20) | (f3 << 12) | (f7 << 25)
  }

  function IWord(opc: bv32, rd: bv32, f3: bv32, rs1: bv32, imm: bv32): bv32 {
    opc | (rd << 7) | (rs1 << 15) | (imm << 20) | (f3 << 12)
  }

  function SWord(opc: bv32, f3: bv32, rs1: bv32, rs2: bv32, imm: bv32): bv32 {
    opc | (rs1 << 15) | (rs2 << 20) | ((imm & 0xfe0) << 20) | ((imm & 0x1f) << 7) | (f3 << 12)
  }

  /** A branch before its label is known. */
  function BBase(opc: bv32, f3: bv32, rs1: bv32, rs2: bv32): bv32 {
    opc | (rs1 << 15) | (rs2 << 20) | (f3 << 12)
  }

  /** A jump before its label is known. */
  function JBase(opc: bv32, rd: bv32): bv32 {
    opc | (rd << 7)
  }

  function UWord(opc: bv32, rd: bv32, imm: bv32): bv32 {
    opc | (rd << 7) | (imm << 12)
  }

  /** The word of an operation whose label, if it has one, is known (parser.c:433-538). */
  function Encode(i: Instr): bv32 {
    match FormatOf(i.op)
    case RType => RWord(Opcode(i.op), i.rd, Func3(i.op), i.rs1, i.rs2, Func7(i.op))
    case IType => IWord(if i.op == SRAI then Opcode(i.op) | (0x20 << 25) else Opcode(i.op),
                        i.rd, Func3(i.op), i.rs1, i.imm)
    case SType => SWord(Opcode(i.op), Func3(i.op), i.rs1, i.rs2, i.imm)
    case BType => SetBImm(BBase(Opcode(i.op), Func3(i.op), i.rs1, i.rs2), i.imm)
    case UType => UWord(Opcode(i.op), i.rd, i.imm)
    case JType => SetJImm(JBase(Opcode(i.op), i.rd), i.imm)
  }

  // ---------- decoding, by the manual ----------

  function OpcodeField(w: bv32): bv32 { w & 0x7f }
  function RdField(w: bv32): bv32 { (w >> 7) & 0x1f }
  function F3Field(w: bv32): bv32 { (w >> 12) & 0x7 }
  function Rs1Field(w: bv32): bv32 { (w >> 15) & 0x1f }
  function Rs2Field(w: bv32): bv32 { (w >> 20) & 0x1f }
  function F7Field(w: bv32): bv32 { w >> 25 }

  function SignExtend(x: bv32, half: bv32): bv32 {
    if x & half != 0 then x | !(half + half - 1) else x
  }

  function IImm(w: bv32): bv32 {
    SignExtend(w >> 20, 0x800)
  }

  function SImm(w: bv32): bv32 {
    SignExtend(((w >> 25) << 5) | ((w >> 7) & 0x1f), 0x800)
  }

  function BUnsigned(w: bv32): bv32 {
    ((w >> 31) << 12) | (((w >> 7) & 1) << 11) | (((w >> 25) & 0x3f) << 5) | (((w >> 8) & 0xf) << 1)
  }

  function BImm(w: bv32): bv32 {
    SignExtend(BUnsigned(w), 0x1000)
  }

  function UImm(w: bv32): bv32 {
    w >> 12
  }

  function JUnsigned(w: bv32): bv32 {
    ((w >> 31) << 20) | (((w >> 12) & 0xff) << 12) | (((w >> 20) & 1) << 11) | (((w >> 21) & 0x3ff) << 1)
  }

  function JImm(w: bv32): bv32 {
    SignExtend(JUnsigned(w), 0x100000)
  }

  function RegisterOp(f3: bv32, f7: bv32): Option<Op> {
    if f3 == 0 then (if f7 == 0 then Some(ADD) else if f7 == 0x20 then Some(SUB) else None)
    else if f3 == 5 then (if f7 == 0 then Some(SRL) else if f7 == 0x20 then Some(SRA) else None)
    else if f7 != 0 then None
    else if f3 == 1 then Some(SLL) else if f3 == 2 then Some(SLT) else if f3 == 3 then Some(SLTU)
    else if f3 == 4 then Some(XOR) else if f3 == 6 then Some(OR) else if f3 == 7 then Some(AND) else None
  }

  function ImmediateOp(f3: bv32, f7: bv32): Option<Op> {
    if f3 == 0 then Some(ADDI)
    else if f3 == 1 then (if f7 == 0 then Some(SLLI) else None)
    else if f3 == 2 then Some(SLTI) else if f3 == 3 then Some(SLTIU) else if f3 == 4 then Some(XORI)
    else if f3 == 5 then (if f7 == 0 then Some(SRLI) else if f7 == 0x20 then Some(SRAI) else None)
    else if f3 == 6 then Some(ORI) else if f3 == 7 then Some(ANDI) else None
  }

  function LoadOp(f3: bv32): Option<Op> {
    if f3 == 0 then Some(LB) else if f3 == 1 then Some(LH) else if f3 == 2 then Some(LW)
    else if f3 == 4 then Some(LBU) else if f3 == 5 then Some(LHU) else None
  }

  function StoreOp(f3: bv32): Option<Op> {
    if f3 == 0 then Some(SB) else if f3 == 1 then Some(SH) else if f3 == 2 then Some(SW) else None
  }

  function BranchOp(f3: bv32): Option<Op> {
    if f3 == 0 then Some(BEQ) else if f3 == 1 then Some(BNE) else if f3 == 4 then Some(BLT)
    else if f3 == 5 then Some(BGE) else if f3 == 6 then Some(BLTU) else if f3 == 7 then Some(BGEU) else None
  }

  function SystemOp(f3: bv32, imm: bv32): Option<Op> {
    if f3 != 0 then None else if imm == 0 then Some(ECALL) else if imm == 1 then Some(EBREAK) else None
  }

  /** The operation that the opcode and function fields name; f7 are the bits 31 to 25. */
  function DecodeOp(opc: bv32, f3: bv32, f7: bv32, imm: bv32): Option<Op> {
    if opc == 0x33 then RegisterOp(f3, f7)
    else if opc == 0x13 then ImmediateOp(f3, f7)
    else if opc == 0x03 then LoadOp(f3)
    else if opc == 0x23 then StoreOp(f3)
    else if opc == 0x63 then BranchOp(f3)
    else if opc == 0x67 then (if f3 == 0 then Some(JALR) else None)
    else if opc == 0x73 then SystemOp(f3, imm)
    else if opc == 0x6F then Some(JAL)
    else if opc == 0x37 then Some(LUI)
    else if opc == 0x17 then Some(AUIPC)
    else None
  }

  /** The format that goes with an opcode field. */
  function FormatOfField(opc: bv32): Option<Format> {
    if opc == 0x33 then Some(RType)
    else if opc == 0x13 || opc == 0x03 || opc == 0x67 || opc == 0x73 then Some(IType)
    else if opc == 0x23 then Some(SType)
    else if opc == 0x63 then Some(BType)
    else if opc == 0x37 || opc == 0x17 then Some(UType)
    else if opc == 0x6F then Some(JType)
    else None
  }

  function Decode(w: bv32): Option<Instr> {
    match (DecodeOp(OpcodeField(w), F3Field(w), F7Field(w), IImm(w)), FormatOfField(OpcodeField(w)))
    case (Some(op), Some(format)) => Some(Operands(op, format, w))
    case _ => None
  }

  function Operands(op: Op, format: Format, w: bv32): Instr {
    match format
    case RType => Instr(op, RdField(w), Rs1Field(w), Rs2Field(w), 0)
    case IType => Instr(op, RdField(w), Rs1Field(w), 0, if IsShift(op) then Rs2Field(w) else IImm(w))
    case SType => Instr(op, 0, Rs1Field(w), Rs2Field(w), SImm(w))
    case BType => Instr(op, 0, Rs1Field(w), Rs2Field(w), BImm(w))
    case UType => Instr(op, RdField(w), 0, 0, UImm(w))
    case JType => Instr(op, RdField(w), 0, 0, JImm(w))
  }

  // ---------- the fields of each format ----------

  lemma RFields(opc: bv32, rd: bv32, f3: bv32, rs1: bv32, rs2: bv32, f7: bv32)
    requires opc < 128 && rd < 32 && f3 < 8 && rs1 < 32 && rs2 < 32 && f7 < 128
    ensures var w := RWord(opc, rd, f3, rs1, rs2, f7);
      && OpcodeField(w) == opc && RdField(w) == rd && F3Field(w) == f3 && Rs1Field(w) == rs1 && Rs2Field(w) == rs2
      && F7Field(w) == f7
  {}

  lemma IRaw(opc: bv32, rd: bv32, f3: bv32, rs1: bv32, imm: bv32)
    requires opc < 128 && rd < 32 && f3 < 8 && rs1 < 32
    ensures var w := IWord(opc, rd, f3, rs1, imm);
      && OpcodeField(w) == opc && RdField(w) == rd && F3Field(w) == f3 && Rs1Field(w) == rs1
      && w >> 20 == imm & 0xfff
  {}

  lemma Signed12(imm: bv32)
    requires SignedBelow(imm, 0x800)
    ensures SignExtend(imm & 0xfff, 0x800) == imm
  {
    hide SignExtend;
    if imm < 0x800 { NonNegative12(imm); } else { Negative12(imm); }
  }

  lemma NonNegative12(imm: bv32)
    requires imm < 0x800
    ensures SignExtend(imm & 0xfff, 0x800) == imm
  {}

  lemma Negative12(imm: bv32)
    requires !imm < 0x800
    ensures SignExtend(imm & 0xfff, 0x800) == imm
  {}

  lemma IFields(opc: bv32, rd: bv32, f3: bv32, rs1: bv32, imm: bv32)
    requires opc < 128 && rd < 32 && f3 < 8 && rs1 < 32 && SignedBelow(imm, 0x800)
    ensures var w := IWord(opc, rd, f3, rs1, imm);
      OpcodeField(w) == opc && RdField(w) == rd && F3Field(w) == f3 && Rs1Field(w) == rs1 && IImm(w) == imm
  {
    hide IWord, OpcodeField, RdField, F3Field, Rs1Field, SignExtend, SignedBelow;
    IRaw(opc, rd, f3, rs1, imm);
    Signed12(imm);
  }

  lemma ShiftFields(opc: bv32, rd: bv32, f3: bv32, rs1: bv32, imm: bv32, f7: bv32)
    requires opc < 128 && rd < 32 && f3 < 8 && rs1 < 32 && imm <= 31 && f7 < 128
    ensures var w := IWord(opc | (f7 << 25), rd, f3, rs1, imm);
      && OpcodeField(w) == opc && RdField(w) == rd && F3Field(w) == f3 && Rs1Field(w) == rs1
      && Rs2Field(w) == imm && F7Field(w) == f7
  {}

  lemma SRaw(opc: bv32, f3: bv32, rs1: bv32, rs2: bv32, imm: bv32)
    requires opc < 128 && f3 < 8 && rs1 < 32 && rs2 < 32
    ensures var w := SWord(opc, f3, rs1, rs2, imm);
      && OpcodeField(w) == opc && F3Field(w) == f3 && Rs1Field(w) == rs1 && Rs2Field(w) == rs2
      && ((w >> 25) << 5) | ((w >> 7) & 0x1f) == imm & 0xfff
  {}

  lemma SFields(opc: bv32, f3: bv32, rs1: bv32, rs2: bv32, imm: bv32)
    requires opc < 128 && f3 < 8 && rs1 < 32 && rs2 < 32 && SignedBelow(imm, 0x800)
    ensures var w := SWord(opc, f3, rs1, rs2, imm);
      OpcodeField(w) == opc && F3Field(w) == f3 && Rs1Field(w) == rs1 && Rs2Field(w) == rs2 && SImm(w) == imm
  {
    hide SWord, OpcodeField, F3Field, Rs1Field, Rs2Field, SignExtend, SignedBelow;
    SRaw(opc, f3, rs1, rs2, imm);
    Signed12(imm);
  }

  /** Whatever the immediate is, the other fields of a branch stay what they were. */
  lemma BRaw(opc: bv32, f3: bv32, rs1: bv32, rs2: bv32, imm: bv32)
    requires opc < 128 && f3 < 8 && rs1 < 32 && rs2 < 32
    ensures var w := SetBImm(BBase(opc, f3, rs1, rs2), imm);
      && OpcodeField(w) == opc && F3Field(w) == f3 && Rs1Field(w) == rs1 && Rs2Field(w) == rs2
      && BUnsigned(w) == imm & 0x1ffe
  {}

  lemma BNonNegative(imm: bv32)
    requires imm < 0x1000 && imm & 1 == 0
    ensures SignExtend(imm & 0x1ffe, 0x1000) == imm
  {}

  lemma BNegative(imm: bv32)
    requires !imm < 0x1000 && imm & 1 == 0
    ensures SignExtend(imm & 0x1ffe, 0x1000) == imm
  {}

  lemma BFields(opc: bv32, f3: bv32, rs1: bv32, rs2: bv32, imm: bv32)
    requires opc < 128 && f3 < 8 && rs1 < 32 && rs2 < 32 && SignedBelow(imm, 0x1000) && imm & 1 == 0
    ensures var w := SetBImm(BBase(opc, f3, rs1, rs2), imm);
      OpcodeField(w) == opc && F3Field(w) == f3 && Rs1Field(w) == rs1 && Rs2Field(w) == rs2 && BImm(w) == imm
  {
    hide SetBImm, BBase, OpcodeField, F3Field, Rs1Field, Rs2Field, SignExtend, BUnsigned;
    BRaw(opc, f3, rs1, rs2, imm);
    if imm < 0x1000 { BNonNegative(imm); } else { BNegative(imm); }
  }

  lemma UFields(opc: bv32, rd: bv32, imm: bv32)
    requires opc < 128 && rd < 32 && imm < 0x100000
    ensures var w := UWord(opc, rd, imm);
      OpcodeField(w) == opc && RdField(w) == rd && UImm(w) == imm
  {}

  lemma JRaw(opc: bv32, rd: bv32, imm: bv32)
    requires opc < 128 && rd < 32
    ensures var w := SetJImm(JBase(opc, rd), imm);
      OpcodeField(w) == opc && RdField(w) == rd && JUnsigned(w) == imm & 0x1ffffe
  {}

  lemma JNonNegative(imm: bv32)
    requires imm < 0x100000 && imm & 1 == 0
    ensures SignExtend(imm & 0x1ffffe, 0x100000) == imm
  {}

  lemma JNegative(imm: bv32)
    requires !imm < 0x100000 && imm & 1 == 0
    ensures SignExtend(imm & 0x1ffffe, 0x100000) == imm
  {}

  lemma JFields(opc: bv32, rd: bv32, imm: bv32)
    requires opc < 128 && rd < 32 && SignedBelow(imm, 0x100000) && imm & 1 == 0
    ensures var w := SetJImm(JBase(opc, rd), imm);
      OpcodeField(w) == opc && RdField(w) == rd && JImm(w) == imm
  {
    hide SetJImm, JBase, OpcodeField, RdField, SignExtend, JUnsigned;
    JRaw(opc, rd, imm);
    if imm < 0x100000 { JNonNegative(imm); } else { JNegative(imm); }
  }

  // ---------- the round trip ----------

  lemma TablesInRange(op: Op)
    ensures Opcode(op) < 128 && Func3(op) < 8 && Func7(op) < 128
  {}

  /** The opcode and function fields of the tables name their operation, whatever stands where it has no such field. */
  lemma NamesOp(op: Op, f3: bv32, f7: bv32, imm: bv32)
    requires FormatOf(op) == UType || FormatOf(op) == JType || f3 == Func3(op)
    requires FormatOf(op) == RType ==> f7 == Func7(op)
    requires IsShift(op) ==> f7 == if op == SRAI then 0x20 else 0
    requires op == ECALL ==> imm == 0
    requires op == EBREAK ==> imm == 1
    ensures DecodeOp(Opcode(op), f3, f7, imm) == Some(op) && FormatOfField(Opcode(op)) == Some(FormatOf(op))
  {
    FormatFollowsOpcode(op);
    match FormatOf(op)
    case RType => NamesRegisterOp(op);
    case IType => NamesImmediateOp(op, f7, imm);
    case _ =>
  }

  /** The table of formats agrees with the opcodes. */
  lemma FormatFollowsOpcode(op: Op)
    ensures FormatOfField(Opcode(op)) == Some(FormatOf(op))
  {}

  lemma NamesRegisterOp(op: Op)
    requires FormatOf(op) == RType
    ensures forall imm :: DecodeOp(Opcode(op), Func3(op), Func7(op), imm) == Some(op)
  {}

  lemma NamesImmediateOp(op: Op, f7: bv32, imm: bv32)
    requires FormatOf(op) == IType
    requires IsShift(op) ==> f7 == if op == SRAI then 0x20 else 0
    requires op == ECALL ==> imm == 0
    requires op == EBREAK ==> imm == 1
    ensures DecodeOp(Opcode(op), Func3(op), f7, imm) == Some(op)
  {}

  lemma RRoundTrip(i: Instr)
    requires Valid(i) && FormatOf(i.op) == RType
    ensures Decode(Encode(i)) == Some(i)
  {
    hide RWord, OpcodeField, RdField, F3Field, Rs1Field, Rs2Field, F7Field, IImm, DecodeOp, FormatOfField, Opcode, Func3, Func7;
    TablesInRange(i.op);
    RFields(Opcode(i.op), i.rd, Func3(i.op), i.rs1, i.rs2, Func7(i.op));
    NamesOp(i.op, Func3(i.op), Func7(i.op), IImm(Encode(i)));
  }

  lemma SRoundTrip(i: Instr)
    requires Valid(i) && FormatOf(i.op) == SType
    ensures Decode(Encode(i)) == Some(i)
  {
    hide SWord, OpcodeField, RdField, F3Field, Rs1Field, Rs2Field, F7Field, IImm, SImm, DecodeOp, FormatOfField, Opcode, Func3;
    TablesInRange(i.op);
    SFields(Opcode(i.op), Func3(i.op), i.rs1, i.rs2, i.imm);
    NamesOp(i.op, Func3(i.op), F7Field(Encode(i)), IImm(Encode(i)));
  }

  lemma BRoundTrip(i: Instr)
    requires Valid(i) && FormatOf(i.op) == BType
    ensures Decode(Encode(i)) == Some(i)
  {
    hide SetBImm, BBase, OpcodeField, RdField, F3Field, Rs1Field, Rs2Field, F7Field, IImm, BImm, DecodeOp, FormatOfField, Opcode, Func3;
    TablesInRange(i.op);
    BFields(Opcode(i.op), Func3(i.op), i.rs1, i.rs2, i.imm);
    NamesOp(i.op, Func3(i.op), F7Field(Encode(i)), IImm(Encode(i)));
  }

  lemma URoundTrip(i: Instr)
    requires Valid(i) && FormatOf(i.op) == UType
    ensures Decode(Encode(i)) == Some(i)
  {
    hide UWord, OpcodeField, RdField, F3Field, F7Field, IImm, UImm, DecodeOp, FormatOfField, Opcode, Func3;
    TablesInRange(i.op);
    UFields(Opcode(i.op), i.rd, i.imm);
    NamesOp(i.op, F3Field(Encode(i)), F7Field(Encode(i)), IImm(Encode(i)));
  }

  lemma JRoundTrip(i: Instr)
    requires Valid(i) && FormatOf(i.op) == JType
    ensures Decode(Encode(i)) == Some(i)
  {
    hide SetJImm, JBase, OpcodeField, RdField, F3Field, F7Field, IImm, JImm, DecodeOp, FormatOfField, Opcode, Func3;
    TablesInRange(i.op);
    JFields(Opcode(i.op), i.rd, i.imm);
    NamesOp(i.op, F3Field(Encode(i)), F7Field(Encode(i)), IImm(Encode(i)));
  }

  /** Where the shift's function field goes, bits 31 to 25. */
  lemma ShiftRoundTrip(i: Instr)
    requires Valid(i) && IsShift(i.op)
    ensures Decode(Encode(i)) == Some(i)
  {
    hide IWord, OpcodeField, RdField, F3Field, Rs1Field, Rs2Field, F7Field, IImm, DecodeOp, FormatOfField, Func3;
    TablesInRange(i.op);
    var f7 := if i.op == SRAI then 0x20 else 0;
    assert Opcode(i.op) | (f7 << 25) == if i.op == SRAI then Opcode(i.op) | (0x20 << 25) else Opcode(i.op);
    ShiftFields(Opcode(i.op), i.rd, Func3(i.op), i.rs1, i.imm, f7);
    NamesOp(i.op, Func3(i.op), f7, IImm(Encode(i)));
  }

  lemma IRoundTrip(i: Instr)
    requires Valid(i) && FormatOf(i.op) == IType && !IsShift(i.op)
    ensures Decode(Encode(i)) == Some(i)
  {
    hide IWord, OpcodeField, RdField, F3Field, Rs1Field, Rs2Field, F7Field, IImm, DecodeOp, FormatOfField, Opcode, Func3;
    TablesInRange(i.op);
    assert SignedBelow(i.imm, 0x800);
    IFields(Opcode(i.op), i.rd, Func3(i.op), i.rs1, i.imm);
    NamesOp(i.op, Func3(i.op), F7Field(Encode(i)), i.imm);
  }

  /** Decoding the word of an operation gives back the operation, its registers and its sign-extended immediate. */
  lemma RoundTrip(i: Instr)
    requires Valid(i)
    ensures Decode(Encode(i)) == Some(i)
  {
    hide Valid, Encode, Decode;
    match FormatOf(i.op)
    case RType => RRoundTrip(i);
    case IType => if IsShift(i.op) { ShiftRoundTrip(i); } else { IRoundTrip(i); }
    case SType => SRoundTrip(i);
    case BType => BRoundTrip(i);
    case UType => URoundTrip(i);
    case JType => JRoundTrip(i);
  }

  /** No two distinct instructions share a word. */
  lemma EncodeIsInjective(i: Instr, j: Instr)
    requires Valid(i) && Valid(j)
    ensures Encode(i) == Encode(j) <==> i == j
  {
    hide Valid, Encode, Decode;
    RoundTrip(i);
    RoundTrip(j);
  }

  // ---------- offsets that do not fit ----------

  predicate TakesLabel(op: Op) {
    FormatOf(op) == BType || FormatOf(op) == JType
  }

  /** The bits of an offset that a branch or a jump has room for. */
  function OffsetBits(op: Op): bv32 {
    if FormatOf(op) == BType then 0x1ffe else 0x1ffffe
  }

  /** None of the offset's bits has a place in the word. */
  predicate LeavesNothing(op: Op, x: bv32) {
    x & OffsetBits(op) == 0
  }

  /** Half the span that these bits reach. */
  function Span(op: Op): bv32 {
    if FormatOf(op) == BType then 0x1000 else 0x100000
  }

  /** What is left of an offset in the word. */
  function Truncated(op: Op, x: bv32): bv32 {
    SignExtend(x & OffsetBits(op), Span(op))
  }

  /** The word of a branch or jump, whatever its offset: the operation comes back with what is left of the offset. */
  lemma OffsetRoundTrip(i: Instr, x: bv32)
    requires Valid(i) && TakesLabel(i.op) && i.imm == 0
    ensures Decode(Encode(i.(imm := x))) == Some(i.(imm := Truncated(i.op, x)))
  {
    hide SetBImm, SetJImm, BBase, JBase, OpcodeField, RdField, F3Field, Rs1Field, Rs2Field, F7Field, IImm, BUnsigned,
         JUnsigned, SignExtend, DecodeOp, FormatOfField, Opcode, Func3;
    var w := Encode(i.(imm := x));
    TablesInRange(i.op);
    if FormatOf(i.op) == BType {
      BRaw(Opcode(i.op), Func3(i.op), i.rs1, i.rs2, x);
      NamesOp(i.op, Func3(i.op), F7Field(w), IImm(w));
    } else {
      JRaw(Opcode(i.op), i.rd, x);
      NamesOp(i.op, F3Field(w), F7Field(w), IImm(w));
    }
  }

  lemma BranchBits(w: bv32, x: bv32)
    requires x & 0x1ffe == 0
    ensures SetBImm(w, x) == SetBImm(w, 0)
  {}

  lemma JumpBits(w: bv32, x: bv32)
    requires x & 0x1ffffe == 0
    ensures SetJImm(w, x) == SetJImm(w, 0)
  {}

  lemma NoBits()
    ensures (0 as bv32) & 0x1ffe == 0 && (0 as bv32) & 0x1ffffe == 0
  {}

  /** Leaving the offset out makes no difference exactly when the word has no place for any of its bits. */
  lemma SameWordExactly(i: Instr, x: bv32)
    requires Valid(i) && TakesLabel(i.op) && i.imm == 0
    ensures Encode(i.(imm := x)) == Encode(i) <==> LeavesNothing(i.op, x)
  {
    hide SetBImm, SetJImm, BBase, JBase, OpcodeField, RdField, F3Field, Rs1Field, Rs2Field, BUnsigned, JUnsigned, Opcode,
         Func3;
    TablesInRange(i.op);
    NoBits();
    if FormatOf(i.op) == BType {
      BRaw(Opcode(i.op), Func3(i.op), i.rs1, i.rs2, x);
      BRaw(Opcode(i.op), Func3(i.op), i.rs1, i.rs2, 0);
      if x & 0x1ffe == 0 { BranchBits(BBase(Opcode(i.op), Func3(i.op), i.rs1, i.rs2), x); }
    } else {
      JRaw(Opcode(i.op), i.rd, x);
      JRaw(Opcode(i.op), i.rd, 0);
      if x & 0x1ffffe == 0 { JumpBits(JBase(Opcode(i.op), i.rd), x); }
    }
  }

  lemma ExtendedBranch(x: bv32)
    ensures IsEven(SignExtend(x & 0x1ffe, 0x1000)) && SignedBelow(SignExtend(x & 0x1ffe, 0x1000), 0x1000)
  {}

  lemma ExtendedJump(x: bv32)
    ensures IsEven(SignExtend(x & 0x1ffffe, 0x100000)) && SignedBelow(SignExtend(x & 0x1ffffe, 0x100000), 0x100000)
  {}

  lemma KeptBranch(x: bv32)
    requires IsEven(x) && SignedBelow(x, 0x1000)
    ensures SignExtend(x & 0x1ffe, 0x1000) == x
  {
    hide SignExtend;
    if x < 0x1000 { BNonNegative(x); } else { BNegative(x); }
  }

  lemma KeptJump(x: bv32)
    requires IsEven(x) && SignedBelow(x, 0x100000)
    ensures SignExtend(x & 0x1ffffe, 0x100000) == x
  {
    hide SignExtend;
    if x < 0x100000 { JNonNegative(x); } else { JNegative(x); }
  }

  lemma KeptBranchExactly(x: bv32)
    ensures SignExtend(x & 0x1ffe, 0x1000) == x <==> IsEven(x) && SignedBelow(x, 0x1000)
  {
    hide SignExtend, IsEven, SignedBelow;
    ExtendedBranch(x);
    if IsEven(x) && SignedBelow(x, 0x1000) { KeptBranch(x); }
  }

  lemma KeptJumpExactly(x: bv32)
    ensures SignExtend(x & 0x1ffffe, 0x100000) == x <==> IsEven(x) && SignedBelow(x, 0x100000)
  {
    hide SignExtend, IsEven, SignedBelow;
    ExtendedJump(x);
    if IsEven(x) && SignedBelow(x, 0x100000) { KeptJump(x); }
  }

  /** An offset survives exactly when it is even and in reach. */
  lemma TruncatedExactly(op: Op, x: bv32)
    requires TakesLabel(op)
    ensures Truncated(op, x) == x <==> IsEven(x) && SignedBelow(x, Span(op))
  {
    hide SignExtend, IsEven, SignedBelow;
    KeptBranchExactly(x);
    KeptJumpExactly(x);
    assert Truncated(op, x) == if FormatOf(op) == BType then SignExtend(x & 0x1ffe, 0x1000) else SignExtend(x & 0x1ffffe, 0x100000);
  }

  lemma TruncatedZero(op: Op, x: bv32)
    ensures LeavesNothing(op, x) ==> Truncated(op, x) == 0
    ensures x == 0 ==> LeavesNothing(op, x)
  {}

  // ---------- bytes: an instruction is buffered in the machine's order, which must be little-endian ----------

  type Quad = s: seq<bv8> | |s| == 4 witness [0, 0, 0, 0]

  function Bytes(w: bv32): Quad {
    [(w & 0xff) as bv8, ((w >> 8) & 0xff) as bv8, ((w >> 16) & 0xff) as bv8, (w >> 24) as bv8]
  }

  function FromBytes(b: Quad): bv32 {
    (b[0] as bv32) | ((b[1] as bv32) << 8) | ((b[2] as bv32) << 16) | ((b[3] as bv32) << 24)
  }

  lemma WordOfBytes(w: bv32)
    ensures FromBytes(Bytes(w)) == w
  {}

  /** The byte order in numbers, whatever FromBytes does: byte k stands for 2^(8k), so the four bytes add up to the word. */
  lemma BytesAreLittleEndian(w: bv32)
    ensures var b := Bytes(w);
      w == (b[0] as bv32) + 0x100 * (b[1] as bv32) + 0x10000 * (b[2] as bv32) + 0x1000000 * (b[3] as bv32)
  {}

  /** The first byte of an operation carries its opcode; the others carry bits 8 to 31 in that order. */
  lemma FirstByteIsOpcode(i: Instr)
    requires Valid(i)
    ensures (Bytes(Encode(i))[0] as bv32) & 0x7f == Opcode(i.op)
  {
    hide Valid, Encode, Opcode, Bytes, OpcodeField;
    EncodedOpcode(i);
    FirstByte(Encode(i));
  }

  lemma FirstByte(w: bv32)
    ensures (Bytes(w)[0] as bv32) & 0x7f == OpcodeField(w)
  {}

  lemma EncodedOpcode(i: Instr)
    requires Valid(i)
    ensures OpcodeField(Encode(i)) == Opcode(i.op)
  {
    hide Valid, Encode, OpcodeField, F3Field, F7Field, IImm, DecodeOp, FormatOfField, Operands;
    RoundTrip(i);
    var w := Encode(i);
    OpHasFields(DecodeOp(OpcodeField(w), F3Field(w), F7Field(w), IImm(w)).value, OpcodeField(w), F3Field(w), F7Field(w),
                IImm(w));
    SameOp(w);
  }

  lemma SameOp(w: bv32)
    requires Decode(w).Some?
    ensures Decode(w).value.op == DecodeOp(OpcodeField(w), F3Field(w), F7Field(w), IImm(w)).value
  {
    hide OpcodeField, F3Field, F7Field, IImm, DecodeOp, FormatOfField, Operands;
    OperandsKeepOp(DecodeOp(OpcodeField(w), F3Field(w), F7Field(w), IImm(w)).value, w);
  }

  lemma OperandsKeepOp(op: Op, w: bv32)
    ensures forall format :: Operands(op, format, w).op == op
  {
    hide RdField, Rs1Field, Rs2Field, IImm, SImm, BImm, UImm, JImm, IsShift;
  }

  lemma KnownBytes()
    ensures Bytes(Encode(Instr(ADDI, 1, 0, 0, 5))) == [0x93, 0x00, 0x50, 0x00]
  {
    hide Encode;
    KnownImmediateWords();
    assert Bytes(0x00500093) == [0x93, 0x00, 0x50, 0x00];
  }

  // ---------- programs ----------

  function Assembled(p: seq<Instr>): (r: seq<bv8>)
    ensures |r| == 4 * |p|
  {
    if p == [] then [] else Bytes(Encode(p[0])) + Assembled(p[1..])
  }

  /** The instructions of an image: none when a word is not an instruction or bytes are left over. */
  function Disassembled(b: seq<bv8>): Option<seq<Instr>> {
    if b == [] then Some([])
    else if |b| < 4 then None
    else match (Decode(FromBytes(b[..4])), Disassembled(b[4..]))
      case (Some(i), Some(rest)) => Some([i] + rest)
      case _ => None
  }

  /** Every finite list of operations comes back from its image. */
  lemma {:induction false} ProgramRoundTrip(p: seq<Instr>)
    requires forall k :: 0 <= k < |p| ==> Valid(p[k])
    ensures Disassembled(Assembled(p)) == Some(p)
  {
    hide Valid, Encode, Decode, FromBytes, Bytes;
    if p != [] {
      var b := Assembled(p);
      assert b[..4] == Bytes(Encode(p[0])) && b[4..] == Assembled(p[1..]);
      WordOfBytes(Encode(p[0]));
      RoundTrip(p[0]);
      ProgramRoundTrip(p[1..]);
      assert p == [p[0]] + p[1..];
    }
  }

  // ---------- the other way: from words to operations ----------

  lemma RWordOfFields(w: bv32)
    ensures RWord(OpcodeField(w), RdField(w), F3Field(w), Rs1Field(w), Rs2Field(w), F7Field(w)) == w
  {}

  lemma IWordOfFields(w: bv32)
    ensures IWord(OpcodeField(w), RdField(w), F3Field(w), Rs1Field(w), IImm(w)) == w
  {}

  lemma ShiftWordOfFields(w: bv32)
    ensures IWord(OpcodeField(w) | (F7Field(w) << 25), RdField(w), F3Field(w), Rs1Field(w), Rs2Field(w)) == w
  {}

  lemma SWordOfFields(w: bv32)
    ensures SWord(OpcodeField(w), F3Field(w), Rs1Field(w), Rs2Field(w), SImm(w)) == w
  {}

  lemma BWordOfFields(w: bv32)
    ensures SetBImm(BBase(OpcodeField(w), F3Field(w), Rs1Field(w), Rs2Field(w)), BImm(w)) == w
  {}

  lemma UWordOfFields(w: bv32)
    ensures UWord(OpcodeField(w), RdField(w), UImm(w)) == w
  {}

  lemma JWordOfFields(w: bv32)
    ensures SetJImm(JBase(OpcodeField(w), RdField(w)), JImm(w)) == w
  {
    hide SetJImm, JBase, OpcodeField, RdField, JUnsigned, SignExtend;
    JWordUnsigned(w);
    SignBitsAreIgnored(JBase(OpcodeField(w), RdField(w)), JUnsigned(w));
  }

  lemma JWordUnsigned(w: bv32)
    ensures SetJImm(JBase(OpcodeField(w), RdField(w)), JUnsigned(w)) == w
  {}

  lemma SignBitsAreIgnored(w: bv32, x: bv32)
    ensures SetJImm(w, SignExtend(x, 0x100000)) == SetJImm(w, x)
  {}

  lemma FieldsFit(w: bv32)
    ensures RdField(w) < 32 && Rs1Field(w) < 32 && Rs2Field(w) < 32 && UImm(w) < 0x100000
  {}

  lemma ImmediatesFit(w: bv32)
    ensures SignedBelow(IImm(w), 0x800) && SignedBelow(SImm(w), 0x800)
    ensures SignedBelow(BImm(w), 0x1000) && IsEven(BImm(w))
    ensures SignedBelow(JImm(w), 0x100000) && IsEven(JImm(w))
  {}

  predicate HasFields(op: Op, opc: bv32, f3: bv32, f7: bv32, imm: bv32) {
    && Opcode(op) == opc && FormatOfField(opc) == Some(FormatOf(op))
    && (FormatOf(op) == UType || FormatOf(op) == JType || Func3(op) == f3)
    && (FormatOf(op) == RType ==> Func7(op) == f7)
    && (IsShift(op) ==> f7 == if op == SRAI then 0x20 else 0)
    && (op == ECALL ==> imm == 0) && (op == EBREAK ==> imm == 1)
  }

  lemma RegisterHasFields(op: Op, f3: bv32, f7: bv32)
    requires RegisterOp(f3, f7) == Some(op)
    ensures FormatOf(op) == RType && Opcode(op) == 0x33 && Func3(op) == f3 && Func7(op) == f7
  {}

  lemma ImmediateHasFields(op: Op, f3: bv32, f7: bv32)
    requires ImmediateOp(f3, f7) == Some(op)
    ensures FormatOf(op) == IType && Opcode(op) == 0x13 && Func3(op) == f3
    ensures IsShift(op) ==> f7 == if op == SRAI then 0x20 else 0
  {}

  lemma LoadHasFields(op: Op, f3: bv32)
    requires LoadOp(f3) == Some(op)
    ensures FormatOf(op) == IType && Opcode(op) == 0x03 && Func3(op) == f3 && !IsShift(op)
  {}

  lemma StoreHasFields(op: Op, f3: bv32)
    requires StoreOp(f3) == Some(op)
    ensures FormatOf(op) == SType && Opcode(op) == 0x23 && Func3(op) == f3 && !IsShift(op)
  {}

  lemma BranchHasFields(op: Op, f3: bv32)
    requires BranchOp(f3) == Some(op)
    ensures FormatOf(op) == BType && Opcode(op) == 0x63 && Func3(op) == f3 && !IsShift(op)
  {}

  lemma SystemHasFields(op: Op, f3: bv32, imm: bv32)
    requires SystemOp(f3, imm) == Some(op)
    ensures FormatOf(op) == IType && Opcode(op) == 0x73 && Func3(op) == f3 && !IsShift(op)
    ensures (op == ECALL ==> imm == 0) && (op == EBREAK ==> imm == 1)
  {}

  lemma OtherHasFields()
    ensures FormatOf(JALR) == IType && Opcode(JALR) == 0x67 && Func3(JALR) == 0
    ensures FormatOf(JAL) == JType && Opcode(JAL) == 0x6F
    ensures FormatOf(LUI) == UType && Opcode(LUI) == 0x37
    ensures FormatOf(AUIPC) == UType && Opcode(AUIPC) == 0x17
  {}

  /** The tables have the fields from which an operation was named. */
  lemma OpHasFields(op: Op, opc: bv32, f3: bv32, f7: bv32, imm: bv32)
    requires DecodeOp(opc, f3, f7, imm) == Some(op)
    ensures HasFields(op, opc, f3, f7, imm)
  {
    hide RegisterOp, ImmediateOp, LoadOp, StoreOp, BranchOp, SystemOp, FormatOf, Opcode, Func3, Func7, FormatOfField;
    FormatFollowsOpcode(op);
    if opc == 0x33 {
      RegisterHasFields(op, f3, f7);
    } else if opc == 0x13 {
      ImmediateHasFields(op, f3, f7);
    } else if opc == 0x03 {
      LoadHasFields(op, f3);
    } else if opc == 0x23 {
      StoreHasFields(op, f3);
    } else if opc == 0x63 {
      BranchHasFields(op, f3);
    } else if opc == 0x73 {
      SystemHasFields(op, f3, imm);
    } else {
      OtherHasFields();
    }
    NoneIsSystem(op);
  }

  lemma NoneIsSystem(op: Op)
    ensures op == ECALL || op == EBREAK ==> Opcode(op) == 0x73
    ensures IsShift(op) ==> Opcode(op) == 0x13
  {}

  lemma RBack(op: Op, w: bv32)
    requires FormatOf(op) == RType && Opcode(op) == OpcodeField(w) && Func3(op) == F3Field(w) && Func7(op) == F7Field(w)
    ensures Encode(Operands(op, RType, w)) == w
  {
    hide RWord, OpcodeField, RdField, F3Field, Rs1Field, Rs2Field, F7Field, IImm, SImm, BImm, UImm, JImm, Opcode, Func3, Func7, FormatOf;
    RWordOfFields(w);
  }

  lemma IBack(op: Op, w: bv32)
    requires FormatOf(op) == IType && Opcode(op) == OpcodeField(w) && Func3(op) == F3Field(w)
    requires IsShift(op) ==> F7Field(w) == if op == SRAI then 0x20 else 0
    ensures Encode(Operands(op, IType, w)) == w
  {
    hide IWord, OpcodeField, RdField, F3Field, Rs1Field, Rs2Field, F7Field, IImm, SImm, BImm, UImm, JImm, Opcode, Func3, Func7, FormatOf;
    IWordOfFields(w);
    if IsShift(op) { ShiftWord(w, op == SRAI); } else { assert op != SRAI; }
  }

  lemma SBack(op: Op, w: bv32)
    requires FormatOf(op) == SType && Opcode(op) == OpcodeField(w) && Func3(op) == F3Field(w)
    ensures Encode(Operands(op, SType, w)) == w
  {
    hide SWord, OpcodeField, RdField, F3Field, Rs1Field, Rs2Field, F7Field, IImm, SImm, BImm, UImm, JImm, Opcode, Func3, Func7, FormatOf;
    SWordOfFields(w);
  }

  lemma BBack(op: Op, w: bv32)
    requires FormatOf(op) == BType && Opcode(op) == OpcodeField(w) && Func3(op) == F3Field(w)
    ensures Encode(Operands(op, BType, w)) == w
  {
    hide SetBImm, BBase, OpcodeField, RdField, F3Field, Rs1Field, Rs2Field, F7Field, IImm, SImm, BImm, UImm, JImm, Opcode, Func3, Func7, FormatOf;
    BWordOfFields(w);
  }

  lemma UBack(op: Op, w: bv32)
    requires FormatOf(op) == UType && Opcode(op) == OpcodeField(w)
    ensures Encode(Operands(op, UType, w)) == w
  {
    hide UWord, OpcodeField, RdField, F3Field, Rs1Field, Rs2Field, F7Field, IImm, SImm, BImm, UImm, JImm, Opcode, Func3, Func7, FormatOf;
    UWordOfFields(w);
  }

  lemma JBack(op: Op, w: bv32)
    requires FormatOf(op) == JType && Opcode(op) == OpcodeField(w)
    ensures Encode(Operands(op, JType, w)) == w
  {
    hide SetJImm, JBase, OpcodeField, RdField, F3Field, Rs1Field, Rs2Field, F7Field, IImm, SImm, BImm, UImm, JImm, Opcode, Func3, Func7, FormatOf;
    JWordOfFields(w);
  }

  lemma ShiftWord(w: bv32, arithmetic: bool)
    requires F7Field(w) == if arithmetic then 0x20 else 0
    ensures IWord(if arithmetic then OpcodeField(w) | (0x20 << 25) else OpcodeField(w), RdField(w), F3Field(w), Rs1Field(w),
                  Rs2Field(w)) == w
  {
    if arithmetic { ArithmeticShift(w); } else { LogicalShift(w); }
  }

  lemma ArithmeticShift(w: bv32)
    requires F7Field(w) == 0x20
    ensures IWord(OpcodeField(w) | (0x20 << 25), RdField(w), F3Field(w), Rs1Field(w), Rs2Field(w)) == w
  {}

  lemma LogicalShift(w: bv32)
    requires F7Field(w) == 0
    ensures IWord(OpcodeField(w), RdField(w), F3Field(w), Rs1Field(w), Rs2Field(w)) == w
  {}

  /** Encoding what a word decodes to gives the word back: the encoder leaves no operation of the tables out and puts no bit
      elsewhere. */
  lemma WordRoundTrip(w: bv32)
    requires Decode(w).Some?
    ensures Encode(Decode(w).value) == w
  {
    hide Encode, Operands, OpcodeField, F3Field, F7Field, IImm, DecodeOp, FormatOfField, Opcode, Func3, Func7, FormatOf;
    var op := DecodeOp(OpcodeField(w), F3Field(w), F7Field(w), IImm(w)).value;
    OpHasFields(op, OpcodeField(w), F3Field(w), F7Field(w), IImm(w));
    match FormatOf(op)
    case RType => RBack(op, w);
    case IType => IBack(op, w);
    case SType => SBack(op, w);
    case BType => BBack(op, w);
    case UType => UBack(op, w);
    case JType => JBack(op, w);
  }

  /** Every word that decodes is the word of a valid operation, but for calls to the system with registers. */
  lemma DecodedIsValid(w: bv32)
    requires Decode(w).Some?
    ensures var i := Decode(w).value;
      Valid(i) <==> (i.op == ECALL || i.op == EBREAK ==> i.rd == 0 && i.rs1 == 0)
  {
    hide Valid, Operands, OpcodeField, RdField, Rs1Field, F3Field, F7Field, IImm, DecodeOp, FormatOfField, Opcode, Func3,
         Func7, FormatOf;
    var op := DecodeOp(OpcodeField(w), F3Field(w), F7Field(w), IImm(w)).value;
    OpHasFields(op, OpcodeField(w), F3Field(w), F7Field(w), IImm(w));
    OperandsAreValid(op, w);
  }

  lemma OperandsAreValid(op: Op, w: bv32)
    requires (op == ECALL ==> IImm(w) == 0) && (op == EBREAK ==> IImm(w) == 1)
    ensures var i := Operands(op, FormatOf(op), w);
      i.op == op && (Valid(i) <==> (op == ECALL || op == EBREAK ==> i.rd == 0 && i.rs1 == 0))
  {
    hide RdField, Rs1Field, Rs2Field, IImm, SImm, BImm, UImm, JImm, SignedBelow, IsEven, Valid;
    if FormatOf(op) == IType {
      ImmediatesAreValid(op, w);
    } else {
      OthersAreValid(op, w);
    }
  }

  lemma OthersAreValid(op: Op, w: bv32)
    requires FormatOf(op) != IType
    ensures Valid(Operands(op, FormatOf(op), w)) && op != ECALL && op != EBREAK
  {
    hide RdField, Rs1Field, Rs2Field, IImm, SImm, BImm, UImm, JImm, SignedBelow, IsEven, IsShift;
    assert op != ECALL && op != EBREAK;
    FieldsFit(w);
    ImmediatesFit(w);
    ZeroFits();
  }

  lemma ZeroFits()
    ensures (0 as bv32) < 32
  {}

  /** Every 20-bit immediate is valid for the two upper operations. */
  lemma UpperIsValid(rd: bv32, imm: bv32)
    requires rd < 32
    ensures Valid(Instr(LUI, rd, 0, 0, imm)) <==> imm < 0x100000
    ensures Valid(Instr(AUIPC, rd, 0, 0, imm)) <==> imm < 0x100000
  {
    assert FormatOf(LUI) == UType && FormatOf(AUIPC) == UType;
    ZeroFits();
  }

  lemma ImmediatesAreValid(op: Op, w: bv32)
    requires FormatOf(op) == IType
    requires (op == ECALL ==> IImm(w) == 0) && (op == EBREAK ==> IImm(w) == 1)
    ensures var i := Operands(op, IType, w);
      Valid(i) <==> (op == ECALL || op == EBREAK ==> i.rd == 0 && i.rs1 == 0)
  {
    hide RdField, Rs1Field, Rs2Field, IImm, SignedBelow;
    FieldsFit(w);
    ImmediatesFit(w);
    if IsShift(op) { ShortShift(Rs2Field(w)); }
  }

  lemma ShortShift(x: bv32)
    requires x < 32
    ensures x <= 31
  {}

  // ---------- places in the word ----------

  /** Some operations and their words. */
  lemma KnownWords()
    ensures Encode(Instr(ADD, 1, 2, 3, 0)) == 0x003100B3 && Encode(Instr(SUB, 31, 1, 16, 0)) == 0x41008FB3
    ensures Encode(Instr(ADDI, 1, 0, 0, 5)) == 0x00500093 && Encode(Instr(SRAI, 10, 11, 0, 7)) == 0x4075D513
    ensures Encode(Instr(LW, 5, 6, 0, 0xFFFFFFFC)) == 0xFFC32283 && Encode(Instr(EBREAK, 0, 0, 0, 1)) == 0x00100073
    ensures Encode(Instr(SW, 0, 2, 8, 12)) == 0x00812623 && Encode(Instr(BNE, 0, 5, 6, 0xFFFFFFF8)) == 0xFE629CE3
    ensures Encode(Instr(LUI, 5, 0, 0, 2)) == 0x000022B7 && Encode(Instr(JAL, 1, 0, 0, 0x800)) == 0x001000EF
  {
    hide Encode;
    KnownRegisterWords();
    KnownImmediateWords();
    KnownLoad();
    KnownBreak();
    KnownStore();
    KnownBranch();
    KnownUpper();
    KnownJump();
  }

  lemma KnownRegisterWords()
    ensures Encode(Instr(ADD, 1, 2, 3, 0)) == 0x003100B3 && Encode(Instr(SUB, 31, 1, 16, 0)) == 0x41008FB3
  {
    hide RWord;
    KnownRWords();
  }

  lemma KnownImmediateWords()
    ensures Encode(Instr(ADDI, 1, 0, 0, 5)) == 0x00500093 && Encode(Instr(SRAI, 10, 11, 0, 7)) == 0x4075D513
  {
    hide IWord;
    KnownIWords();
    assert (0x13 as bv32) | (0x20 << 25) == 0x40000013;
  }

  lemma KnownLoad()
    ensures Encode(Instr(LW, 5, 6, 0, 0xFFFFFFFC)) == 0xFFC32283
  {
    hide IWord;
    KnownIWords();
    assert FormatOf(LW) == IType && Opcode(LW) == 0x03 && Func3(LW) == 2;
  }

  lemma KnownBreak()
    ensures Encode(Instr(EBREAK, 0, 0, 0, 1)) == 0x00100073
  {
    hide IWord;
    KnownIWords();
    assert FormatOf(EBREAK) == IType && Opcode(EBREAK) == 0x73 && Func3(EBREAK) == 0;
  }

  lemma KnownStore()
    ensures Encode(Instr(SW, 0, 2, 8, 12)) == 0x00812623
  {
    hide SWord, SetBImm, BBase, UWord, SetJImm, JBase;
    KnownOtherWords();
    assert FormatOf(SW) == SType && Opcode(SW) == 0x23 && Func3(SW) == 2;
  }

  lemma KnownBranch()
    ensures Encode(Instr(BNE, 0, 5, 6, 0xFFFFFFF8)) == 0xFE629CE3
  {
    hide SWord, SetBImm, BBase, UWord, SetJImm, JBase;
    KnownOtherWords();
    assert FormatOf(BNE) == BType && Opcode(BNE) == 0x63 && Func3(BNE) == 1;
  }

  lemma KnownUpper()
    ensures Encode(Instr(LUI, 5, 0, 0, 2)) == 0x000022B7
  {
    hide SWord, SetBImm, BBase, UWord, SetJImm, JBase;
    KnownOtherWords();
    assert FormatOf(LUI) == UType && Opcode(LUI) == 0x37;
  }

  lemma KnownJump()
    ensures Encode(Instr(JAL, 1, 0, 0, 0x800)) == 0x001000EF
  {
    hide SWord, SetBImm, BBase, UWord, SetJImm, JBase;
    KnownOtherWords();
    assert FormatOf(JAL) == JType && Opcode(JAL) == 0x6F;
  }

  lemma KnownRWords()
    ensures RWord(0x33, 1, 0, 2, 3, 0) == 0x003100B3 && RWord(0x33, 31, 0, 1, 16, 0x20) == 0x41008FB3
  {}

  lemma KnownIWords()
    ensures IWord(0x13, 1, 0, 0, 5) == 0x00500093 && IWord(0x40000013, 10, 5, 11, 7) == 0x4075D513
    ensures IWord(0x03, 5, 2, 6, 0xFFFFFFFC) == 0xFFC32283 && IWord(0x73, 0, 0, 0, 1) == 0x00100073
  {}

  lemma KnownOtherWords()
    ensures SWord(0x23, 2, 2, 8, 12) == 0x00812623 && SetBImm(BBase(0x63, 1, 5, 6), 0xFFFFFFF8) == 0xFE629CE3
    ensures UWord(0x37, 5, 2) == 0x000022B7 && SetJImm(JBase(0x6F, 1), 0x800) == 0x001000EF
  {}

  /** Where each bit of a scattered offset goes. */
  lemma OffsetPlaces()
    ensures SetBImm(0, 0x1000) == 0x80000000 && SetBImm(0, 0x800) == 0x80
    ensures SetBImm(0, 0x7e0) == 0x7e000000 && SetBImm(0, 0x1e) == 0xf00
    ensures SetJImm(0, 0x100000) == 0x80000000 && SetJImm(0, 0xff000) == 0xff000
    ensures SetJImm(0, 0x800) == 0x100000 && SetJImm(0, 0x7fe) == 0x7fe00000
  {}
}

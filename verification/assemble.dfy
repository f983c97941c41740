/** The encodings of the RV64IMA, Zicsr and privileged instructions, operation by
    operation (RISC-V Unprivileged ISA 20191213, chapter 24; Privileged ISA,
    chapter 5), and the proof that dec32 reads them back. */
module Assemble {
  import opened Wrappers
  import opened Decode
  import opened Encode

  /** Major opcode, funct3 and funct7 of an operation. */
  datatype Code = Code(opcode: bv32, f3: bv32, f7: bv32)

  // ------------------------------------------------------------ the code tables

  /** funct3 and bit 30 of a base operation. */
  function BaseCode(op: AluOp): Option<(bv32, bool)> {
    match op
    case Add => Some((0, false))  case Sub => Some((0, true))   case Shl => Some((1, false))
    case Lt => Some((2, false))   case Ltu => Some((3, false))  case Xor => Some((4, false))
    case Shr => Some((5, false))  case Sar => Some((5, true))   case Or => Some((6, false))
    case And => Some((7, false))  case _ => None
  }

  function BaseWordCode(op: AluOp): Option<(bv32, bool)> {
    match op
    case AddW => Some((0, false))  case SubW => Some((0, true))  case ShlW => Some((1, false))
    case ShrW => Some((5, false))  case SarW => Some((5, true))  case _ => None
  }

  /** funct3 of an M-extension operation. */
  function MulCode(op: AluOp): Option<bv32> {
    match op
    case Mul => Some(0)  case MulH => Some(1)  case MulHSU => Some(2)  case MulHU => Some(3)
    case Div => Some(4)  case DivU => Some(5)  case Rem => Some(6)     case RemU => Some(7)
    case _ => None
  }

  function MulWordCode(op: AluOp): Option<bv32> {
    match op
    case MulW => Some(0)  case DivW => Some(4)  case DivUW => Some(5)  case RemW => Some(6)
    case RemUW => Some(7)  case _ => None
  }

  function Bit30(high: bool): bv32 { if high then 0x20 else 0 }

  function RegCode(op: AluOp): Option<Code> {
    if BaseCode(op).Some? then Some(Code(0x33, BaseCode(op).value.0, Bit30(BaseCode(op).value.1)))
    else if BaseWordCode(op).Some? then Some(Code(0x3b, BaseWordCode(op).value.0, Bit30(BaseWordCode(op).value.1)))
    else if MulCode(op).Some? then Some(Code(0x33, MulCode(op).value, 1))
    else if MulWordCode(op).Some? then Some(Code(0x3b, MulWordCode(op).value, 1))
    else None
  }

  function LoadCode(op: Op): Option<bv32> {
    if op == LB then Some(0) else if op == LH then Some(1) else if op == LW then Some(2) else if op == LD then Some(3)
    else if op == LBU then Some(4) else if op == LHU then Some(5) else if op == LWU then Some(6) else None
  }

  function OpImmCode(op: Op): Option<bv32> {
    if op == ADDI then Some(0) else if op == SLTI then Some(2) else if op == SLTIU then Some(3)
    else if op == XORI then Some(4) else if op == ORI then Some(6) else if op == ANDI then Some(7) else None
  }

  function ImmCode(op: Op): Option<Code> {
    if LoadCode(op).Some? then Some(Code(0x03, LoadCode(op).value, 0))
    else if OpImmCode(op).Some? then Some(Code(0x13, OpImmCode(op).value, 0))
    else if op == ADDIW then Some(Code(0x1b, 0, 0))
    else if op == JALR then Some(Code(0x67, 0, 0))
    else None
  }

  function ShiftCode(op: Op): Option<Code> {
    if op == SLLI then Some(Code(0x13, 1, 0)) else if op == SRLI then Some(Code(0x13, 5, 0))
    else if op == SRAI then Some(Code(0x13, 5, 0x20)) else None
  }

  function ShiftWordCode(op: Op): Option<Code> {
    if op == SLLIW then Some(Code(0x1b, 1, 0)) else if op == SRLIW then Some(Code(0x1b, 5, 0))
    else if op == SRAIW then Some(Code(0x1b, 5, 0x20)) else None
  }

  function StoreCode(op: Op): Option<Code> {
    if op == SB then Some(Code(0x23, 0, 0)) else if op == SH then Some(Code(0x23, 1, 0))
    else if op == SW then Some(Code(0x23, 2, 0)) else if op == SD then Some(Code(0x23, 3, 0)) else None
  }

  function BranchCode(op: Op): Option<Code> {
    if op == BEQ then Some(Code(0x63, 0, 0)) else if op == BNE then Some(Code(0x63, 1, 0))
    else if op == BLT then Some(Code(0x63, 4, 0)) else if op == BGE then Some(Code(0x63, 5, 0))
    else if op == BLTU then Some(Code(0x63, 6, 0)) else if op == BGEU then Some(Code(0x63, 7, 0)) else None
  }

  /** funct5 of an atomic operation. */
  function AmoCode(amo: Amo): Option<bv32> {
    match amo
    case AddAmo => Some(0)   case SwapAmo => Some(1)   case ScAmo => Some(3)    case XorAmo => Some(4)
    case OrAmo => Some(8)    case AndAmo => Some(12)   case MinAmo => Some(16)  case MaxAmo => Some(20)
    case MinuAmo => Some(24) case MaxuAmo => Some(28)  case Plain => None
  }

  function CsrCode(op: Op): Option<bv32> {
    if op == CSRRW then Some(1) else if op == CSRRS then Some(2) else if op == CSRRC then Some(3)
    else if op == CSRRWI then Some(5) else if op == CSRRSI then Some(6) else if op == CSRRCI then Some(7) else None
  }

  /** funct7 and the rs2 field of a system instruction without operands. */
  function SystemCode(op: Op): Option<(bv32, bv5)> {
    if op == ECALL then Some((0, 0)) else if op == EBREAK then Some((0, 1)) else if op == SRET then Some((8, 2))
    else if op == WFI then Some((8, 5)) else if op == MRET then Some((24, 2)) else None
  }

  // ------------------------------------------------------------------ decoding

  /** The record without its rs2 field, which I-type words do not have. */
  function NoRs2(d: Outcome<Inst>): Outcome<Inst> {
    var i :- d;
    Ok(i.(rs2 := 0))
  }

  lemma SelectReg(w: Word)
    ensures w.opcode == 0x33 ==>
              Select(w) == Ok(Inst(if w.f7 == 1 then MulOp(w.f3) else RegOp(w.f3, w.f7 & 0x20 != 0),
                                   w.rd, w.rs1, w.rs2, 0, 0))
    ensures w.opcode == 0x3b ==>
              Select(w) == Known(if w.f7 == 1 then MulWOp(w.f3) else RegWOp(w.f3, w.f7 & 0x20 != 0),
                                 Inst(NOP, w.rd, w.rs1, w.rs2, 0, 0))
  {
  }

  // The decoder's tables are the inverses of the code tables.

  lemma BaseCodes(op: AluOp)
    ensures BaseCode(op).Some? ==>
              var (f3, high) := BaseCode(op).value; f3 < 8 && RegOp(f3, high) == Compute(op)
    ensures BaseWordCode(op).Some? ==>
              var (f3, high) := BaseWordCode(op).value; f3 < 8 && RegWOp(f3, high) == Some(Compute(op))
  {
  }

  lemma MulCodes(op: AluOp)
    ensures MulCode(op).Some? ==> MulCode(op).value < 8 && MulOp(MulCode(op).value) == Compute(op)
    ensures MulWordCode(op).Some? ==>
              MulWordCode(op).value < 8 && MulWOp(MulWordCode(op).value) == Some(Compute(op))
  {
  }

  lemma Bit30Set(high: bool)
    ensures Bit30(high) < 0x80 && Bit30(high) != 1 && (Bit30(high) & 0x20 != 0 <==> high)
  {
  }

  lemma RegCodes(op: AluOp)
    requires RegCode(op).Some?
    ensures var c := RegCode(op).value;
            && c.f3 < 8 && c.f7 < 0x80 && (c.opcode == 0x33 || c.opcode == 0x3b)
            && (c.opcode == 0x33 ==> (if c.f7 == 1 then MulOp(c.f3) else RegOp(c.f3, c.f7 & 0x20 != 0)) == Compute(op))
            && (c.opcode == 0x3b ==>
                  (if c.f7 == 1 then MulWOp(c.f3) else RegWOp(c.f3, c.f7 & 0x20 != 0)) == Some(Compute(op)))
  {
    hide BaseCode, BaseWordCode, MulCode, MulWordCode, RegOp, RegWOp, MulOp, MulWOp, Bit30;
    BaseCodes(op);
    MulCodes(op);
    Bit30Set(true);
    Bit30Set(false);
  }

  lemma RegTable(op: AluOp, w: Word)
    requires RegCode(op).Some? && var c := RegCode(op).value; w.opcode == c.opcode && w.f3 == c.f3 && w.f7 == c.f7
    ensures w.opcode < 0x80 && w.f3 < 8 && w.f7 < 0x80
    ensures Select(w) == Ok(Inst(Compute(op), w.rd, w.rs1, w.rs2, 0, 0))
  {
    hide Select, RegCode, MulOp, RegOp, MulWOp, RegWOp;
    SelectReg(w);
    RegCodes(op);
  }

  /** Register-register operations, the M extension included. */
  lemma DecodesReg(op: AluOp, rd: bv5, rs1: bv5, rs2: bv5)
    requires RegCode(op).Some?
    ensures var c := RegCode(op).value;
            Dec32(EncodeR(c.opcode, c.f3, c.f7, rd, rs1, rs2)) == Ok(Inst(Compute(op), rd, rs1, rs2, 0, 0))
  {
    hide RegCode, Select, Opcode, Funct3, Funct7, Rd, Rs1, Rs2, EncodeR;
    var c := RegCode(op).value;
    RegTable(op, Word(c.opcode, c.f3, c.f7, rd, rs1, rs2, 0, 0, 0, 0, 0, 0, 0));
    var e := EncodeR(c.opcode, c.f3, c.f7, rd, rs1, rs2);
    RFields(e, c.opcode, c.f3, c.f7, rd, rs1, rs2);
    RegTable(op, Split(e));
  }

  lemma SelectImm(w: Word)
    ensures w.opcode == 0x03 ==> Select(w) == Known(LoadOp(w.f3), Inst(NOP, w.rd, w.rs1, w.rs2, w.iImm, 0))
    ensures w.opcode == 0x13 ==>
              Select(w) == Ok(Inst(ImmOp(w.f3, w.f7 & 0x20 != 0), w.rd, w.rs1, w.rs2,
                                   if w.f3 == 1 || w.f3 == 5 then w.shamt else w.iImm, 0))
    ensures w.opcode == 0x1b && w.f3 == 0 ==> Select(w) == Ok(Inst(ADDIW, w.rd, w.rs1, w.rs2, w.iImm, 0))
    ensures w.opcode == 0x67 ==> Select(w) == Ok(Inst(JALR, w.rd, w.rs1, w.rs2, w.iImm, 0))
  {
  }

  lemma LoadCodes(op: Op)
    requires LoadCode(op).Some?
    ensures LoadCode(op).value < 8 && LoadOp(LoadCode(op).value) == Some(op)
  {
  }

  lemma OpImmCodes(op: Op)
    requires OpImmCode(op).Some?
    ensures var f3 := OpImmCode(op).value;
            f3 < 8 && f3 != 1 && f3 != 5 && ImmOp(f3, false) == op && ImmOp(f3, true) == op
  {
  }

  lemma ImmCodes(op: Op)
    requires ImmCode(op).Some?
    ensures var c := ImmCode(op).value;
            && c.f3 < 8 && (c.opcode == 0x03 || c.opcode == 0x13 || c.opcode == 0x1b || c.opcode == 0x67)
            && (c.opcode == 0x03 ==> LoadOp(c.f3) == Some(op))
            && (c.opcode == 0x13 ==> c.f3 != 1 && c.f3 != 5 && ImmOp(c.f3, false) == op && ImmOp(c.f3, true) == op)
            && (c.opcode == 0x1b ==> op == ADDIW && c.f3 == 0) && (c.opcode == 0x67 ==> op == JALR)
  {
    hide LoadCode, OpImmCode, LoadOp, ImmOp;
    if LoadCode(op).Some? { LoadCodes(op); } else if OpImmCode(op).Some? { OpImmCodes(op); }
  }

  lemma ImmTable(op: Op, w: Word)
    requires ImmCode(op).Some? && w.opcode == ImmCode(op).value.opcode && w.f3 == ImmCode(op).value.f3
    ensures w.opcode < 0x80 && w.f3 < 8
    ensures Select(w) == Ok(Inst(op, w.rd, w.rs1, w.rs2, w.iImm, 0))
  {
    hide Select, ImmCode, LoadOp, ImmOp;
    SelectImm(w);
    ImmCodes(op);
  }

  /** Loads, JALR and operations with a 12-bit immediate. */
  lemma DecodesImm(op: Op, rd: bv5, rs1: bv5, imm: bv64)
    requires ImmCode(op).Some? && Short(imm)
    ensures var c := ImmCode(op).value;
            NoRs2(Dec32(EncodeI(c.opcode, c.f3, rd, rs1, imm))) == Ok(Inst(op, rd, rs1, 0, imm, 0))
  {
    hide ImmCode, Select, Opcode, Funct3, Funct7, Rd, Rs1, Rs2, EncodeI, IImm, Short;
    var c := ImmCode(op).value;
    ImmTable(op, Word(c.opcode, c.f3, 0, rd, rs1, 0, 0, 0, 0, 0, 0, 0, 0));
    var e := EncodeI(c.opcode, c.f3, rd, rs1, imm);
    IFields(e, c.opcode, c.f3, rd, rs1, imm);
    ImmTable(op, Split(e));
  }

  /** Shifts by a 6-bit amount. */
  lemma DecodesShift(op: Op, rd: bv5, rs1: bv5, shamt: bv64)
    requires ShiftCode(op).Some? && shamt & 0x3f == shamt
    ensures var c := ShiftCode(op).value;
            NoRs2(Dec32(EncodeShift(c.opcode, c.f3, c.f7, rd, rs1, shamt))) == Ok(Inst(op, rd, rs1, 0, shamt, 0))
  {
    hide Select, Opcode, Funct3, Funct7, Rd, Rs1, Rs2, EncodeShift, MImm6;
    var c := ShiftCode(op).value;
    var e := EncodeShift(c.opcode, c.f3, c.f7, rd, rs1, shamt);
    ShiftFields(e, c.opcode, c.f3, c.f7, rd, rs1, shamt);
    SelectImm(Split(e));
  }

  lemma SelectShiftWord(w: Word)
    requires w.opcode == 0x1b
    ensures w.f3 == 1 ==> Select(w) == Ok(Inst(SLLIW, w.rd, w.rs1, w.rs2, w.rs2 as bv64, 0))
    ensures w.f3 == 5 ==>
              Select(w) == Ok(Inst(if w.f7 & 0x20 != 0 then SRAIW else SRLIW, w.rd, w.rs1, w.rs2, w.rs2 as bv64, 0))
  {
  }

  lemma ShiftWordTable(op: Op, w: Word)
    requires ShiftWordCode(op).Some?
    requires var c := ShiftWordCode(op).value; w.opcode == c.opcode && w.f3 == c.f3 && w.f7 == c.f7
    ensures w.opcode < 0x80 && w.f3 < 8 && w.f7 < 0x80
    ensures Select(w) == Ok(Inst(op, w.rd, w.rs1, w.rs2, w.rs2 as bv64, 0))
  {
    hide Select;
    SelectShiftWord(w);
  }

  /** Word shifts by a 5-bit amount, which lies in the rs2 field. */
  lemma DecodesShiftWord(op: Op, rd: bv5, rs1: bv5, amount: bv5)
    requires ShiftWordCode(op).Some?
    ensures var c := ShiftWordCode(op).value;
            NoRs2(Dec32(EncodeR(c.opcode, c.f3, c.f7, rd, rs1, amount))) == Ok(Inst(op, rd, rs1, 0, amount as bv64, 0))
  {
    hide ShiftWordCode, Select, Opcode, Funct3, Funct7, Rd, Rs1, Rs2, EncodeR;
    var c := ShiftWordCode(op).value;
    ShiftWordTable(op, Word(c.opcode, c.f3, c.f7, rd, rs1, amount, 0, 0, 0, 0, 0, 0, 0));
    var e := EncodeR(c.opcode, c.f3, c.f7, rd, rs1, amount);
    RFields(e, c.opcode, c.f3, c.f7, rd, rs1, amount);
    ShiftWordTable(op, Split(e));
  }

  lemma SelectStoreBranch(w: Word)
    ensures w.opcode == 0x23 ==> Select(w) == Known(StoreOp(w.f3), Inst(NOP, 0, w.rs1, w.rs2, w.sImm, 0))
    ensures w.opcode == 0x63 ==> Select(w) == Known(BranchOp(w.f3), Inst(NOP, 0, w.rs1, w.rs2, w.bImm, 0))
  {
  }

  lemma StoreCodes(op: Op)
    requires StoreCode(op).Some?
    ensures var c := StoreCode(op).value; c.opcode == 0x23 && c.f3 < 8 && StoreOp(c.f3) == Some(op)
  {
  }

  lemma BranchCodes(op: Op)
    requires BranchCode(op).Some?
    ensures var c := BranchCode(op).value; c.opcode == 0x63 && c.f3 < 8 && BranchOp(c.f3) == Some(op)
  {
  }

  lemma StoreTable(op: Op, w: Word)
    requires StoreCode(op).Some? && w.opcode == StoreCode(op).value.opcode && w.f3 == StoreCode(op).value.f3
    ensures w.opcode < 0x80 && w.f3 < 8
    ensures Select(w) == Ok(Inst(op, 0, w.rs1, w.rs2, w.sImm, 0))
  {
    hide Select, StoreCode, StoreOp;
    SelectStoreBranch(w);
    StoreCodes(op);
  }

  lemma BranchTable(op: Op, w: Word)
    requires BranchCode(op).Some? && w.opcode == BranchCode(op).value.opcode && w.f3 == BranchCode(op).value.f3
    ensures w.opcode < 0x80 && w.f3 < 8
    ensures Select(w) == Ok(Inst(op, 0, w.rs1, w.rs2, w.bImm, 0))
  {
    hide Select, BranchCode, BranchOp;
    SelectStoreBranch(w);
    BranchCodes(op);
  }

  lemma DecodesStore(op: Op, rs1: bv5, rs2: bv5, imm: bv64)
    requires StoreCode(op).Some? && Short(imm)
    ensures var c := StoreCode(op).value;
            Dec32(EncodeS(c.opcode, c.f3, rs1, rs2, imm)) == Ok(Inst(op, 0, rs1, rs2, imm, 0))
  {
    hide StoreCode, Select, Opcode, Funct3, Funct7, Rd, Rs1, Rs2, EncodeS, SImm, Short;
    var c := StoreCode(op).value;
    StoreTable(op, Word(c.opcode, c.f3, 0, 0, rs1, rs2, 0, 0, 0, 0, 0, 0, 0));
    var e := EncodeS(c.opcode, c.f3, rs1, rs2, imm);
    SFields(e, c.opcode, c.f3, rs1, rs2, imm);
    StoreTable(op, Split(e));
  }

  lemma DecodesBranch(op: Op, rs1: bv5, rs2: bv5, imm: bv64)
    requires BranchCode(op).Some? && Extends(imm, 0xffff_ffff_ffff_f000) && imm & 1 == 0
    ensures var c := BranchCode(op).value;
            Dec32(EncodeB(c.opcode, c.f3, rs1, rs2, imm)) == Ok(Inst(op, 0, rs1, rs2, imm, 0))
  {
    hide BranchCode, Select, Opcode, Funct3, Funct7, Rd, Rs1, Rs2, EncodeB, BImm, Extends;
    var c := BranchCode(op).value;
    BranchTable(op, Word(c.opcode, c.f3, 0, 0, rs1, rs2, 0, 0, 0, 0, 0, 0, 0));
    var e := EncodeB(c.opcode, c.f3, rs1, rs2, imm);
    BFields(e, c.opcode, c.f3, rs1, rs2, imm);
    BranchTable(op, Split(e));
  }

  lemma SelectAmo(w: Word)
    requires w.opcode == 0x2f
    ensures Select(w) == Known(AmoOp(w.f7 >> 2, if w.f3 == 3 then 8 else 4), Inst(NOP, w.rd, w.rs1, w.rs2, 0, 0))
  {
  }

  /** funct7 of an atomic operation: funct5 and the two ordering bits. */
  function AmoFunct7(f5: bv32, ordering: bv32): bv32 { (f5 << 2) | ordering }

  lemma OrderingBits(f5: bv32, ordering: bv32)
    requires f5 < 32 && ordering < 4
    ensures AmoFunct7(f5, ordering) < 0x80 && AmoFunct7(f5, ordering) >> 2 == f5
  {
  }

  lemma AmoCodes(amo: Amo, size: nat)
    requires AmoCode(amo).Some?
    ensures AmoCode(amo).value < 32 && AmoOp(AmoCode(amo).value, size) == Some(Atomic(size, amo))
  {
  }

  lemma AmoTable(amo: Amo, double: bool, ordering: bv32, w: Word)
    requires AmoCode(amo).Some? && ordering < 4 && w.opcode == 0x2f && w.f3 == (if double then 3 else 2)
    requires w.f7 == AmoFunct7(AmoCode(amo).value, ordering)
    ensures w.f7 < 0x80 && Select(w) == Ok(Inst(Atomic(if double then 8 else 4, amo), w.rd, w.rs1, w.rs2, 0, 0))
  {
    hide AmoFunct7, AmoCode, AmoOp, Select;
    SelectAmo(w);
    AmoCodes(amo, if double then 8 else 4);
    OrderingBits(AmoCode(amo).value, ordering);
  }

  /** Atomic operations on words and doublewords, with either ordering bit. */
  lemma DecodesAtomic(amo: Amo, double: bool, ordering: bv32, rd: bv5, rs1: bv5, rs2: bv5)
    requires AmoCode(amo).Some? && ordering < 4
    ensures var f7 := AmoFunct7(AmoCode(amo).value, ordering);
            Dec32(EncodeR(0x2f, if double then 3 else 2, f7, rd, rs1, rs2))
            == Ok(Inst(Atomic(if double then 8 else 4, amo), rd, rs1, rs2, 0, 0))
  {
    hide AmoCode, AmoFunct7, Select, Opcode, Funct3, Funct7, Rd, Rs1, Rs2, EncodeR;
    var f3, f7 := if double then 3 else 2, AmoFunct7(AmoCode(amo).value, ordering);
    AmoTable(amo, double, ordering, Word(0x2f, f3, f7, rd, rs1, rs2, 0, 0, 0, 0, 0, 0, 0));
    var e := EncodeR(0x2f, f3, f7, rd, rs1, rs2);
    RFields(e, 0x2f, f3, f7, rd, rs1, rs2);
    AmoTable(amo, double, ordering, Split(e));
  }

  lemma ReserveTable(double: bool, ordering: bv32, w: Word)
    requires ordering < 4 && w.opcode == 0x2f && w.f3 == (if double then 3 else 2) && w.f7 == AmoFunct7(2, ordering)
    ensures w.f7 < 0x80 && Select(w) == Ok(Inst(Reserve(if double then 8 else 4), w.rd, w.rs1, w.rs2, 0, 0))
  {
    hide AmoFunct7, Select;
    SelectAmo(w);
    OrderingBits(2, ordering);
  }

  /** Load-reserved has funct5 2 and no rs2. */
  lemma DecodesReserve(double: bool, ordering: bv32, rd: bv5, rs1: bv5)
    requires ordering < 4
    ensures Dec32(EncodeR(0x2f, if double then 3 else 2, AmoFunct7(2, ordering), rd, rs1, 0))
         == Ok(Inst(Reserve(if double then 8 else 4), rd, rs1, 0, 0, 0))
  {
    hide AmoFunct7, Select, Opcode, Funct3, Funct7, Rd, Rs1, Rs2, EncodeR;
    var f3, f7 := if double then 3 else 2, AmoFunct7(2, ordering);
    ReserveTable(double, ordering, Word(0x2f, f3, f7, rd, rs1, 0, 0, 0, 0, 0, 0, 0, 0));
    var e := EncodeR(0x2f, f3, f7, rd, rs1, 0);
    RFields(e, 0x2f, f3, f7, rd, rs1, 0);
    ReserveTable(double, ordering, Split(e));
  }

  lemma SelectSystem(w: Word)
    requires w.opcode == 0x73
    ensures Select(w) == Known(if w.f3 == 0 then PrivOp(w.f7, w.rs2) else CsrOpOf(w.f3),
                               Inst(NOP, w.rd, w.rs1, w.rs2, if w.f3 >= 5 then w.rs1 as bv64 else 0, w.csr))
  {
  }

  lemma CsrFields(e: bv32, f3: bv32, rd: bv5, src: bv5, csr: bv12)
    requires f3 < 8 && e == EncodeI(0x73, f3, rd, src, csr as bv64)
    ensures Opcode(e) == 0x73 && Funct3(e) == f3 && Rd(e) == rd && Rs1(e) == src && CsrField(e) == csr
  {
  }

  lemma CsrCodes(op: Op)
    requires CsrCode(op).Some?
    ensures var f3 := CsrCode(op).value; 0 < f3 < 8 && CsrOpOf(f3) == Some(op)
  {
  }

  lemma CsrTable(op: Op, w: Word)
    requires CsrCode(op).Some? && w.opcode == 0x73 && w.f3 == CsrCode(op).value
    ensures 0 < w.f3 < 8
    ensures Select(w) == Ok(Inst(op, w.rd, w.rs1, w.rs2, if w.f3 >= 5 then w.rs1 as bv64 else 0, w.csr))
  {
    hide Select, CsrCode, CsrOpOf;
    SelectSystem(w);
    CsrCodes(op);
  }

  lemma SystemTable(op: Op, w: Word)
    requires SystemCode(op).Some? && w.opcode == 0x73 && w.f3 == 0
    requires w.f7 == SystemCode(op).value.0 && w.rs2 == SystemCode(op).value.1
    ensures w.f7 < 0x80 && Select(w) == Ok(Inst(op, w.rd, w.rs1, w.rs2, 0, w.csr))
  {
    hide Select;
    SelectSystem(w);
  }

  function CsrWord(f3: bv32, rd: bv5, src: bv5, csr: bv12): bv32 { EncodeI(0x73, f3, rd, src, csr as bv64) }

  /** The immediate of a CSR operation, when it has one. */
  function CsrImm(f3: bv32, src: bv5): bv64 { if f3 >= 5 then src as bv64 else 0 }

  /** CSR operations: a register source, or a 5-bit immediate in its place. */
  lemma DecodesCsr(op: Op, rd: bv5, src: bv5, csr: bv12)
    requires CsrCode(op).Some?
    ensures NoRs2(Dec32(CsrWord(CsrCode(op).value, rd, src, csr)))
         == Ok(Inst(op, rd, src, 0, CsrImm(CsrCode(op).value, src), csr))
  {
    hide CsrCode, Select, Opcode, Funct3, Funct7, Rd, Rs1, Rs2, EncodeI, CsrField;
    var f3 := CsrCode(op).value;
    CsrTable(op, Word(0x73, f3, 0, rd, src, 0, 0, 0, 0, 0, 0, 0, csr));
    var e := EncodeI(0x73, f3, rd, src, csr as bv64);
    CsrFields(e, f3, rd, src, csr);
    CsrTable(op, Split(e));
  }

  /** Environment calls, breakpoints, trap returns and WFI; and SFENCE.VMA. */
  lemma DecodesSystem(op: Op)
    requires SystemCode(op).Some?
    ensures var c := SystemCode(op).value;
            var d := Dec32(EncodeR(0x73, 0, c.0, 0, 0, c.1));
            d.Ok? && d.value.op == op && d.value.rd == 0
  {
    hide SystemCode, Select, Opcode, Funct3, Funct7, Rd, Rs1, Rs2, EncodeR;
    var c := SystemCode(op).value;
    SystemTable(op, Word(0x73, 0, c.0, 0, 0, c.1, 0, 0, 0, 0, 0, 0, 0));
    var e := EncodeR(0x73, 0, c.0, 0, 0, c.1);
    RFields(e, 0x73, 0, c.0, 0, 0, c.1);
    SystemTable(op, Split(e));
  }

  lemma DecodesSfence(rs1: bv5, rs2: bv5)
    ensures var d := Dec32(EncodeR(0x73, 0, 9, 0, rs1, rs2));
            d.Ok? && d.value.op == SFENCE_VMA && d.value.rd == 0
  {
    hide Select, Opcode, Funct3, Funct7, Rd, Rs1, Rs2, EncodeR;
    var e := EncodeR(0x73, 0, 9, 0, rs1, rs2);
    RFields(e, 0x73, 0, 9, 0, rs1, rs2);
    SelectSystem(Split(e));
  }

  lemma SelectUpper(w: Word)
    ensures w.opcode == 0x37 ==> Select(w) == Ok(Inst(LUI, w.rd, w.rs1, w.rs2, w.uImm, 0))
    ensures w.opcode == 0x17 ==> Select(w) == Ok(Inst(AUIPC, w.rd, w.rs1, w.rs2, w.uImm, 0))
  {
  }

  lemma UpperFields(e: bv32, opcode: bv32, rd: bv5, imm: bv64)
    requires opcode < 0x80 && e == EncodeU(opcode, rd, imm)
    ensures Opcode(e) == opcode && Rd(e) == rd
    ensures Extends(imm, 0xffff_ffff_8000_0000) && imm & 0xfff == 0 ==> UImm(e) == imm
  {
  }

  /** LUI and AUIPC. */
  lemma DecodesUpper(pcRelative: bool, rd: bv5, imm: bv64)
    requires Extends(imm, 0xffff_ffff_8000_0000) && imm & 0xfff == 0
    ensures var d := Dec32(EncodeU(if pcRelative then 0x17 else 0x37, rd, imm));
            d.Ok? && d.value.op == (if pcRelative then AUIPC else LUI) && d.value.rd == rd && d.value.imm == imm
  {
    hide Select, Opcode, Funct3, Funct7, Rd, Rs1, Rs2, EncodeU, UImm, Extends;
    var opcode := if pcRelative then 0x17 else 0x37;
    var e := EncodeU(opcode, rd, imm);
    UpperFields(e, opcode, rd, imm);
    SelectUpper(Split(e));
  }

  lemma SelectFence(w: Word)
    requires w.opcode == 0x0f && (w.f3 == 0 || w.f3 == 1)
    ensures Select(w) == Ok(Inst(if w.f3 == 0 then FENCE else FENCE_I, w.rd, w.rs1, w.rs2, 0, 0))
  {
  }

  /** FENCE and FENCE.I, whatever their ordering sets. */
  lemma DecodesFence(f3: bv32, imm: bv64)
    requires f3 == 0 || f3 == 1
    ensures var d := Dec32(EncodeI(0x0f, f3, 0, 0, imm));
            d.Ok? && d.value.op == (if f3 == 0 then FENCE else FENCE_I) && d.value.rd == 0
  {
    hide Select, Opcode, Funct3, Funct7, Rd, Rs1, Rs2, EncodeI, IImm, Short;
    var e := EncodeI(0x0f, f3, 0, 0, imm);
    IFields(e, 0x0f, f3, 0, 0, imm);
    SelectFence(Split(e));
  }

  /** JAL. */
  lemma DecodesJump(rd: bv5, imm: bv64)
    requires Extends(imm, 0xffff_ffff_fff0_0000) && imm & 1 == 0
    ensures var d := Dec32(EncodeJ(0x6f, rd, imm));
            d.Ok? && d.value.op == JAL && d.value.rd == rd && d.value.imm == imm
  {
    hide Select, Opcode, Funct3, Funct7, Rd, Rs1, Rs2, EncodeJ, JImm, Extends;
    var e := EncodeJ(0x6f, rd, imm);
    JFields(e, rd, imm);
    SelectJump(Split(e));
  }

  lemma SelectJump(w: Word)
    requires w.opcode == 0x6f
    ensures Select(w) == Ok(Inst(JAL, w.rd, w.rs1, w.rs2, w.jImm, 0))
  {
  }

  // ---------------------------------------------------------- every instruction

  /** The RV64IMA, Zicsr and privileged instructions, by format. */
  datatype Asm =
    | RegAsm(alu: AluOp, rd: bv5, rs1: bv5, rs2: bv5)
    | ImmAsm(op: Op, rd: bv5, rs1: bv5, imm: bv64)
    | ShiftAsm(op: Op, rd: bv5, rs1: bv5, imm: bv64)
    | ShiftWordAsm(op: Op, rd: bv5, rs1: bv5, amount: bv5)
    | StoreAsm(op: Op, rs1: bv5, rs2: bv5, imm: bv64)
    | BranchAsm(op: Op, rs1: bv5, rs2: bv5, imm: bv64)
    | UpperAsm(pcRelative: bool, rd: bv5, imm: bv64)
    | JumpAsm(rd: bv5, imm: bv64)
    | AtomicAsm(amo: Amo, double: bool, ordering: bv32, rd: bv5, rs1: bv5, rs2: bv5)
    | ReserveAsm(double: bool, ordering: bv32, rd: bv5, rs1: bv5)
    | CsrAsm(op: Op, rd: bv5, src: bv5, csr: bv12)
    | SystemAsm(op: Op)
    | SfenceAsm(rs1: bv5, rs2: bv5)
    | FenceAsm(instructions: bool, sets: bv64)

  predicate UpperImm(imm: bv64) { Extends(imm, 0xffff_ffff_8000_0000) && imm & 0xfff == 0 }
  predicate BranchImm(imm: bv64) { Extends(imm, 0xffff_ffff_ffff_f000) && imm & 1 == 0 }
  predicate JumpImm(imm: bv64) { Extends(imm, 0xffff_ffff_fff0_0000) && imm & 1 == 0 }
  predicate ShiftImm(imm: bv64) { imm & 0x3f == imm }

  /** The operation has the format and the immediate fits it. */
  predicate Assembles(a: Asm) {
    match a
    case RegAsm(alu, _, _, _) => RegCode(alu).Some?
    case ImmAsm(op, _, _, imm) => ImmCode(op).Some? && Short(imm)
    case ShiftAsm(op, _, _, imm) => ShiftCode(op).Some? && ShiftImm(imm)
    case ShiftWordAsm(op, _, _, _) => ShiftWordCode(op).Some?
    case StoreAsm(op, _, _, imm) => StoreCode(op).Some? && Short(imm)
    case BranchAsm(op, _, _, imm) => BranchCode(op).Some? && BranchImm(imm)
    case UpperAsm(_, _, imm) => UpperImm(imm)
    case JumpAsm(_, imm) => JumpImm(imm)
    case AtomicAsm(amo, _, ordering, _, _, _) => AmoCode(amo).Some? && ordering < 4
    case ReserveAsm(_, ordering, _, _) => ordering < 4
    case CsrAsm(op, _, _, _) => CsrCode(op).Some?
    case SystemAsm(op) => SystemCode(op).Some?
    case SfenceAsm(_, _) => true
    case FenceAsm(_, _) => true
  }

  function FromReg(c: Code, rd: bv5, rs1: bv5, rs2: bv5): bv32 { EncodeR(c.opcode, c.f3, c.f7, rd, rs1, rs2) }
  function FromImm(c: Code, rd: bv5, rs1: bv5, imm: bv64): bv32 { EncodeI(c.opcode, c.f3, rd, rs1, imm) }
  function FromShift(c: Code, rd: bv5, rs1: bv5, imm: bv64): bv32 { EncodeShift(c.opcode, c.f3, c.f7, rd, rs1, imm) }
  function FromStore(c: Code, rs1: bv5, rs2: bv5, imm: bv64): bv32 { EncodeS(c.opcode, c.f3, rs1, rs2, imm) }
  function FromBranch(c: Code, rs1: bv5, rs2: bv5, imm: bv64): bv32 { EncodeB(c.opcode, c.f3, rs1, rs2, imm) }

  /** The instruction word. */
  function Assembled(a: Asm): bv32
    requires Assembles(a)
  {
    hide EncodeR, EncodeI, EncodeShift, EncodeS, EncodeB, EncodeU, EncodeJ, AmoFunct7, Short, Extends;
    hide RegCode, ImmCode, ShiftCode, ShiftWordCode, StoreCode, BranchCode, AmoCode, CsrCode, SystemCode;
    match a
    case RegAsm(alu, rd, rs1, rs2) => FromReg(RegCode(alu).value, rd, rs1, rs2)
    case ImmAsm(op, rd, rs1, imm) => FromImm(ImmCode(op).value, rd, rs1, imm)
    case ShiftAsm(op, rd, rs1, imm) => FromShift(ShiftCode(op).value, rd, rs1, imm)
    case ShiftWordAsm(op, rd, rs1, amount) => FromReg(ShiftWordCode(op).value, rd, rs1, amount)
    case StoreAsm(op, rs1, rs2, imm) => FromStore(StoreCode(op).value, rs1, rs2, imm)
    case BranchAsm(op, rs1, rs2, imm) => FromBranch(BranchCode(op).value, rs1, rs2, imm)
    case UpperAsm(pcRelative, rd, imm) => EncodeU(if pcRelative then 0x17 else 0x37, rd, imm)
    case JumpAsm(rd, imm) => EncodeJ(0x6f, rd, imm)
    case AtomicAsm(amo, double, ordering, rd, rs1, rs2) =>
      EncodeR(0x2f, if double then 3 else 2, AmoFunct7(AmoCode(amo).value, ordering), rd, rs1, rs2)
    case ReserveAsm(double, ordering, rd, rs1) =>
      EncodeR(0x2f, if double then 3 else 2, AmoFunct7(2, ordering), rd, rs1, 0)
    case CsrAsm(op, rd, src, csr) => CsrWord(CsrCode(op).value, rd, src, csr)
    case SystemAsm(op) => EncodeR(0x73, 0, SystemCode(op).value.0, 0, 0, SystemCode(op).value.1)
    case SfenceAsm(rs1, rs2) => EncodeR(0x73, 0, 9, 0, rs1, rs2)
    case FenceAsm(instructions, sets) => EncodeI(0x0f, if instructions then 1 else 0, 0, 0, sets)
  }

  /** A decoded record says what the instruction says: its operation and every
      operand the operation has. */
  predicate Says(d: Inst, a: Asm)
    requires Assembles(a)
  {
    hide RegCode, ImmCode, ShiftCode, ShiftWordCode, StoreCode, BranchCode, AmoCode, CsrCode, SystemCode;
    match a
    case RegAsm(alu, rd, rs1, rs2) => d == Inst(Compute(alu), rd, rs1, rs2, 0, 0)
    case ImmAsm(op, rd, rs1, imm) => d.(rs2 := 0) == Inst(op, rd, rs1, 0, imm, 0)
    case ShiftAsm(op, rd, rs1, imm) => d.(rs2 := 0) == Inst(op, rd, rs1, 0, imm, 0)
    case ShiftWordAsm(op, rd, rs1, amount) => d.(rs2 := 0) == Inst(op, rd, rs1, 0, amount as bv64, 0)
    case StoreAsm(op, rs1, rs2, imm) => d == Inst(op, 0, rs1, rs2, imm, 0)
    case BranchAsm(op, rs1, rs2, imm) => d == Inst(op, 0, rs1, rs2, imm, 0)
    case UpperAsm(pcRelative, rd, imm) => d.op == (if pcRelative then AUIPC else LUI) && d.rd == rd && d.imm == imm
    case JumpAsm(rd, imm) => d.op == JAL && d.rd == rd && d.imm == imm
    case AtomicAsm(amo, double, _, rd, rs1, rs2) => d == Inst(Atomic(if double then 8 else 4, amo), rd, rs1, rs2, 0, 0)
    case ReserveAsm(double, _, rd, rs1) => d == Inst(Reserve(if double then 8 else 4), rd, rs1, 0, 0, 0)
    case CsrAsm(op, rd, src, csr) => d.(rs2 := 0) == Inst(op, rd, src, 0, CsrImm(CsrCode(op).value, src), csr)
    case SystemAsm(op) => d.op == op && d.rd == 0
    case SfenceAsm(_, _) => d.op == SFENCE_VMA && d.rd == 0
    case FenceAsm(instructions, _) => d.op == (if instructions then FENCE_I else FENCE) && d.rd == 0
  }

  predicate ReadsBack(a: Asm)
    requires Assembles(a)
  {
    hide Assembled, Says, Dec32;
    Dec32(Assembled(a)).Ok? && Says(Dec32(Assembled(a)).value, a)
  }

  lemma ComputesBack(a: Asm)
    requires Assembles(a) && (a.RegAsm? || a.ImmAsm? || a.ShiftAsm? || a.ShiftWordAsm?)
    ensures ReadsBack(a)
  {
    hide Dec32, EncodeR, EncodeI, EncodeShift, EncodeS, EncodeB, EncodeU, EncodeJ, AmoFunct7, Short, Extends;
    hide RegCode, ImmCode, ShiftCode, ShiftWordCode, StoreCode, BranchCode, AmoCode, CsrCode, SystemCode;
    match a
    case RegAsm(alu, rd, rs1, rs2) => DecodesReg(alu, rd, rs1, rs2);
    case ImmAsm(op, rd, rs1, imm) => DecodesImm(op, rd, rs1, imm);
    case ShiftAsm(op, rd, rs1, imm) => DecodesShift(op, rd, rs1, imm);
    case ShiftWordAsm(op, rd, rs1, amount) => DecodesShiftWord(op, rd, rs1, amount);
  }

  lemma MovesBack(a: Asm)
    requires Assembles(a) && (a.StoreAsm? || a.BranchAsm? || a.UpperAsm? || a.JumpAsm?)
    ensures ReadsBack(a)
  {
    hide Dec32, EncodeR, EncodeI, EncodeShift, EncodeS, EncodeB, EncodeU, EncodeJ, AmoFunct7, Short, Extends;
    hide RegCode, ImmCode, ShiftCode, ShiftWordCode, StoreCode, BranchCode, AmoCode, CsrCode, SystemCode;
    match a
    case StoreAsm(op, rs1, rs2, imm) => DecodesStore(op, rs1, rs2, imm);
    case BranchAsm(op, rs1, rs2, imm) => DecodesBranch(op, rs1, rs2, imm);
    case UpperAsm(pcRelative, rd, imm) => DecodesUpper(pcRelative, rd, imm);
    case JumpAsm(rd, imm) => DecodesJump(rd, imm);
  }

  lemma AtomicsBack(a: Asm)
    requires Assembles(a) && (a.AtomicAsm? || a.ReserveAsm?)
    ensures ReadsBack(a)
  {
    hide Dec32, EncodeR, EncodeI, EncodeShift, EncodeS, EncodeB, EncodeU, EncodeJ, AmoFunct7, Short, Extends;
    hide RegCode, ImmCode, ShiftCode, ShiftWordCode, StoreCode, BranchCode, AmoCode, CsrCode, SystemCode;
    match a
    case AtomicAsm(amo, double, ordering, rd, rs1, rs2) => DecodesAtomic(amo, double, ordering, rd, rs1, rs2);
    case ReserveAsm(double, ordering, rd, rs1) => DecodesReserve(double, ordering, rd, rs1);
  }

  lemma CsrsBack(a: Asm)
    requires Assembles(a) && a.CsrAsm?
    ensures ReadsBack(a)
  {
    hide Dec32, CsrWord, CsrImm, CsrCode, Short, Extends;
    DecodesCsr(a.op, a.rd, a.src, a.csr);
  }

  lemma SystemsBack(a: Asm)
    requires Assembles(a) && (a.SystemAsm? || a.SfenceAsm? || a.FenceAsm?)
    ensures ReadsBack(a)
  {
    hide Dec32, EncodeR, EncodeI, EncodeShift, EncodeS, EncodeB, EncodeU, EncodeJ, AmoFunct7, Short, Extends;
    hide RegCode, ImmCode, ShiftCode, ShiftWordCode, StoreCode, BranchCode, AmoCode, CsrCode, SystemCode;
    match a
    case SystemAsm(op) => DecodesSystem(op);
    case SfenceAsm(rs1, rs2) => DecodesSfence(rs1, rs2);
    case FenceAsm(instructions, sets) => DecodesFence(if instructions then 1 else 0, sets);
  }

  /** dec32 reads every one of these instructions back from its word. */
  lemma Disassembles(a: Asm)
    requires Assembles(a)
    ensures Dec32(Assembled(a)).Ok? && Says(Dec32(Assembled(a)).value, a)
  {
    hide Assembled, Says, Dec32;
    match a
    case RegAsm(_, _, _, _) | ImmAsm(_, _, _, _) | ShiftAsm(_, _, _, _) | ShiftWordAsm(_, _, _, _) => ComputesBack(a);
    case StoreAsm(_, _, _, _) | BranchAsm(_, _, _, _) | UpperAsm(_, _, _) | JumpAsm(_, _) => MovesBack(a);
    case AtomicAsm(_, _, _, _, _, _) | ReserveAsm(_, _, _, _) => AtomicsBack(a);
    case CsrAsm(_, _, _, _) => CsrsBack(a);
    case SystemAsm(_) | SfenceAsm(_, _) | FenceAsm(_, _) => SystemsBack(a);
  }
}

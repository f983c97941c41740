/** Base instructions by major opcode, their 32-bit encodings (RISC-V Unprivileged
    ISA 20191213, sections 2.2-2.6), and the proof that dec32 undoes them. */
module Encode {
  import opened Wrappers
  import opened Decode

  /** A base instruction; immediates are already sign-extended, `f3` and `f7` are
      the function fields of the encoding. */
  datatype Base =
    | LuiForm(rd: bv5, imm: bv64)
    | JalForm(rd: bv5, imm: bv64)
    | JalrForm(rd: bv5, rs1: bv5, imm: bv64)
    | BranchForm(f3: bv32, rs1: bv5, rs2: bv5, imm: bv64)
    | LoadForm(f3: bv32, rd: bv5, rs1: bv5, imm: bv64)
    | StoreForm(f3: bv32, rs1: bv5, rs2: bv5, imm: bv64)
    | FldForm(rd: bv5, rs1: bv5, imm: bv64)
    | FsdForm(rs1: bv5, rs2: bv5, imm: bv64)
    | ImmForm(f3: bv32, rd: bv5, rs1: bv5, imm: bv64)
    | ShiftForm(f3: bv32, f7: bv32, rd: bv5, rs1: bv5, shamt: bv64)
    | RegForm(f3: bv32, f7: bv32, rd: bv5, rs1: bv5, rs2: bv5)
    | RegWForm(f3: bv32, f7: bv32, rd: bv5, rs1: bv5, rs2: bv5)
    | AddiwForm(rd: bv5, rs1: bv5, imm: bv64)
    | EbreakForm

  /** `imm` is the sign extension of a field whose top bit has this mask. */
  predicate Extends(imm: bv64, mask: bv64) { imm & mask == 0 || imm & mask == mask }

  predicate Short(imm: bv64) { Extends(imm, 0xffff_ffff_ffff_f800) }

  /** The operands fit the format and the function fields name an operation. */
  predicate Encodable(b: Base) {
    match b
    case LuiForm(_, imm) => Extends(imm, 0xffff_ffff_8000_0000) && imm & 0xfff == 0
    case JalForm(_, imm) => Extends(imm, 0xffff_ffff_fff0_0000) && imm & 1 == 0
    case JalrForm(_, _, imm) => Short(imm)
    case BranchForm(f3, _, _, imm) =>
      f3 < 8 && BranchOp(f3).Some? && Extends(imm, 0xffff_ffff_ffff_f000) && imm & 1 == 0
    case LoadForm(f3, _, _, imm) => f3 < 8 && LoadOp(f3).Some? && Short(imm)
    case StoreForm(f3, _, _, imm) => f3 < 8 && StoreOp(f3).Some? && Short(imm)
    case FldForm(_, _, imm) => Short(imm)
    case FsdForm(_, _, imm) => Short(imm)
    case ImmForm(f3, _, _, imm) => f3 < 8 && f3 != 1 && f3 != 5 && Short(imm)
    case ShiftForm(f3, f7, _, _, shamt) => (f3 == 1 || f3 == 5) && (f7 == 0 || f7 == 0x20) && shamt & 0x3f == shamt
    case RegForm(f3, f7, _, _, _) => f3 < 8 && (f7 == 0 || f7 == 0x20)
    case RegWForm(f3, f7, _, _, _) => f3 < 8 && (f7 == 0 || f7 == 0x20) && RegWOp(f3, f7 == 0x20).Some?
    case AddiwForm(_, _, imm) => Short(imm)
    case EbreakForm => true
  }

  // ------------------------------------------------------------------ formats

  function EncodeR(opcode: bv32, f3: bv32, f7: bv32, rd: bv5, rs1: bv5, rs2: bv5): bv32 {
    opcode | ((rd as bv32) << 7) | (f3 << 12) | ((rs1 as bv32) << 15) | ((rs2 as bv32) << 20) | (f7 << 25)
  }

  function EncodeI(opcode: bv32, f3: bv32, rd: bv5, rs1: bv5, imm: bv64): bv32 {
    opcode | ((rd as bv32) << 7) | (f3 << 12) | ((rs1 as bv32) << 15) | (((imm & 0xfff) as bv32) << 20)
  }

  function EncodeShift(opcode: bv32, f3: bv32, f7: bv32, rd: bv5, rs1: bv5, shamt: bv64): bv32 {
    opcode | ((rd as bv32) << 7) | (f3 << 12) | ((rs1 as bv32) << 15) | (((shamt & 0x3f) as bv32) << 20) | (f7 << 25)
  }

  function EncodeS(opcode: bv32, f3: bv32, rs1: bv5, rs2: bv5, imm: bv64): bv32 {
    opcode | (((imm & 0x1f) as bv32) << 7) | (f3 << 12) | ((rs1 as bv32) << 15) | ((rs2 as bv32) << 20)
    | ((((imm >> 5) & 0x7f) as bv32) << 25)
  }

  function EncodeB(opcode: bv32, f3: bv32, rs1: bv5, rs2: bv5, imm: bv64): bv32 {
    opcode | ((((imm >> 11) & 1) as bv32) << 7) | ((((imm >> 1) & 0xf) as bv32) << 8) | (f3 << 12)
    | ((rs1 as bv32) << 15) | ((rs2 as bv32) << 20) | ((((imm >> 5) & 0x3f) as bv32) << 25)
    | ((((imm >> 12) & 1) as bv32) << 31)
  }

  function EncodeU(opcode: bv32, rd: bv5, imm: bv64): bv32 {
    opcode | ((rd as bv32) << 7) | ((imm & 0xffff_f000) as bv32)
  }

  function EncodeJ(opcode: bv32, rd: bv5, imm: bv64): bv32 {
    opcode | ((rd as bv32) << 7) | ((((imm >> 12) & 0xff) as bv32) << 12) | ((((imm >> 11) & 1) as bv32) << 20)
    | ((((imm >> 1) & 0x3ff) as bv32) << 21) | ((((imm >> 20) & 1) as bv32) << 31)
  }

  /** The instruction word. */
  function Encoded(b: Base): bv32 {
    match b
    case LuiForm(rd, imm) => EncodeU(0x37, rd, imm)
    case JalForm(rd, imm) => EncodeJ(0x6f, rd, imm)
    case JalrForm(rd, rs1, imm) => EncodeI(0x67, 0, rd, rs1, imm)
    case BranchForm(f3, rs1, rs2, imm) => EncodeB(0x63, f3, rs1, rs2, imm)
    case LoadForm(f3, rd, rs1, imm) => EncodeI(0x03, f3, rd, rs1, imm)
    case StoreForm(f3, rs1, rs2, imm) => EncodeS(0x23, f3, rs1, rs2, imm)
    case FldForm(rd, rs1, imm) => EncodeI(0x07, 3, rd, rs1, imm)
    case FsdForm(rs1, rs2, imm) => EncodeS(0x27, 3, rs1, rs2, imm)
    case ImmForm(f3, rd, rs1, imm) => EncodeI(0x13, f3, rd, rs1, imm)
    case ShiftForm(f3, f7, rd, rs1, shamt) => EncodeShift(0x13, f3, f7, rd, rs1, shamt)
    case RegForm(f3, f7, rd, rs1, rs2) => EncodeR(0x33, f3, f7, rd, rs1, rs2)
    case RegWForm(f3, f7, rd, rs1, rs2) => EncodeR(0x3b, f3, f7, rd, rs1, rs2)
    case AddiwForm(rd, rs1, imm) => EncodeI(0x1b, 0, rd, rs1, imm)
    case EbreakForm => EncodeR(0x73, 0, 0, 0, 0, 1)
  }

  /** What decoding should give: the operation and the operands, with zero in the
      fields the format does not have. */
  function Meaning(b: Base): Inst
    requires Encodable(b)
  {
    match b
    case LuiForm(rd, imm) => Inst(LUI, rd, 0, 0, imm, 0)
    case JalForm(rd, imm) => Inst(JAL, rd, 0, 0, imm, 0)
    case JalrForm(rd, rs1, imm) => Inst(JALR, rd, rs1, 0, imm, 0)
    case BranchForm(f3, rs1, rs2, imm) => Inst(BranchOp(f3).value, 0, rs1, rs2, imm, 0)
    case LoadForm(f3, rd, rs1, imm) => Inst(LoadOp(f3).value, rd, rs1, 0, imm, 0)
    case StoreForm(f3, rs1, rs2, imm) => Inst(StoreOp(f3).value, 0, rs1, rs2, imm, 0)
    case FldForm(rd, rs1, imm) => Inst(FLD, rd, rs1, 0, imm, 0)
    case FsdForm(rs1, rs2, imm) => Inst(FSD, 0, rs1, rs2, imm, 0)
    case ImmForm(f3, rd, rs1, imm) => Inst(ImmOp(f3, false), rd, rs1, 0, imm, 0)
    case ShiftForm(f3, f7, rd, rs1, shamt) => Inst(ImmOp(f3, f7 == 0x20), rd, rs1, 0, shamt, 0)
    case RegForm(f3, f7, rd, rs1, rs2) => Inst(RegOp(f3, f7 == 0x20), rd, rs1, rs2, 0, 0)
    case RegWForm(f3, f7, rd, rs1, rs2) => Inst(RegWOp(f3, f7 == 0x20).value, rd, rs1, rs2, 0, 0)
    case AddiwForm(rd, rs1, imm) => Inst(ADDIW, rd, rs1, 0, imm, 0)
    case EbreakForm => Inst(EBREAK, 0, 0, 0, 0, 0)
  }

  // ---------------------------------------------------------- fields of a word

  lemma RFields(e: bv32, opcode: bv32, f3: bv32, f7: bv32, rd: bv5, rs1: bv5, rs2: bv5)
    requires opcode < 0x80 && f3 < 8 && f7 < 0x80 && e == EncodeR(opcode, f3, f7, rd, rs1, rs2)
    ensures Opcode(e) == opcode && Funct3(e) == f3 && Rd(e) == rd && Rs1(e) == rs1 && Rs2(e) == rs2
    ensures Funct7(e) == f7
  {
  }

  lemma IFields(e: bv32, opcode: bv32, f3: bv32, rd: bv5, rs1: bv5, imm: bv64)
    requires opcode < 0x80 && f3 < 8 && e == EncodeI(opcode, f3, rd, rs1, imm)
    ensures Opcode(e) == opcode && Funct3(e) == f3 && Rd(e) == rd && Rs1(e) == rs1
    ensures Short(imm) ==> IImm(e) == imm
  {
  }

  lemma ShiftFields(e: bv32, opcode: bv32, f3: bv32, f7: bv32, rd: bv5, rs1: bv5, shamt: bv64)
    requires opcode < 0x80 && f3 < 8 && (f7 == 0 || f7 == 0x20) && e == EncodeShift(opcode, f3, f7, rd, rs1, shamt)
    ensures Opcode(e) == opcode && Funct3(e) == f3 && Rd(e) == rd && Rs1(e) == rs1
    ensures MImm6(e) == shamt & 0x3f && (Funct7(e) & 0x20 != 0 <==> f7 == 0x20)
  {
  }

  lemma SFields(e: bv32, opcode: bv32, f3: bv32, rs1: bv5, rs2: bv5, imm: bv64)
    requires opcode < 0x80 && f3 < 8 && e == EncodeS(opcode, f3, rs1, rs2, imm)
    ensures Opcode(e) == opcode && Funct3(e) == f3 && Rs1(e) == rs1 && Rs2(e) == rs2
    ensures Short(imm) ==> SImm(e) == imm
  {
  }

  lemma BFields(e: bv32, opcode: bv32, f3: bv32, rs1: bv5, rs2: bv5, imm: bv64)
    requires opcode < 0x80 && f3 < 8 && e == EncodeB(opcode, f3, rs1, rs2, imm)
    ensures Opcode(e) == opcode && Funct3(e) == f3 && Rs1(e) == rs1 && Rs2(e) == rs2
    ensures Extends(imm, 0xffff_ffff_ffff_f000) && imm & 1 == 0 ==> BImm(e) == imm
  {
  }

  lemma UFields(e: bv32, rd: bv5, imm: bv64)
    requires e == EncodeU(0x37, rd, imm)
    ensures Opcode(e) == 0x37 && Rd(e) == rd
    ensures Extends(imm, 0xffff_ffff_8000_0000) && imm & 0xfff == 0 ==> UImm(e) == imm
  {
  }

  lemma JFields(e: bv32, rd: bv5, imm: bv64)
    requires e == EncodeJ(0x6f, rd, imm)
    ensures Opcode(e) == 0x6f && Rd(e) == rd
    ensures Extends(imm, 0xffff_ffff_fff0_0000) && imm & 1 == 0 ==> JImm(e) == imm
  {
  }

  // ------------------------------------------------- one lemma a major opcode

  lemma SelectLui(w: Word)
    requires w.opcode == 0x37
    ensures Select(w) == Ok(Inst(LUI, w.rd, w.rs1, w.rs2, w.uImm, 0))
  {
  }

  lemma SelectJal(w: Word)
    requires w.opcode == 0x6f
    ensures Select(w) == Ok(Inst(JAL, w.rd, w.rs1, w.rs2, w.jImm, 0))
  {
  }

  lemma SelectJalr(w: Word)
    requires w.opcode == 0x67
    ensures Select(w) == Ok(Inst(JALR, w.rd, w.rs1, w.rs2, w.iImm, 0))
  {
  }

  lemma SelectBranch(w: Word)
    requires w.opcode == 0x63 && BranchOp(w.f3).Some?
    ensures Select(w) == Ok(Inst(BranchOp(w.f3).value, 0, w.rs1, w.rs2, w.bImm, 0))
  {
  }

  lemma SelectLoad(w: Word)
    requires w.opcode == 0x03 && LoadOp(w.f3).Some?
    ensures Select(w) == Ok(Inst(LoadOp(w.f3).value, w.rd, w.rs1, w.rs2, w.iImm, 0))
  {
  }

  lemma SelectStore(w: Word)
    requires w.opcode == 0x23 && StoreOp(w.f3).Some?
    ensures Select(w) == Ok(Inst(StoreOp(w.f3).value, 0, w.rs1, w.rs2, w.sImm, 0))
  {
  }

  lemma SelectLoadFp(w: Word)
    requires w.opcode == 0x07 && w.f3 == 3
    ensures Select(w) == Ok(Inst(FLD, w.rd, w.rs1, w.rs2, w.iImm, 0))
  {
  }

  lemma SelectStoreFp(w: Word)
    requires w.opcode == 0x27 && w.f3 == 3
    ensures Select(w) == Ok(Inst(FSD, 0, w.rs1, w.rs2, w.sImm, 0))
  {
  }

  lemma SelectOpImm(w: Word)
    requires w.opcode == 0x13 && w.f3 != 1 && w.f3 != 5
    ensures Select(w) == Ok(Inst(ImmOp(w.f3, false), w.rd, w.rs1, w.rs2, w.iImm, 0))
  {
  }

  lemma SelectOpShift(w: Word)
    requires w.opcode == 0x13 && (w.f3 == 1 || w.f3 == 5)
    ensures Select(w) == Ok(Inst(ImmOp(w.f3, w.f7 & 0x20 != 0), w.rd, w.rs1, w.rs2, w.shamt, 0))
  {
  }

  lemma SelectOpReg(w: Word)
    requires w.opcode == 0x33 && (w.f7 == 0 || w.f7 == 0x20)
    ensures Select(w) == Ok(Inst(RegOp(w.f3, w.f7 == 0x20), w.rd, w.rs1, w.rs2, 0, 0))
  {
  }

  lemma SelectOpRegW(w: Word)
    requires w.opcode == 0x3b && (w.f7 == 0 || w.f7 == 0x20) && RegWOp(w.f3, w.f7 == 0x20).Some?
    ensures Select(w) == Ok(Inst(RegWOp(w.f3, w.f7 == 0x20).value, w.rd, w.rs1, w.rs2, 0, 0))
  {
  }

  lemma SelectAddiw(w: Word)
    requires w.opcode == 0x1b && w.f3 == 0
    ensures Select(w) == Ok(Inst(ADDIW, w.rd, w.rs1, w.rs2, w.iImm, 0))
  {
  }

  lemma SelectEbreak(w: Word)
    requires w.opcode == 0x73 && w.f3 == 0 && w.f7 == 0 && w.rs2 == 1
    ensures Select(w) == Ok(Inst(EBREAK, w.rd, w.rs1, w.rs2, 0, w.csr))
  {
  }

  /** The record without the fields that this format does not have. */
  function Strip(b: Base, d: Inst): Inst {
    match b
    case LuiForm(_, _) | JalForm(_, _) => d.(rs1 := 0, rs2 := 0)
    case BranchForm(_, _, _, _) | StoreForm(_, _, _, _) | FsdForm(_, _, _) => d
    case RegForm(_, _, _, _, _) | RegWForm(_, _, _, _, _) => d
    case EbreakForm => Inst(d.op, 0, 0, 0, 0, 0)
    case _ => d.(rs2 := 0)
  }

  /** A decoder's record stands for a base instruction: they differ at most in
      fields its format does not have, or an ADDI to x0 has become a NOP. */
  predicate Realizes(d: Inst, b: Base)
    requires Encodable(b)
  {
    Strip(b, d) == Meaning(b) || (d == Inst(NOP, 0, 0, 0, 0, 0) && b.ImmForm? && b.f3 == 0 && b.rd == 0)
  }

  lemma DecodeLui(e: bv32, rd: bv5, imm: bv64)
    requires Encodable(LuiForm(rd, imm)) && e == Encoded(LuiForm(rd, imm))
    ensures Dec32(e).Ok? && Realizes(Dec32(e).value, LuiForm(rd, imm))
  {
    UFields(e, rd, imm);
    SelectLui(Split(e));
  }

  lemma DecodeJal(e: bv32, rd: bv5, imm: bv64)
    requires Encodable(JalForm(rd, imm)) && e == Encoded(JalForm(rd, imm))
    ensures Dec32(e).Ok? && Realizes(Dec32(e).value, JalForm(rd, imm))
  {
    JFields(e, rd, imm);
    SelectJal(Split(e));
  }

  lemma DecodeJalr(e: bv32, rd: bv5, rs1: bv5, imm: bv64)
    requires Encodable(JalrForm(rd, rs1, imm)) && e == Encoded(JalrForm(rd, rs1, imm))
    ensures Dec32(e).Ok? && Realizes(Dec32(e).value, JalrForm(rd, rs1, imm))
  {
    IFields(e, 0x67, 0, rd, rs1, imm);
    SelectJalr(Split(e));
  }

  lemma DecodeBranch(e: bv32, f3: bv32, rs1: bv5, rs2: bv5, imm: bv64)
    requires Encodable(BranchForm(f3, rs1, rs2, imm)) && e == Encoded(BranchForm(f3, rs1, rs2, imm))
    ensures Dec32(e).Ok? && Realizes(Dec32(e).value, BranchForm(f3, rs1, rs2, imm))
  {
    BFields(e, 0x63, f3, rs1, rs2, imm);
    SelectBranch(Split(e));
  }

  lemma DecodeLoad(e: bv32, f3: bv32, rd: bv5, rs1: bv5, imm: bv64)
    requires Encodable(LoadForm(f3, rd, rs1, imm)) && e == Encoded(LoadForm(f3, rd, rs1, imm))
    ensures Dec32(e).Ok? && Realizes(Dec32(e).value, LoadForm(f3, rd, rs1, imm))
  {
    IFields(e, 0x03, f3, rd, rs1, imm);
    SelectLoad(Split(e));
  }

  lemma DecodeStore(e: bv32, f3: bv32, rs1: bv5, rs2: bv5, imm: bv64)
    requires Encodable(StoreForm(f3, rs1, rs2, imm)) && e == Encoded(StoreForm(f3, rs1, rs2, imm))
    ensures Dec32(e).Ok? && Realizes(Dec32(e).value, StoreForm(f3, rs1, rs2, imm))
  {
    SFields(e, 0x23, f3, rs1, rs2, imm);
    SelectStore(Split(e));
  }

  lemma DecodeLoadFp(e: bv32, rd: bv5, rs1: bv5, imm: bv64)
    requires Encodable(FldForm(rd, rs1, imm)) && e == Encoded(FldForm(rd, rs1, imm))
    ensures Dec32(e).Ok? && Realizes(Dec32(e).value, FldForm(rd, rs1, imm))
  {
    IFields(e, 0x07, 3, rd, rs1, imm);
    SelectLoadFp(Split(e));
  }

  lemma DecodeStoreFp(e: bv32, rs1: bv5, rs2: bv5, imm: bv64)
    requires Encodable(FsdForm(rs1, rs2, imm)) && e == Encoded(FsdForm(rs1, rs2, imm))
    ensures Dec32(e).Ok? && Realizes(Dec32(e).value, FsdForm(rs1, rs2, imm))
  {
    SFields(e, 0x27, 3, rs1, rs2, imm);
    SelectStoreFp(Split(e));
  }

  lemma DecodeOpImm(e: bv32, f3: bv32, rd: bv5, rs1: bv5, imm: bv64)
    requires Encodable(ImmForm(f3, rd, rs1, imm)) && e == Encoded(ImmForm(f3, rd, rs1, imm))
    ensures Dec32(e).Ok? && Realizes(Dec32(e).value, ImmForm(f3, rd, rs1, imm))
  {
    IFields(e, 0x13, f3, rd, rs1, imm);
    SelectOpImm(Split(e));
  }

  lemma DecodeOpShift(e: bv32, f3: bv32, f7: bv32, rd: bv5, rs1: bv5, shamt: bv64)
    requires Encodable(ShiftForm(f3, f7, rd, rs1, shamt)) && e == Encoded(ShiftForm(f3, f7, rd, rs1, shamt))
    ensures Dec32(e).Ok? && Realizes(Dec32(e).value, ShiftForm(f3, f7, rd, rs1, shamt))
  {
    ShiftFields(e, 0x13, f3, f7, rd, rs1, shamt);
    SelectOpShift(Split(e));
  }

  lemma DecodeOpReg(e: bv32, f3: bv32, f7: bv32, rd: bv5, rs1: bv5, rs2: bv5)
    requires Encodable(RegForm(f3, f7, rd, rs1, rs2)) && e == Encoded(RegForm(f3, f7, rd, rs1, rs2))
    ensures Dec32(e).Ok? && Realizes(Dec32(e).value, RegForm(f3, f7, rd, rs1, rs2))
  {
    RFields(e, 0x33, f3, f7, rd, rs1, rs2);
    SelectOpReg(Split(e));
  }

  lemma DecodeOpRegW(e: bv32, f3: bv32, f7: bv32, rd: bv5, rs1: bv5, rs2: bv5)
    requires Encodable(RegWForm(f3, f7, rd, rs1, rs2)) && e == Encoded(RegWForm(f3, f7, rd, rs1, rs2))
    ensures Dec32(e).Ok? && Realizes(Dec32(e).value, RegWForm(f3, f7, rd, rs1, rs2))
  {
    RFields(e, 0x3b, f3, f7, rd, rs1, rs2);
    SelectOpRegW(Split(e));
  }

  lemma DecodeAddiw(e: bv32, rd: bv5, rs1: bv5, imm: bv64)
    requires Encodable(AddiwForm(rd, rs1, imm)) && e == Encoded(AddiwForm(rd, rs1, imm))
    ensures Dec32(e).Ok? && Realizes(Dec32(e).value, AddiwForm(rd, rs1, imm))
  {
    IFields(e, 0x1b, 0, rd, rs1, imm);
    SelectAddiw(Split(e));
  }

  lemma DecodeEbreak(e: bv32)
    requires Encodable(EbreakForm) && e == Encoded(EbreakForm)
    ensures Dec32(e).Ok? && Realizes(Dec32(e).value, EbreakForm)
  {
    RFields(e, 0x73, 0, 0, 0, 0, 1);
    SelectEbreak(Split(e));
  }

  /** dec32 undoes the encoding. */
  lemma DecodeEncoded(b: Base, e: bv32)
    requires Encodable(b) && e == Encoded(b)
    ensures Dec32(e).Ok? && Realizes(Dec32(e).value, b)
  {
    match b
    case LuiForm(rd, imm) => DecodeLui(e, rd, imm);
    case JalForm(rd, imm) => DecodeJal(e, rd, imm);
    case JalrForm(rd, rs1, imm) => DecodeJalr(e, rd, rs1, imm);
    case BranchForm(f3, rs1, rs2, imm) => DecodeBranch(e, f3, rs1, rs2, imm);
    case LoadForm(f3, rd, rs1, imm) => DecodeLoad(e, f3, rd, rs1, imm);
    case StoreForm(f3, rs1, rs2, imm) => DecodeStore(e, f3, rs1, rs2, imm);
    case FldForm(rd, rs1, imm) => DecodeLoadFp(e, rd, rs1, imm);
    case FsdForm(rs1, rs2, imm) => DecodeStoreFp(e, rs1, rs2, imm);
    case ImmForm(f3, rd, rs1, imm) => DecodeOpImm(e, f3, rd, rs1, imm);
    case ShiftForm(f3, f7, rd, rs1, shamt) => DecodeOpShift(e, f3, f7, rd, rs1, shamt);
    case RegForm(f3, f7, rd, rs1, rs2) => DecodeOpReg(e, f3, f7, rd, rs1, rs2);
    case RegWForm(f3, f7, rd, rs1, rs2) => DecodeOpRegW(e, f3, f7, rd, rs1, rs2);
    case AddiwForm(rd, rs1, imm) => DecodeAddiw(e, rd, rs1, imm);
    case EbreakForm => DecodeEbreak(e);
  }
}

/** The two instruction decoders (dec16.c, dec32.c) over bit-vectors. A decoder
    fills a record; what the executor reads of it depends on the operation. */
module Decode {
  import opened Wrappers

  /** Operations whose only effect is a value for rd. */
  datatype AluOp =
    | Lui | Auipc
    | AddI | ShlI | LtI | LtuI | XorI | ShrI | SarI | OrI | AndI
    | AddIW | ShlIW | ShrIW | SarIW
    | Add | Sub | Shl | Lt | Ltu | Xor | Shr | Sar | Or | And
    | AddW | SubW | ShlW | ShrW | SarW
    | Mul | MulH | MulHSU | MulHU | Div | DivU | Rem | RemU
    | MulW | DivW | DivUW | RemW | RemUW

  datatype Cond = Eq | Ne | Less | GreaterEq | LessU | GreaterEqU

  /** The atomic operation carried by a store; Plain is an ordinary one. */
  datatype Amo = Plain | ScAmo | MinAmo | MaxAmo | MinuAmo | MaxuAmo | AddAmo | XorAmo | OrAmo | AndAmo | SwapAmo

  datatype CsrOp = CsrWrite | CsrSet | CsrClear

  /** The operations of operation.h, with those that share code in the executor
      grouped under one constructor. */
  datatype Op =
    | Compute(alu: AluOp)
    | JAL | JALR
    | Branch(cond: Cond)
    | Load(size: nat, signed: bool)
    | Store(size: nat)
    | Reserve(size: nat)
    | Atomic(size: nat, amo: Amo)
    | Csr(cop: CsrOp, useImm: bool)
    | NOP | FENCE | FENCE_I | WFI | SFENCE_VMA
    | ECALL | EBREAK | URET | SRET | MRET
    | FLW | FSW | FMV_W_X | FLD | FSD

  const LUI := Compute(Lui)       const AUIPC := Compute(Auipc)
  const BEQ := Branch(Eq)         const BNE := Branch(Ne)
  const BLT := Branch(Less)       const BGE := Branch(GreaterEq)
  const BLTU := Branch(LessU)     const BGEU := Branch(GreaterEqU)
  const LB := Load(1, true)       const LH := Load(2, true)      const LW := Load(4, true)
  const LD := Load(8, false)
  const LBU := Load(1, false)     const LHU := Load(2, false)    const LWU := Load(4, false)
  const SB := Store(1)            const SH := Store(2)           const SW := Store(4)
  const SD := Store(8)
  const ADDI := Compute(AddI)     const SLLI := Compute(ShlI)    const SLTI := Compute(LtI)
  const SLTIU := Compute(LtuI)    const XORI := Compute(XorI)    const SRLI := Compute(ShrI)
  const SRAI := Compute(SarI)     const ORI := Compute(OrI)      const ANDI := Compute(AndI)
  const ADDIW := Compute(AddIW)   const SLLIW := Compute(ShlIW)  const SRLIW := Compute(ShrIW)
  const SRAIW := Compute(SarIW)
  const ADD := Compute(Add)       const SUB := Compute(Sub)      const SLL := Compute(Shl)
  const SLT := Compute(Lt)        const SLTU := Compute(Ltu)     const XOR := Compute(Xor)
  const SRL := Compute(Shr)       const SRA := Compute(Sar)      const OR := Compute(Or)
  const AND := Compute(And)
  const ADDW := Compute(AddW)     const SUBW := Compute(SubW)    const SLLW := Compute(ShlW)
  const SRLW := Compute(ShrW)     const SRAW := Compute(SarW)
  const MUL := Compute(Mul)       const MULH := Compute(MulH)    const MULHSU := Compute(MulHSU)
  const MULHU := Compute(MulHU)
  const DIV := Compute(Div)       const DIVU := Compute(DivU)    const REM := Compute(Rem)
  const REMU := Compute(RemU)
  const MULW := Compute(MulW)     const DIVW := Compute(DivW)    const DIVUW := Compute(DivUW)
  const REMW := Compute(RemW)     const REMUW := Compute(RemUW)
  const CSRRW := Csr(CsrWrite, false)    const CSRRS := Csr(CsrSet, false)
  const CSRRC := Csr(CsrClear, false)
  const CSRRWI := Csr(CsrWrite, true)    const CSRRSI := Csr(CsrSet, true)
  const CSRRCI := Csr(CsrClear, true)

  datatype Inst = Inst(op: Op, rd: bv5, rs1: bv5, rs2: bv5, imm: bv64, csr: bv12)

  // ------------------------------------------------- 32-bit instruction fields

  function Opcode(i: bv32): bv32 { i & 0x7f }
  function Rd(i: bv32): bv5 { ((i >> 7) & 0x1f) as bv5 }
  function Funct3(i: bv32): bv32 { (i >> 12) & 0x7 }
  function Rs1(i: bv32): bv5 { ((i >> 15) & 0x1f) as bv5 }
  function Rs2(i: bv32): bv5 { ((i >> 20) & 0x1f) as bv5 }
  function Funct7(i: bv32): bv32 { i >> 25 }

  // Immediates: bit 31 is spread over the high bits.

  function IImm(i: bv32): bv64 { (if i >> 31 == 1 then 0xffff_ffff_ffff_f000 else 0) | ((i >> 20) as bv64) }

  function SImm(i: bv32): bv64 {
    (if i >> 31 == 1 then 0xffff_ffff_ffff_f000 else 0) | (((i >> 25) as bv64) << 5) | (((i >> 7) & 0x1f) as bv64)
  }

  function BImm(i: bv32): bv64 {
    (if i >> 31 == 1 then 0xffff_ffff_ffff_f000 else 0) | ((((i >> 7) & 1) as bv64) << 11)
    | ((((i >> 25) & 0x3f) as bv64) << 5)
    | ((((i >> 8) & 0xf) as bv64) << 1)
  }

  function UImm(i: bv32): bv64 { (if i >> 31 == 1 then 0xffff_ffff_0000_0000 else 0) | (((i >> 12) as bv64) << 12) }

  function JImm(i: bv32): bv64 {
    (if i >> 31 == 1 then 0xffff_ffff_fff0_0000 else 0) | ((((i >> 12) & 0xff) as bv64) << 12)
    | ((((i >> 20) & 1) as bv64) << 11)
    | ((((i >> 21) & 0x3ff) as bv64) << 1)
  }

  function MImm6(i: bv32): bv64 { ((i >> 20) & 0x3f) as bv64 }
  function CsrField(i: bv32): bv12 { ((i >> 20) & 0xfff) as bv12 }

  // ------------------------------------------------------------------ dec32

  function BranchOp(f: bv32): Option<Op> {
    if f == 0 then Some(BEQ) else if f == 1 then Some(BNE) else if f == 4 then Some(BLT)
    else if f == 5 then Some(BGE) else if f == 6 then Some(BLTU) else if f == 7 then Some(BGEU) else None
  }

  function LoadOp(f: bv32): Option<Op> {
    if f == 0 then Some(LB) else if f == 1 then Some(LH) else if f == 2 then Some(LW) else if f == 3 then Some(LD)
    else if f == 4 then Some(LBU) else if f == 5 then Some(LHU) else if f == 6 then Some(LWU) else None
  }

  function StoreOp(f: bv32): Option<Op> {
    if f == 0 then Some(SB) else if f == 1 then Some(SH) else if f == 2 then Some(SW) else if f == 3 then Some(SD)
    else None
  }

  function ImmOp(f: bv32, bit30: bool): Op {
    if f == 0 then ADDI else if f == 1 then SLLI else if f == 2 then SLTI else if f == 3 then SLTIU
    else if f == 4 then XORI else if f == 5 then (if bit30 then SRAI else SRLI) else if f == 6 then ORI else ANDI
  }

  function MulOp(f: bv32): Op {
    if f == 0 then MUL else if f == 1 then MULH else if f == 2 then MULHSU else if f == 3 then MULHU
    else if f == 4 then DIV else if f == 5 then DIVU else if f == 6 then REM else REMU
  }

  function RegOp(f: bv32, bit30: bool): Op {
    if f == 0 then (if bit30 then SUB else ADD) else if f == 1 then SLL else if f == 2 then SLT
    else if f == 3 then SLTU else if f == 4 then XOR else if f == 5 then (if bit30 then SRA else SRL)
    else if f == 6 then OR else AND
  }

  function MulWOp(f: bv32): Option<Op> {
    if f == 0 then Some(MULW) else if f == 4 then Some(DIVW) else if f == 5 then Some(DIVUW)
    else if f == 6 then Some(REMW) else if f == 7 then Some(REMUW) else None
  }

  function RegWOp(f: bv32, bit30: bool): Option<Op> {
    if f == 0 then Some(if bit30 then SUBW else ADDW) else if f == 1 then Some(SLLW)
    else if f == 5 then Some(if bit30 then SRAW else SRLW) else None
  }

  /** SYSTEM with funct3 zero. */
  function PrivOp(f7: bv32, rs2: bv5): Option<Op> {
    if f7 == 0 then
      if rs2 == 0 then Some(ECALL) else if rs2 == 1 then Some(EBREAK) else if rs2 == 2 then Some(URET) else None
    else if f7 == 8 then if rs2 == 2 then Some(SRET) else if rs2 == 5 then Some(WFI) else None
    else if f7 == 9 then Some(SFENCE_VMA)
    else if f7 == 24 then Some(MRET)
    else None
  }

  function CsrOpOf(f: bv32): Option<Op> {
    if f == 1 then Some(CSRRW) else if f == 2 then Some(CSRRS) else if f == 3 then Some(CSRRC)
    else if f == 5 then Some(CSRRWI) else if f == 6 then Some(CSRRSI) else if f == 7 then Some(CSRRCI) else None
  }

  /** The operation with funct5 `f5` on a word or doubleword. */
  function AmoOp(f5: bv32, size: nat): Option<Op> {
    if f5 == 0 then Some(Atomic(size, AddAmo)) else if f5 == 1 then Some(Atomic(size, SwapAmo))
    else if f5 == 2 then Some(Reserve(size)) else if f5 == 3 then Some(Atomic(size, ScAmo))
    else if f5 == 4 then Some(Atomic(size, XorAmo)) else if f5 == 8 then Some(Atomic(size, OrAmo))
    else if f5 == 12 then Some(Atomic(size, AndAmo)) else if f5 == 16 then Some(Atomic(size, MinAmo))
    else if f5 == 20 then Some(Atomic(size, MaxAmo)) else if f5 == 24 then Some(Atomic(size, MinuAmo))
    else if f5 == 28 then Some(Atomic(size, MaxuAmo)) else None
  }

  /** Finish a record, or panic when the operation is unknown. */
  function Known(op: Option<Op>, rest: Inst): Outcome<Inst> {
    match op case None => Stop(Panic) case Some(o) => Ok(rest.(op := o))
  }

  /** Every field an instruction word may have. */
  datatype Word = Word(opcode: bv32, f3: bv32, f7: bv32, rd: bv5, rs1: bv5, rs2: bv5, shamt: bv64,
                       iImm: bv64, sImm: bv64, bImm: bv64, uImm: bv64, jImm: bv64, csr: bv12)

  function Split(i: bv32): Word {
    Word(Opcode(i), Funct3(i), Funct7(i), Rd(i), Rs1(i), Rs2(i), MImm6(i),
         IImm(i), SImm(i), BImm(i), UImm(i), JImm(i), CsrField(i))
  }

  /** The switch of dec32 on the fields of a word. */
  function Select(w: Word): Outcome<Inst> {
    var d, f, bit30 := Inst(NOP, w.rd, w.rs1, w.rs2, 0, 0), w.f3, w.f7 & 0x20 != 0;
    if w.opcode == 0x37 then Ok(d.(op := LUI, imm := w.uImm))
    else if w.opcode == 0x17 then Ok(d.(op := AUIPC, imm := w.uImm))
    else if w.opcode == 0x6f then Ok(d.(op := JAL, imm := w.jImm))
    else if w.opcode == 0x67 then Ok(d.(op := JALR, imm := w.iImm))
    else if w.opcode == 0x63 then Known(BranchOp(f), d.(rd := 0, imm := w.bImm))
    else if w.opcode == 0x03 then Known(LoadOp(f), d.(imm := w.iImm))
    else if w.opcode == 0x23 then Known(StoreOp(f), d.(rd := 0, imm := w.sImm))
    else if w.opcode == 0x07 then
      Known(if f == 2 then Some(FLW) else if f == 3 then Some(FLD) else None, d.(imm := w.iImm))
    else if w.opcode == 0x27 then
      Known(if f == 2 then Some(FSW) else if f == 3 then Some(FSD) else None, d.(rd := 0, imm := w.sImm))
    else if w.opcode == 0x13 then
      Ok(d.(op := ImmOp(f, bit30), imm := if f == 1 || f == 5 then w.shamt else w.iImm))
    else if w.opcode == 0x1b then
      if f == 0 then Ok(d.(op := ADDIW, imm := w.iImm))
      else if f == 1 then Ok(d.(op := SLLIW, imm := w.rs2 as bv64))
      else if f == 5 then Ok(d.(op := if bit30 then SRAIW else SRLIW, imm := w.rs2 as bv64))
      else Stop(Panic)
    else if w.opcode == 0x33 then Ok(d.(op := if w.f7 == 1 then MulOp(f) else RegOp(f, bit30)))
    else if w.opcode == 0x3b then Known(if w.f7 == 1 then MulWOp(f) else RegWOp(f, bit30), d)
    else if w.opcode == 0x0f then Known(if f == 0 then Some(FENCE) else if f == 1 then Some(FENCE_I) else None, d)
    else if w.opcode == 0x73 then
      Known(if f == 0 then PrivOp(w.f7, w.rs2) else CsrOpOf(f),
            d.(imm := if f >= 5 then w.rs1 as bv64 else 0, csr := w.csr))
    else if w.opcode == 0x2f then Known(AmoOp(w.f7 >> 2, if f == 3 then 8 else 4), d)
    else if w.opcode == 0x53 then Known(if w.f7 == 0x78 then Some(FMV_W_X) else None, d)
    else Stop(Panic)
  }

  function Dec32(i: bv32): Outcome<Inst> { Select(Split(i)) }

  // ------------------------------------------------- 16-bit instruction fields

  function Quadrant(i: bv16): bv16 { i & 3 }
  function CFunct3(i: bv16): bv16 { i >> 13 }
  function CRd(i: bv16): bv5 { ((i >> 7) & 0x1f) as bv5 }
  function CRs2(i: bv16): bv5 { ((i >> 2) & 0x1f) as bv5 }
  /** The three-bit register fields name x8 to x15. */
  function CRdLow(i: bv16): bv5 { 8 + (((i >> 2) & 0x7) as bv5) }
  function CRs1Low(i: bv16): bv5 { 8 + (((i >> 7) & 0x7) as bv5) }
  predicate Bit12(i: bv16) { (i >> 12) & 1 == 1 }

  function NCImm(i: bv16): bv64 {
    ((((i >> 7) & 0xf) as bv64) << 6) | ((((i >> 11) & 0x3) as bv64) << 4) | ((((i >> 5) & 1) as bv64) << 3)
    | ((((i >> 6) & 1) as bv64) << 2)
  }
  function UCImm(i: bv16): bv64 {
    ((((i >> 5) & 1) as bv64) << 6) | ((((i >> 10) & 0x7) as bv64) << 3)
    | ((((i >> 6) & 1) as bv64) << 2)
  }
  function UDCImm(i: bv16): bv64 { ((((i >> 5) & 0x3) as bv64) << 6) | ((((i >> 10) & 0x7) as bv64) << 3) }
  function ICImm(i: bv16): bv64 {
    (if (i >> 12) & 1 == 1 then 0xffff_ffff_ffff_ffe0 else 0)
    | (((i >> 2) & 0x1f) as bv64)
  }
  function DCImm(i: bv16): bv64 {
    (if (i >> 12) & 1 == 1 then 0xffff_ffff_ffff_fe00 else 0) | ((((i >> 3) & 0x3) as bv64) << 7)
    | ((((i >> 5) & 1) as bv64) << 6) | ((((i >> 2) & 1) as bv64) << 5) | ((((i >> 6) & 1) as bv64) << 4)
  }
  function UICImm(i: bv16): bv64 { ((((i >> 12) & 1) as bv64) << 5) | (((i >> 2) & 0x1f) as bv64) }
  function JCImm(i: bv16): bv64 {
    (if (i >> 12) & 1 == 1 then 0xffff_ffff_ffff_f800 else 0) | ((((i >> 8) & 1) as bv64) << 10)
    | ((((i >> 9) & 0x3) as bv64) << 8) | ((((i >> 6) & 1) as bv64) << 7)
    | ((((i >> 7) & 1) as bv64) << 6) | ((((i >> 2) & 1) as bv64) << 5) | ((((i >> 11) & 1) as bv64) << 4)
    | ((((i >> 3) & 0x7) as bv64) << 1)
  }
  function BCImm(i: bv16): bv64 {
    (if (i >> 12) & 1 == 1 then 0xffff_ffff_ffff_ff00 else 0) | ((((i >> 5) & 0x3) as bv64) << 6)
    | ((((i >> 2) & 1) as bv64) << 5) | ((((i >> 10) & 0x3) as bv64) << 3)
    | ((((i >> 3) & 0x3) as bv64) << 1)
  }
  function LwspImm(i: bv16): bv64 {
    ((((i >> 2) & 0x3) as bv64) << 6) | ((((i >> 12) & 1) as bv64) << 5)
    | ((((i >> 4) & 0x7) as bv64) << 2)
  }
  function LdspImm(i: bv16): bv64 {
    ((((i >> 2) & 0x7) as bv64) << 6) | ((((i >> 12) & 1) as bv64) << 5)
    | ((((i >> 5) & 0x3) as bv64) << 3)
  }
  function SwspImm(i: bv16): bv64 { ((((i >> 7) & 0x3) as bv64) << 6) | ((((i >> 9) & 0xf) as bv64) << 2) }
  function SdspImm(i: bv16): bv64 { ((((i >> 7) & 0x7) as bv64) << 6) | ((((i >> 10) & 0x7) as bv64) << 3) }

  // ------------------------------------------------------------------ dec16

  function Quadrant0(i: bv16): Outcome<Inst> {
    var f := CFunct3(i);
    var load, store := Inst(NOP, CRdLow(i), CRs1Low(i), 0, 0, 0), Inst(NOP, 0, CRs1Low(i), CRdLow(i), 0, 0);
    if f == 0 then Ok(Inst(ADDI, CRdLow(i), 2, 0, NCImm(i), 0))
    else if f == 1 then Ok(load.(op := FLD, imm := UDCImm(i)))
    else if f == 2 then Ok(load.(op := LW, imm := UCImm(i)))
    else if f == 3 then Ok(load.(op := LD, imm := UDCImm(i)))
    else if f == 5 then Ok(store.(op := FSD, imm := UDCImm(i)))
    else if f == 6 then Ok(store.(op := SW, imm := UCImm(i)))
    else if f == 7 then Ok(store.(op := SD, imm := UDCImm(i)))
    else Stop(Panic)
  }

  function Arith(i: bv16): Inst {
    var r := CRs1Low(i);
    var kind, sub := (i >> 10) & 3, (i >> 5) & 3;
    if kind == 0 then Inst(SRLI, r, r, 0, UICImm(i), 0)
    else if kind == 1 then Inst(SRAI, r, r, 0, UICImm(i), 0)
    else if kind == 2 then Inst(ANDI, r, r, 0, ICImm(i), 0)
    else
      Inst(if sub == 0 then (if Bit12(i) then SUBW else SUB)
           else if sub == 1 then (if Bit12(i) then ADDW else XOR)
           else if sub == 2 then OR else AND,
           r, r, CRdLow(i), 0, 0)
  }

  function Quadrant1(i: bv16): Outcome<Inst> {
    var f, rd := CFunct3(i), CRd(i);
    if f == 0 then Ok(if rd != 0 then Inst(ADDI, rd, rd, 0, ICImm(i), 0) else Inst(NOP, 0, 0, 0, 0, 0))
    else if f == 1 then Ok(Inst(ADDIW, rd, rd, 0, ICImm(i), 0))
    else if f == 2 then Ok(Inst(ADDI, rd, 0, 0, ICImm(i), 0))
    else if f == 3 then
      Ok(if rd == 2 then Inst(ADDI, rd, 2, 0, DCImm(i), 0) else Inst(LUI, rd, 0, 0, ICImm(i) << 12, 0))
    else if f == 4 then Ok(Arith(i))
    else if f == 5 then Ok(Inst(JAL, 0, 0, 0, JCImm(i), 0))
    else if f == 6 then Ok(Inst(BEQ, 0, CRs1Low(i), 0, BCImm(i), 0))
    else Ok(Inst(BNE, 0, CRs1Low(i), 0, BCImm(i), 0))
  }

  /** c.jr, c.mv, c.ebreak, c.jalr and c.add. */
  function Moves(i: bv16): Inst {
    var r, rs2 := CRd(i), CRs2(i);
    if Bit12(i) then
      if r != 0 then
        if rs2 != 0 then Inst(ADD, r, r, rs2, 0, 0) else Inst(JALR, 1, r, 0, 0, 0)
      else Inst(EBREAK, 0, 0, 0, 0, 0)
    else if rs2 != 0 then Inst(ADD, r, 0, rs2, 0, 0)
    else Inst(JALR, 0, r, 0, 0, 0)
  }

  function Quadrant2(i: bv16): Outcome<Inst> {
    var f, rd, rs2 := CFunct3(i), CRd(i), CRs2(i);
    if f == 0 then Ok(Inst(SLLI, rd, rd, 0, UICImm(i), 0))
    else if f == 1 then Ok(Inst(FLD, rd, 2, 0, LdspImm(i), 0))
    else if f == 2 then Ok(Inst(LW, rd, 2, 0, LwspImm(i), 0))
    else if f == 3 then Ok(Inst(LD, rd, 2, 0, LdspImm(i), 0))
    else if f == 4 then Ok(Moves(i))
    else if f == 6 then Ok(Inst(SW, 0, 2, rs2, SwspImm(i), 0))
    else if f == 7 then Ok(Inst(SD, 0, 2, rs2, SdspImm(i), 0))
    else Stop(Panic)
  }

  function Dec16(i: bv16): Outcome<Inst> {
    if Quadrant(i) == 0 then Quadrant0(i)
    else if Quadrant(i) == 1 then Quadrant1(i)
    else if Quadrant(i) == 2 then Quadrant2(i)
    else Stop(Panic)
  }
}

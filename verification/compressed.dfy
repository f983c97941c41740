/** Compressed instructions mean what their 32-bit expansions mean. The
    expansions are those of chapter 16 of the RISC-V Unprivileged ISA (20191213),
    with immediates assembled bit by bit, independently of the decoders. */
module Compressed {
  import opened Wrappers
  import opened Decode
  import opened Encode

  // ------------------------------------- immediates, one instruction bit a term

  function Imm6(i: bv16): bv64 {
    (if (i >> 12) & 1 == 1 then 0xffff_ffff_ffff_ffe0 else 0) | ((((i >> 6) & 1) as bv64) << 4)
    | ((((i >> 5) & 1) as bv64) << 3) | ((((i >> 4) & 1) as bv64) << 2) | ((((i >> 3) & 1) as bv64) << 1)
    | (((i >> 2) & 1) as bv64)
  }

  function Shamt(i: bv16): bv64 {
    ((((i >> 12) & 1) as bv64) << 5) | ((((i >> 6) & 1) as bv64) << 4) | ((((i >> 5) & 1) as bv64) << 3)
    | ((((i >> 4) & 1) as bv64) << 2) | ((((i >> 3) & 1) as bv64) << 1) | (((i >> 2) & 1) as bv64)
  }

  function Nzuimm(i: bv16): bv64 {
    ((((i >> 12) & 1) as bv64) << 5) | ((((i >> 11) & 1) as bv64) << 4) | ((((i >> 10) & 1) as bv64) << 9)
    | ((((i >> 9) & 1) as bv64) << 8) | ((((i >> 8) & 1) as bv64) << 7) | ((((i >> 7) & 1) as bv64) << 6)
    | ((((i >> 6) & 1) as bv64) << 2) | ((((i >> 5) & 1) as bv64) << 3)
  }

  function OffW(i: bv16): bv64 {
    ((((i >> 12) & 1) as bv64) << 5) | ((((i >> 11) & 1) as bv64) << 4) | ((((i >> 10) & 1) as bv64) << 3)
    | ((((i >> 6) & 1) as bv64) << 2) | ((((i >> 5) & 1) as bv64) << 6)
  }

  function OffD(i: bv16): bv64 {
    ((((i >> 12) & 1) as bv64) << 5) | ((((i >> 11) & 1) as bv64) << 4) | ((((i >> 10) & 1) as bv64) << 3)
    | ((((i >> 6) & 1) as bv64) << 7) | ((((i >> 5) & 1) as bv64) << 6)
  }

  function Imm16sp(i: bv16): bv64 {
    (if (i >> 12) & 1 == 1 then 0xffff_ffff_ffff_fe00 else 0) | ((((i >> 6) & 1) as bv64) << 4)
    | ((((i >> 5) & 1) as bv64) << 6) | ((((i >> 4) & 1) as bv64) << 8) | ((((i >> 3) & 1) as bv64) << 7)
    | ((((i >> 2) & 1) as bv64) << 5)
  }

  function ImmLui(i: bv16): bv64 {
    (if (i >> 12) & 1 == 1 then 0xffff_ffff_fffe_0000 else 0) | ((((i >> 6) & 1) as bv64) << 16)
    | ((((i >> 5) & 1) as bv64) << 15) | ((((i >> 4) & 1) as bv64) << 14) | ((((i >> 3) & 1) as bv64) << 13)
    | ((((i >> 2) & 1) as bv64) << 12)
  }

  function OffJ(i: bv16): bv64 {
    (if (i >> 12) & 1 == 1 then 0xffff_ffff_ffff_f800 else 0) | ((((i >> 11) & 1) as bv64) << 4)
    | ((((i >> 10) & 1) as bv64) << 9) | ((((i >> 9) & 1) as bv64) << 8) | ((((i >> 8) & 1) as bv64) << 10)
    | ((((i >> 7) & 1) as bv64) << 6) | ((((i >> 6) & 1) as bv64) << 7) | ((((i >> 5) & 1) as bv64) << 3)
    | ((((i >> 4) & 1) as bv64) << 2) | ((((i >> 3) & 1) as bv64) << 1) | ((((i >> 2) & 1) as bv64) << 5)
  }

  function OffB(i: bv16): bv64 {
    (if (i >> 12) & 1 == 1 then 0xffff_ffff_ffff_ff00 else 0) | ((((i >> 11) & 1) as bv64) << 4)
    | ((((i >> 10) & 1) as bv64) << 3) | ((((i >> 6) & 1) as bv64) << 7) | ((((i >> 5) & 1) as bv64) << 6)
    | ((((i >> 4) & 1) as bv64) << 2) | ((((i >> 3) & 1) as bv64) << 1) | ((((i >> 2) & 1) as bv64) << 5)
  }

  function OffLwsp(i: bv16): bv64 {
    ((((i >> 12) & 1) as bv64) << 5) | ((((i >> 6) & 1) as bv64) << 4) | ((((i >> 5) & 1) as bv64) << 3)
    | ((((i >> 4) & 1) as bv64) << 2) | ((((i >> 3) & 1) as bv64) << 7) | ((((i >> 2) & 1) as bv64) << 6)
  }

  function OffLdsp(i: bv16): bv64 {
    ((((i >> 12) & 1) as bv64) << 5) | ((((i >> 6) & 1) as bv64) << 4) | ((((i >> 5) & 1) as bv64) << 3)
    | ((((i >> 4) & 1) as bv64) << 8) | ((((i >> 3) & 1) as bv64) << 7) | ((((i >> 2) & 1) as bv64) << 6)
  }

  function OffSwsp(i: bv16): bv64 {
    ((((i >> 12) & 1) as bv64) << 5) | ((((i >> 11) & 1) as bv64) << 4) | ((((i >> 10) & 1) as bv64) << 3)
    | ((((i >> 9) & 1) as bv64) << 2) | ((((i >> 8) & 1) as bv64) << 7) | ((((i >> 7) & 1) as bv64) << 6)
  }

  function OffSdsp(i: bv16): bv64 {
    ((((i >> 12) & 1) as bv64) << 5) | ((((i >> 11) & 1) as bv64) << 4) | ((((i >> 10) & 1) as bv64) << 3)
    | ((((i >> 9) & 1) as bv64) << 8) | ((((i >> 8) & 1) as bv64) << 7) | ((((i >> 7) & 1) as bv64) << 6)
  }

  // ---------------------------------------------------------------- expansion

  function Expand0(i: bv16): Option<Base> {
    var f, rd, rs1 := i >> 13, CRdLow(i), CRs1Low(i);
    if f == 0 then if Nzuimm(i) == 0 then None else Some(ImmForm(0, rd, 2, Nzuimm(i)))
    else if f == 1 then Some(FldForm(rd, rs1, OffD(i)))
    else if f == 2 then Some(LoadForm(2, rd, rs1, OffW(i)))
    else if f == 3 then Some(LoadForm(3, rd, rs1, OffD(i)))
    else if f == 4 then None
    else if f == 5 then Some(FsdForm(rs1, rd, OffD(i)))
    else if f == 6 then Some(StoreForm(2, rs1, rd, OffW(i)))
    else Some(StoreForm(3, rs1, rd, OffD(i)))
  }

  function ExpandArith(i: bv16): Option<Base> {
    var r, r2, kind, sub, w := CRs1Low(i), CRdLow(i), (i >> 10) & 3, (i >> 5) & 3, (i >> 12) & 1 == 1;
    if kind == 0 then Some(ShiftForm(5, 0, r, r, Shamt(i)))
    else if kind == 1 then Some(ShiftForm(5, 0x20, r, r, Shamt(i)))
    else if kind == 2 then Some(ImmForm(7, r, r, Imm6(i)))
    else if !w then
      Some(RegForm(if sub == 0 then 0 else if sub == 1 then 4 else if sub == 2 then 6 else 7,
                 if sub == 0 then 0x20 else 0, r, r, r2))
    else if sub == 0 then Some(RegWForm(0, 0x20, r, r, r2))
    else if sub == 1 then Some(RegWForm(0, 0, r, r, r2))
    else None
  }

  function Expand1(i: bv16): Option<Base> {
    var f, rd, rs1 := i >> 13, CRd(i), CRs1Low(i);
    if f == 0 then Some(ImmForm(0, rd, rd, Imm6(i)))
    else if f == 1 then if rd == 0 then None else Some(AddiwForm(rd, rd, Imm6(i)))
    else if f == 2 then Some(ImmForm(0, rd, 0, Imm6(i)))
    else if f == 3 then
      if rd == 2 then if Imm16sp(i) == 0 then None else Some(ImmForm(0, 2, 2, Imm16sp(i)))
      else if ImmLui(i) == 0 then None else Some(LuiForm(rd, ImmLui(i)))
    else if f == 4 then ExpandArith(i)
    else if f == 5 then Some(JalForm(0, OffJ(i)))
    else if f == 6 then Some(BranchForm(0, rs1, 0, OffB(i)))
    else Some(BranchForm(1, rs1, 0, OffB(i)))
  }

  function ExpandMoves(i: bv16): Option<Base> {
    var rd, rs2 := CRd(i), CRs2(i);
    if (i >> 12) & 1 == 0 then
      if rs2 != 0 then Some(RegForm(0, 0, rd, 0, rs2)) else if rd == 0 then None else Some(JalrForm(0, rd, 0))
    else if rs2 != 0 then Some(RegForm(0, 0, rd, rd, rs2))
    else if rd == 0 then Some(EbreakForm)
    else Some(JalrForm(1, rd, 0))
  }

  function Expand2(i: bv16): Option<Base> {
    var f, rd, rs2 := i >> 13, CRd(i), CRs2(i);
    if f == 0 then Some(ShiftForm(1, 0, rd, rd, Shamt(i)))
    else if f == 1 then Some(FldForm(rd, 2, OffLdsp(i)))
    else if f == 2 then if rd == 0 then None else Some(LoadForm(2, rd, 2, OffLwsp(i)))
    else if f == 3 then if rd == 0 then None else Some(LoadForm(3, rd, 2, OffLdsp(i)))
    else if f == 4 then ExpandMoves(i)
    else if f == 5 then Some(FsdForm(2, rs2, OffSdsp(i)))
    else if f == 6 then Some(StoreForm(2, 2, rs2, OffSwsp(i)))
    else Some(StoreForm(3, 2, rs2, OffSdsp(i)))
  }

  /** The instruction an RV64DC encoding stands for (tables 16.5 to 16.7); None
      if the encoding is reserved, illegal or not 16 bits long. */
  function Expand(i: bv16): Option<Base> {
    if i & 3 == 0 then Expand0(i) else if i & 3 == 1 then Expand1(i) else if i & 3 == 2 then Expand2(i) else None
  }

  // ------------------------------------------------------------- equivalence

  /** C.FSDSP, which dec16 does not know. */
  predicate IsFsdsp(i: bv16) { i & 3 == 2 && i >> 13 == 5 }

  /** C.ADD to x0 with a nonzero source: a hint, that is a no-op, in the standard;
      dec16 takes every such word with rd zero for C.EBREAK. */
  predicate IsAddHint(i: bv16) { i & 3 == 2 && i >> 13 == 4 && (i >> 12) & 1 == 1 && CRd(i) == 0 && CRs2(i) != 0 }

  lemma Immediates0(i: bv16)
    ensures Nzuimm(i) == NCImm(i) && OffW(i) == UCImm(i) && OffD(i) == UDCImm(i)
    ensures OffLwsp(i) == LwspImm(i) && OffLdsp(i) == LdspImm(i)
    ensures OffSwsp(i) == SwspImm(i) && OffSdsp(i) == SdspImm(i) && Shamt(i) == UICImm(i)
  {
  }

  lemma Immediates1(i: bv16)
    ensures Imm6(i) == ICImm(i) && Imm16sp(i) == DCImm(i) && ImmLui(i) == ICImm(i) << 12
    ensures OffJ(i) == JCImm(i) && OffB(i) == BCImm(i)
  {
  }

  /** No immediate is too wide for its 32-bit format. */
  lemma ImmediatesFit0(i: bv16)
    ensures Short(NCImm(i)) && Short(UCImm(i)) && Short(UDCImm(i)) && Short(LwspImm(i)) && Short(LdspImm(i))
    ensures Short(SwspImm(i)) && Short(SdspImm(i)) && UICImm(i) & 0x3f == UICImm(i)
  {
  }

  lemma ImmediatesFit1(i: bv16)
    ensures Short(ICImm(i)) && Short(DCImm(i))
    ensures Extends(ICImm(i) << 12, 0xffff_ffff_8000_0000) && (ICImm(i) << 12) & 0xfff == 0
    ensures Extends(JCImm(i), 0xffff_ffff_fff0_0000) && JCImm(i) & 1 == 0
    ensures Extends(BCImm(i), 0xffff_ffff_ffff_f000) && BCImm(i) & 1 == 0
  {
  }

  /** dec16 accepts the instruction and stands for its expansion. */
  ghost predicate Agrees(i: bv16) {
    Expand(i).Some? && Encodable(Expand(i).value) && Dec16(i).Ok? && Realizes(Dec16(i).value, Expand(i).value)
  }

  lemma AgreesLoads(i: bv16)
    requires i & 3 == 0 && i >> 13 < 4 && Expand(i).Some?
    ensures Agrees(i)
  {
    Immediates0(i);
    ImmediatesFit0(i);
  }

  lemma AgreesStores(i: bv16)
    requires i & 3 == 0 && i >> 13 >= 4 && Expand(i).Some?
    ensures Agrees(i)
  {
    Immediates0(i);
    ImmediatesFit0(i);
  }

  lemma AgreesShift(i: bv16)
    requires i & 3 == 1 && i >> 13 == 4 && (i >> 10) & 3 < 2
    ensures Agrees(i)
  {
    Immediates0(i);
    ImmediatesFit0(i);
  }

  lemma AgreesAndi(i: bv16)
    requires i & 3 == 1 && i >> 13 == 4 && (i >> 10) & 3 == 2
    ensures Agrees(i)
  {
    Immediates1(i);
    ImmediatesFit1(i);
  }

  lemma AgreesRegister(i: bv16)
    requires i & 3 == 1 && i >> 13 == 4 && (i >> 10) & 3 == 3 && Expand(i).Some?
    ensures Agrees(i)
  {
  }

  lemma AgreesArith(i: bv16)
    requires i & 3 == 1 && i >> 13 == 4 && Expand(i).Some?
    ensures Agrees(i)
  {
    hide Agrees, Expand;
    if (i >> 10) & 3 < 2 { AgreesShift(i); } else if (i >> 10) & 3 == 2 { AgreesAndi(i); } else { AgreesRegister(i); }
  }

  lemma AgreesUpper(i: bv16)
    requires i & 3 == 1 && i >> 13 == 3 && Expand(i).Some?
    ensures Agrees(i)
  {
    Immediates1(i);
    ImmediatesFit1(i);
  }

  lemma Agrees1(i: bv16)
    requires i & 3 == 1 && i >> 13 != 3 && i >> 13 != 4 && Expand(i).Some?
    ensures Agrees(i)
  {
    Immediates1(i);
    ImmediatesFit1(i);
  }

  lemma AgreesMoves(i: bv16)
    requires i & 3 == 2 && i >> 13 == 4 && Expand(i).Some?
    ensures Agrees(i) <==> !IsAddHint(i)
  {
  }

  lemma AgreesSpLoads(i: bv16)
    requires i & 3 == 2 && i >> 13 < 4 && Expand(i).Some?
    ensures Agrees(i)
  {
    Immediates0(i);
    ImmediatesFit0(i);
  }

  lemma AgreesSpStores(i: bv16)
    requires i & 3 == 2 && i >> 13 > 4 && Expand(i).Some?
    ensures Agrees(i) <==> !IsFsdsp(i)
  {
    Immediates0(i);
    ImmediatesFit0(i);
  }

  /** Of the encodings that are not reserved, dec16 agrees with exactly those that
      are neither C.FSDSP nor a C.ADD hint. */
  lemma AgreesIff(i: bv16)
    requires Expand(i).Some?
    ensures Agrees(i) <==> !IsFsdsp(i) && !IsAddHint(i)
  {
    if i & 3 == 0 {
      if i >> 13 < 4 { AgreesLoads(i); } else { AgreesStores(i); }
    } else if i & 3 == 1 {
      if i >> 13 == 3 { AgreesUpper(i); } else if i >> 13 == 4 { AgreesArith(i); } else { Agrees1(i); }
    } else if i >> 13 == 4 {
      AgreesMoves(i);
    } else {
      if i >> 13 < 4 { AgreesSpLoads(i); } else { AgreesSpStores(i); }
    }
  }

  // ------------------------------------------------------ reserved encodings

  /** Of the reserved 16-bit encodings dec16 refuses exactly one family, the one in
      quadrant 0 with funct3 4; it takes all others for instructions. */
  lemma ReservedIff(i: bv16)
    requires Expand(i).None?
    ensures Dec16(i).Ok? <==> i & 3 != 3 && !(i & 3 == 0 && i >> 13 == 4)
  {
    if i & 3 == 0 { Reserved0(i); } else if i & 3 == 1 { Reserved1(i); } else if i & 3 == 2 { Reserved2(i); }
  }

  /** What dec16 takes an accepted reserved encoding for: C.ADDI4SPN of 0; C.ADDIW of
      x0; C.ADDI16SP or C.LUI of 0; the word forms of C.OR and C.AND; C.LWSP and
      C.LDSP to x0; C.JR to x0. */
  function TakenFor(i: bv16): Inst {
    var f := i >> 13;
    if i & 3 == 0 then Inst(ADDI, CRdLow(i), 2, 0, 0, 0)
    else if i & 3 == 1 then
      if f == 1 then Inst(ADDIW, 0, 0, 0, Imm6(i), 0)
      else if f == 3 then if CRd(i) == 2 then Inst(ADDI, 2, 2, 0, 0, 0) else Inst(LUI, CRd(i), 0, 0, 0, 0)
      else Inst(if (i >> 5) & 1 == 0 then OR else AND, CRs1Low(i), CRs1Low(i), CRdLow(i), 0, 0)
    else if f == 2 then Inst(LW, 0, 2, 0, OffLwsp(i), 0)
    else if f == 3 then Inst(LD, 0, 2, 0, OffLdsp(i), 0)
    else Inst(JALR, 0, 0, 0, 0, 0)
  }

  lemma Reserved0(i: bv16)
    requires i & 3 == 0 && Expand(i).None?
    ensures Dec16(i) == if i >> 13 == 4 then Stop(Panic) else Ok(TakenFor(i))
  {
  }

  lemma Reserved1(i: bv16)
    requires i & 3 == 1 && Expand(i).None?
    ensures Dec16(i) == Ok(TakenFor(i))
  {
    Immediates1(i);
  }

  lemma Reserved2(i: bv16)
    requires i & 3 == 2 && Expand(i).None?
    ensures Dec16(i) == Ok(TakenFor(i))
  {
    Immediates0(i);
  }

  lemma ReservedMeaning(i: bv16)
    requires Expand(i).None? && Dec16(i).Ok?
    ensures Dec16(i) == Ok(TakenFor(i))
  {
    hide TakenFor, Expand, Dec16;
    Length16(i);
    if i & 3 == 0 { Reserved0(i); } else if i & 3 == 1 { Reserved1(i); } else { Reserved2(i); }
  }

  lemma Length16(i: bv16)
    requires Dec16(i).Ok?
    ensures i & 3 == 0 || i & 3 == 1 || i & 3 == 2
  {
    hide Quadrant0, Quadrant1, Quadrant2;
  }

  /** One such encoding is the all-zero word, which the standard makes illegal. */
  lemma ZeroIsAccepted()
    ensures Expand(0) == None && Dec16(0) == Ok(Inst(ADDI, 8, 2, 0, 0, 0))
  {
  }
}

/** Executing a compressed instruction and executing its 32-bit expansion are the
    same step, although the decoders fill unused fields differently. */
module CompressedExecution {
  import opened Wrappers
  import opened Words
  import opened Hart
  import opened Decode
  import opened Encode
  import opened Compressed
  import opened Execute

  predicate ImmediateOp(op: Op) {
    op.Compute? &&
    match op.alu
    case Lui | AddI | LtI | LtuI | XorI | OrI | AndI | ShlI | ShrI | SarI | AddIW => true
    case _ => false
  }

  lemma ImmediateIgnoresB(alu: AluOp, a: u64, b: u64, b': u64, imm: u64, pc: u64)
    requires ImmediateOp(Compute(alu))
    ensures Alu(alu, a, b, imm, pc) == Alu(alu, a, b', imm, pc)
  {
  }

  /** Immediate operations execute alike whatever the rs2 field holds. */
  lemma ExecImmediate(s: State, clock: Clock, pc: u64, next: u64, d: Inst, d': Inst)
    requires ImmediateOp(d.op) && d' == d.(rs2 := d'.rs2)
    ensures Exec(s, clock, pc, next, d) == Exec(s, clock, pc, next, d')
  {
    ImmediateIgnoresB(d.op.alu, s.reg[d.rs1 as int], s.reg[d.rs2 as int], s.reg[d'.rs2 as int], ImmOf(d), pc);
  }

  /** So do loads and jumps. */
  lemma ExecLoad(s: State, clock: Clock, pc: u64, next: u64, d: Inst, d': Inst)
    requires d.op.Load? && d' == d.(rs2 := d'.rs2)
    ensures Exec(s, clock, pc, next, d) == Exec(s, clock, pc, next, d')
  {
    hide DoLoad;
  }

  lemma ExecFld(s: State, clock: Clock, pc: u64, next: u64, d: Inst)
    requires d.op == FLD
    ensures Exec(s, clock, pc, next, d) == Stop(FloatingPoint)
  {
  }

  lemma ExecJalr(s: State, clock: Clock, pc: u64, next: u64, d: Inst, d': Inst)
    requires d.op == JALR && d' == d.(rs2 := d'.rs2)
    ensures Exec(s, clock, pc, next, d) == Exec(s, clock, pc, next, d')
  {
  }

  lemma ExecUpper(s: State, clock: Clock, pc: u64, next: u64, d: Inst, d': Inst)
    requires d.op == LUI || d.op == JAL
    requires d' == d.(rs1 := d'.rs1, rs2 := d'.rs2)
    ensures Exec(s, clock, pc, next, d) == Exec(s, clock, pc, next, d')
  {
  }

  lemma ImmediateKinds(f3: bv32, alt: bool)
    ensures ImmediateOp(ImmOp(f3, alt))
  {
  }

  /** An ADDI to x0 does nothing. */
  lemma ExecNop(s: State, clock: Clock, pc: u64, next: u64, rs1: bv5, imm: bv64)
    ensures Exec(s, clock, pc, next, Inst(ADDI, 0, rs1, 0, imm, 0)) == Ok((s, next))
    ensures Exec(s, clock, pc, next, Inst(NOP, 0, 0, 0, 0, 0)) == Ok((s, next))
  {
  }

  lemma ExecEbreak(s: State, clock: Clock, pc: u64, next: u64, d: Inst)
    requires d.op == EBREAK
    ensures Exec(s, clock, pc, next, d) == Stop(Panic)
  {
  }

  /** How far a record may differ from the meaning it realizes. */
  predicate UpTo(d: Inst, m: Inst) {
    || (d == m && d.op != EBREAK)
    || (d.op == m.op == EBREAK)
    || ((m.op == LUI || m.op == JAL) && m == d.(rs1 := m.rs1, rs2 := m.rs2))
    || ((m.op == JALR || m.op.Load? || m.op.FLD? || ImmediateOp(m.op)) && m == d.(rs2 := m.rs2))
    || (d == Inst(NOP, 0, 0, 0, 0, 0) && m.op == ADDI && m.rd == 0 && m.rs2 == 0 && m.csr == 0)
  }

  lemma ImmediateUpTo(d: Inst, b: Base)
    requires Encodable(b) && Realizes(d, b) && (b.ShiftForm? || b.ImmForm? || b.AddiwForm? || b.LuiForm?)
    ensures UpTo(d, Meaning(b))
  {
    if b.ShiftForm? {
      ImmediateKinds(b.f3, b.f7 == 0x20);
    } else if b.ImmForm? {
      ImmediateKinds(b.f3, false);
    }
  }

  lemma OtherUpTo(d: Inst, b: Base)
    requires Encodable(b) && Realizes(d, b) && !(b.ShiftForm? || b.ImmForm? || b.AddiwForm? || b.LuiForm?)
    ensures UpTo(d, Meaning(b))
  {
  }

  /** Execution does not read the fields a format does not have. */
  lemma ExecRealizes(s: State, clock: Clock, pc: u64, next: u64, d: Inst, b: Base)
    requires Encodable(b) && Realizes(d, b)
    ensures Exec(s, clock, pc, next, d) == Exec(s, clock, pc, next, Meaning(b))
  {
    hide Exec, Realizes, Meaning, Encodable;
    if b.ShiftForm? || b.ImmForm? || b.AddiwForm? || b.LuiForm? { ImmediateUpTo(d, b); } else { OtherUpTo(d, b); }
    var m := Meaning(b);
    if d == m {
    } else if m.op == EBREAK {
      ExecEbreak(s, clock, pc, next, d);
      ExecEbreak(s, clock, pc, next, m);
    } else if m.op == LUI || m.op == JAL {
      ExecUpper(s, clock, pc, next, d, m);
    } else if m.op == JALR {
      ExecJalr(s, clock, pc, next, d, m);
    } else if m.op.Load? {
      ExecLoad(s, clock, pc, next, d, m);
    } else if m.op == FLD {
      ExecFld(s, clock, pc, next, d);
      ExecFld(s, clock, pc, next, m);
    } else if d.op == NOP {
      ExecNop(s, clock, pc, next, m.rs1, m.imm);
    } else {
      ExecImmediate(s, clock, pc, next, d, m);
    }
  }

  /** One step from a decoded record; a decoder's panic is the step's. */
  function StepOf(s: State, clock: Clock, pc: u64, next: u64, d: Outcome<Inst>): Outcome<(State, u64)> {
    var inst :- d;
    Exec(s, clock, pc, next, inst)
  }

  /** For every encoding that is neither reserved nor one of the two families
      dec16 mistakes, every state and every pc and next pc: the compressed
      instruction and its expansion take the same step. */
  lemma CompressedSteps(i: bv16, s: State, clock: Clock, pc: u64, next: u64)
    requires Expand(i).Some? && !IsFsdsp(i) && !IsAddHint(i)
    ensures Encodable(Expand(i).value)
    ensures StepOf(s, clock, pc, next, Dec16(i)) == StepOf(s, clock, pc, next, Dec32(Encoded(Expand(i).value)))
  {
    hide Exec, Dec16, Dec32, Expand, Encoded, Realizes;
    AgreesIff(i);
    var b := Expand(i).value;
    DecodeEncoded(b, Encoded(b));
    ExecRealizes(s, clock, pc, next, Dec16(i).value, b);
    ExecRealizes(s, clock, pc, next, Dec32(Encoded(b)).value, b);
  }

  /** The two families are real failures: a C.ADD hint is a no-op but stops the
      emulator, and so does C.FSDSP, whose expansion dec32 accepts. */
  lemma MistakenSteps(i: bv16, s: State, clock: Clock, pc: u64, next: u64)
    requires IsFsdsp(i) || IsAddHint(i)
    ensures StepOf(s, clock, pc, next, Dec16(i)) == Stop(Panic)
    ensures Expand(i).Some? && Encodable(Expand(i).value)
    ensures IsAddHint(i) ==> StepOf(s, clock, pc, next, Dec32(Encoded(Expand(i).value))) == Ok((s, next))
    ensures IsFsdsp(i) ==> Dec32(Encoded(Expand(i).value)).Ok?
  {
    if IsAddHint(i) {
      AddHintStep(s, clock, pc, next, CRs2(i), Encoded(RegForm(0, 0, 0, 0, CRs2(i))));
    } else {
      Immediates0(i);
      ImmediatesFit0(i);
      DecodeEncoded(Expand(i).value, Encoded(Expand(i).value));
    }
  }

  lemma AddHintStep(s: State, clock: Clock, pc: u64, next: u64, rs2: bv5, e: bv32)
    requires e == Encoded(RegForm(0, 0, 0, 0, rs2))
    ensures StepOf(s, clock, pc, next, Dec32(e)) == Ok((s, next))
  {
    DecodeEncoded(RegForm(0, 0, 0, 0, rs2), e);
  }

  /** What executing an accepted reserved encoding does: copy x2, clear a register,
      do nothing (ADDIW to x0, if it does not overflow, as it cannot while x0 is 0), OR
      or AND, load into x0 (or fault), or jump to where x0 points. */
  function ReservedEffect(i: bv16, s: State, pc: u64, next: u64): Outcome<(State, u64)> {
    var f, r := i >> 13, CRs1Low(i);
    if i & 3 == 0 then Ok((SetReg(s, CRdLow(i), RegAt(s, 2)), next))
    else if i & 3 == 1 then
      if f == 1 then
        if WordSum(Signed32(RegAt(s, 0)) + Signed32(Imm6(i) as int)).Ok? then Ok((s, next)) else Stop(Undefined)
      else if f == 3 then Ok((if CRd(i) == 2 then s else SetReg(s, CRd(i), 0), next))
      else
        var x, y := RegAt(s, r), RegAt(s, CRdLow(i));
        Ok((SetReg(s, r, if (i >> 5) & 1 == 0 then BvOr(x, y) else BvAnd(x, y)), next))
    else if f == 2 then
      DoLoad(s, pc, next, 0, Wrap(RegAt(s, 2) as int + (OffLwsp(i) as int)), 4, true, CAUSE_LOAD_PAGE_FAULT)
    else if f == 3 then
      DoLoad(s, pc, next, 0, Wrap(RegAt(s, 2) as int + (OffLdsp(i) as int)), 8, false, CAUSE_LOAD_PAGE_FAULT)
    else Ok((s, RegAt(s, 0)))
  }

  /** Every accepted reserved encoding has that effect in every state. */
  lemma ReservedSteps(i: bv16, s: State, clock: Clock, pc: u64, next: u64)
    requires Expand(i).None? && Dec16(i).Ok?
    ensures StepOf(s, clock, pc, next, Dec16(i)) == ReservedEffect(i, s, pc, next)
    ensures i & 3 == 1 && i >> 13 == 1 && s.reg[0] == 0 ==> ReservedEffect(i, s, pc, next) == Ok((s, next))
  {
    hide Dec16, Expand;
    ReservedMeaning(i);
    ReservedRuns(i, s, clock, pc, next);
  }

  lemma ReservedRuns(i: bv16, s: State, clock: Clock, pc: u64, next: u64)
    ensures Exec(s, clock, pc, next, TakenFor(i)) == ReservedEffect(i, s, pc, next)
  {
    hide Exec, ReservedEffect;
    var f := i >> 13;
    if i & 3 == 1 && f == 1 {
      ReservedNothing(i, s, clock, pc, next);
    } else if i & 3 == 0 || (i & 3 == 1 && f == 3) {
      ReservedCopies(i, s, clock, pc, next);
    } else if i & 3 == 1 {
      ReservedLogic(i, s, clock, pc, next);
    } else {
      ReservedLoads(i, s, clock, pc, next);
    }
  }

  lemma ReservedCopies(i: bv16, s: State, clock: Clock, pc: u64, next: u64)
    requires i & 3 == 0 || (i & 3 == 1 && i >> 13 == 3)
    ensures Exec(s, clock, pc, next, TakenFor(i)) == ReservedEffect(i, s, pc, next)
  {
    hide DoLoad, BvOr, BvAnd, CRdLow, CRd, Imm6;
    assert s.reg[2 := s.reg[2]] == s.reg;
  }

  lemma ReservedNothing(i: bv16, s: State, clock: Clock, pc: u64, next: u64)
    requires i & 3 == 1 && i >> 13 == 1
    ensures Exec(s, clock, pc, next, TakenFor(i)) == ReservedEffect(i, s, pc, next)
  {
    hide DoLoad, BvOr, BvAnd, CRdLow, CRd, CRs1Low, Imm6, Signed32, ToWord;
  }

  lemma ReservedLogic(i: bv16, s: State, clock: Clock, pc: u64, next: u64)
    requires i & 3 == 1 && i >> 13 != 1 && i >> 13 != 3
    ensures Exec(s, clock, pc, next, TakenFor(i)) == ReservedEffect(i, s, pc, next)
  {
    hide DoLoad, BvOr, BvAnd, CRdLow, CRs1Low, RegAt, SetReg;
  }

  lemma ReservedLoads(i: bv16, s: State, clock: Clock, pc: u64, next: u64)
    requires i & 3 != 0 && i & 3 != 1
    ensures Exec(s, clock, pc, next, TakenFor(i)) == ReservedEffect(i, s, pc, next)
  {
    hide DoLoad, BvOr, BvAnd, OffLwsp, OffLdsp;
  }
}

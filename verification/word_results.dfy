/** The 32-bit operations against the rule that their results are sign-extended
    (sections 5.2, 7.1 and 7.2 of the unprivileged ISA). */
module WordResults {
  import opened Wrappers
  import opened Words
  import opened Fields
  import opened Memory
  import opened AddressSpace
  import opened Decode
  import opened Hart
  import opened Translation
  import opened Division
  import opened Execute
  import opened Faults

  predicate WordOp(op: AluOp) {
    match op
    case AddIW | AddW | SubW | ShlIW | ShlW | ShrIW | ShrW | SarIW | SarW => true
    case MulW | DivW | DivUW | RemW | RemUW => true
    case _ => false
  }

  /** r is the sign extension of its low 32 bits. */
  predicate SignExtended(r: u64) { Signed64(r) == Signed32(r) }

  lemma ToWordExtends(x: int)
    ensures SignExtended(ToWord(x))
  {
    InRange(Signed32(Wrap(x)));
  }

  lemma InRange(x: int)
    requires -SIGN32 <= x < SIGN32
    ensures SignExtended(Wrap(x))
  {
  }

  lemma ShiftInRange(x: int, n: nat)
    requires -SIGN32 <= x < SIGN32
    ensures -SIGN32 <= x / Pow2(n) < SIGN32
  {
    hide Pow2;
    Quotient(x, Pow2(n));
  }

  /** Division by a positive number moves an integer towards zero. */
  lemma Quotient(x: int, p: nat)
    requires p >= 1
    ensures x >= 0 ==> 0 <= x / p <= x
    ensures x < 0 ==> x <= x / p < 0
  {
    var q, r := x / p, x % p;
    assert x == p * q + r && 0 <= r < p;
    if q >= 0 {
      MulLe(1, p, q);
    } else {
      MulLe(1, p, -q);
      Negate(p, q);
      Dist(p, q, 1);
      if q < x { MulLe(1, p, -(q + 1)); Negate(p, q + 1); assert false; }
    }
  }

  lemma Negate(p: int, q: int)
    ensures p * -q == -(p * q)
  {
  }

  predicate FitsWord(x: int) { -SIGN32 <= x < SIGN32 }

  /** C defines the operation: no signed overflow, and no shift by 32 or more. */
  predicate Defined(op: AluOp, a: u64, b: u64, imm: u64) {
    match op
    case AddIW => FitsWord(Signed32(a) + Signed32(imm))
    case AddW => FitsWord(Signed32(a) + Signed32(b))
    case SubW => FitsWord(Signed32(a) - Signed32(b))
    case MulW => FitsWord(Signed32(a) * Signed32(b))
    case SarIW => imm % 64 < 32
    case SarW => b % 64 < 32
    case _ => true
  }

  /** A 32-bit register operation that C defines leaves a sign-extended result, except
      exactly DIVUW by zero, and REMUW by zero of a word whose top bit is set. */
  lemma SignExtendedIff(op: AluOp, a: u64, b: u64, imm: u64, pc: u64)
    requires WordOp(op)
    ensures Alu(op, a, b, imm, pc).Ok? <==> Defined(op, a, b, imm)
    ensures Alu(op, a, b, imm, pc).Ok? ==>
              (SignExtended(Alu(op, a, b, imm, pc).value)
               <==> !(Low32(b) == 0 && (op == DivUW || (op == RemUW && Low32(a) >= SIGN32))))
  {
    hide SignExtended, Signed32, Pow2, Quot, Rest, ToWord, Wrap;
    var n := if op == SarIW then imm % 64 else b % 64;
    match op
    case AddIW => ToWordExtends(Signed32(a) + Signed32(imm));
    case AddW => ToWordExtends(Signed32(a) + Signed32(b));
    case SubW => ToWordExtends(Signed32(a) - Signed32(b));
    case ShlIW => ToWordExtends(Low32(a) * Pow2(imm % 32));
    case ShlW => ToWordExtends(Low32(a) * Pow2(b % 32));
    case ShrIW => ToWordExtends(Low32(a) / Pow2(imm % 32));
    case ShrW => ToWordExtends(Low32(a) / Pow2(b % 32));
    case SarIW | SarW => SignedRange(a); ShiftInRange(Signed32(a), n); InRange(Signed32(a) / Pow2(n));
    case MulW => ToWordExtends(Signed32(a) * Signed32(b));
    case DivW => DivwExtends(a, b);
    case RemW => RemwExtends(a, b);
    case DivUW => DivuwExtends(a, b);
    case RemUW => RemuwExtends(a, b);
  }

  lemma SignedRange(x: u64)
    ensures -SIGN32 <= Signed32(x) < SIGN32
  {
  }

  lemma DivwExtends(a: u64, b: u64)
    ensures SignExtended(Divw(a, b))
  {
    hide SignExtended, Quot, ToWord, Wrap;
    InRange(-1);
    InRange(-MIN32);
    if Signed32(b) != 0 { ToWordExtends(Quot(Signed32(a), Signed32(b))); }
    MinusOne();
  }

  lemma MinusOne()
    ensures Wrap(-1) == B64 - 1 && Wrap(0) == 0
  {
  }

  lemma RemwExtends(a: u64, b: u64)
    ensures SignExtended(Remw(a, b))
  {
    hide SignExtended, Rest, ToWord, Wrap;
    SignedRange(a);
    InRange(Signed32(a));
    InRange(0);
    MinusOne();
    if Signed32(b) != 0 { ToWordExtends(Rest(Signed32(a), Signed32(b))); }
  }

  lemma DivuwExtends(a: u64, b: u64)
    ensures SignExtended(Divuw(a, b)) <==> Low32(b) != 0
  {
    if Low32(b) != 0 { ToWordExtends(Low32(a) / Low32(b)); }
  }

  lemma RemuwExtends(a: u64, b: u64)
    ensures SignExtended(Remuw(a, b)) <==> Low32(b) != 0 || Low32(a) < SIGN32
  {
    if Low32(b) != 0 { ToWordExtends(Low32(a) % Low32(b)); }
  }

  // -------------------------------------------------------- whole instructions

  /** Instructions whose result is a 32-bit value: the word operations, LW, LR.W,
      SC.W and the word AMOs. */
  predicate WordInst(op: Op) {
    || (op.Compute? && WordOp(op.alu))
    || op == LW || op == Reserve(4) || (op.Atomic? && op.size == 4)
  }

  /** When the standard's rule holds: off division by zero as above, and for an AMO
      when the old word's top bit is clear. */
  predicate ExtendsResult(s: State, d: Inst) {
    var a, b := RegAt(s, d.rs1), RegAt(s, d.rs2);
    if d.op.Compute? then
      !(Low32(b) == 0 && (d.op.alu == DivUW || (d.op.alu == RemUW && Low32(a) >= SIGN32)))
    else if d.op.Atomic? && d.op.amo != ScAmo then
      var v := ReadVirt(s, a, 4); v.Ok? && v.value.Some? && v.value.value < SIGN32
    else true
  }

  lemma SmallExtends(x: u64)
    requires x < B32
    ensures SignExtended(x) <==> x < SIGN32
    ensures SignExtended(0)
  {
  }

  lemma ReadWord(s: State, va: u64)
    ensures var v := ReadVirt(s, va, 4); v.Ok? && v.value.Some? ==> v.value.value < B32
  {
    hide Translate;
    Pow256Small(4);
  }

  lemma LoadExtends(s: State, pc: u64, next: u64, rd: bv5, va: u64, cause: u64)
    requires rd != 0 && DoLoad(s, pc, next, rd, va, 4, true, cause).Ok? && Translate(s, va) != Ok(None)
    ensures SignExtended(DoLoad(s, pc, next, rd, va, 4, true, cause).value.0.reg[rd as int])
  {
    hide Translate, SignExtended, ToWord, ReadPhys;
    ToWordExtends(ReadVirt(s, va, 4).value.value);
  }

  lemma AtomicExtends(s: State, pc: u64, next: u64, rd: bv5, va: u64, data: u64, amo: Amo)
    requires rd != 0 && DoAtomic(s, pc, next, rd, va, 4, data, amo).Ok? && Translate(s, va) != Ok(None)
    ensures ReadVirt(s, va, 4).Ok? && ReadVirt(s, va, 4).value.Some?
    ensures SignExtended(DoAtomic(s, pc, next, rd, va, 4, data, amo).value.0.reg[rd as int])
       <==> amo == ScAmo || ReadVirt(s, va, 4).value.value < SIGN32
  {
    hide Translate, SignExtended, Amo32, ReadPhys, WritePhys;
    ReadWord(s, va);
    SmallExtends(ReadVirt(s, va, 4).value.value);
  }

  /** Every instruction with a 32-bit result, executed without a fault or undefined
      overflow: rd holds a sign-extended value exactly off DIVUW and REMUW by zero as
      above, and off a word AMO whose old word has its top bit set. */
  lemma WordResultIff(s: State, clock: Clock, pc: u64, next: u64, d: Inst)
    requires WordInst(d.op) && d.rd != 0 && Exec(s, clock, pc, next, d).Ok?
    requires MemoryOp(d.op) ==> !Faulting(s, d)
    ensures d.op.Compute? ==> Defined(d.op.alu, RegAt(s, d.rs1), RegAt(s, d.rs2), ImmOf(d))
    ensures SignExtended(Exec(s, clock, pc, next, d).value.0.reg[d.rd as int]) <==> ExtendsResult(s, d)
  {
    hide SignExtended, Defined, Translate, DoLoad, DoAtomic, ReadVirt, RegAt, ImmOf, Wrap;
    var a, b := RegAt(s, d.rs1), RegAt(s, d.rs2);
    if d.op.Compute? {
      ComputeExtends(s, clock, pc, next, d);
    } else {
      hide Exec;
      ExecMemory(s, clock, pc, next, d);
      if d.op.Load? {
        LoadExtends(s, pc, next, d.rd, AddressOf(s, d), CAUSE_LOAD_PAGE_FAULT);
      } else if d.op.Reserve? {
        LoadExtends(s, pc, next, d.rd, AddressOf(s, d), CAUSE_STORE_PAGE_FAULT);
      } else {
        AtomicExtends(s, pc, next, d.rd, AddressOf(s, d), b, d.op.amo);
      }
    }
  }

  lemma ComputeExtends(s: State, clock: Clock, pc: u64, next: u64, d: Inst)
    requires d.op.Compute? && WordOp(d.op.alu) && d.rd != 0 && Exec(s, clock, pc, next, d).Ok?
    ensures Defined(d.op.alu, RegAt(s, d.rs1), RegAt(s, d.rs2), ImmOf(d))
    ensures SignExtended(Exec(s, clock, pc, next, d).value.0.reg[d.rd as int]) <==> ExtendsResult(s, d)
  {
    hide SignExtended, Alu, Defined, RegAt, ImmOf, ReadVirt;
    SignExtendedIff(d.op.alu, RegAt(s, d.rs1), RegAt(s, d.rs2), ImmOf(d), pc);
  }
}

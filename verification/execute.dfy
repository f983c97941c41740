/** What one decoded instruction does to the machine (execute.c, ram.c,
    address_space.c), as a function on states. */
module Execute {
  import opened Wrappers
  import opened Words
  import opened Memory
  import opened AddressSpace
  import opened Hart
  import opened Translation
  import opened Division
  import opened Decode

  // ----------------------------------------------------------- virtual memory

  /** as_read; None is a page fault. */
  function ReadVirt(s: State, va: u64, n: nat): Outcome<Option<u64>> {
    var pa :- Translate(s, va);
    match pa
    case None => Ok(None)
    case Some(a) => var v :- ReadPhys(s.ram, a, n); Ok(Some(v))
  }

  /** as_write; None is a page fault. */
  function WriteVirt(s: State, va: u64, n: nat, data: u64, amo: Amo): (r: Outcome<Option<(State, u64)>>)
    ensures r.Ok? && r.value.Some? ==>
              var t := r.value.value.0; t.reg == s.reg && t.csr == s.csr && t.priv == s.priv
  {
    var pa :- Translate(s, va);
    match pa
    case None => Ok(None)
    case Some(a) => var w :- RamWrite(s.ram, a, n, data, amo); Ok(Some((s.(ram := w.0), w.1)))
  }

  /** (uint64_t)(intN_t) of an n-byte value. */
  function Extend(v: u64, n: nat, signed: bool): u64 {
    if !signed || n == 8 then v
    else if n == 4 then ToWord(v)
    else if n == 2 then (if v % B16 < 0x8000 then v % B16 else Wrap(v % B16 - B16))
    else if v % 256 < 128 then v % 256 else Wrap(v % 256 - 256)
  }

  // ------------------------------------------------------------ register values

  function ShiftLeft(x: u64, n: nat): u64 { Wrap(x * Pow2(n)) }
  function ShiftRight(x: u64, n: nat): u64 { Wrap(x / Pow2(n)) }
  function ShiftArith(x: int, n: nat): u64 { Wrap(x / Pow2(n)) }
  function Flag(b: bool): u64 { if b then 1 else 0 }

  /** Signed 32-bit, 64-bit and 128-bit C arithmetic: undefined when it overflows. */
  function WordSum(x: int): Outcome<u64> { if -SIGN32 <= x < SIGN32 then Ok(ToWord(x)) else Stop(Undefined) }
  function SignedProduct(x: int): Outcome<u64> { if -SIGN64 <= x < SIGN64 then Ok(Wrap(x)) else Stop(Undefined) }
  function WideProduct(x: nat): Outcome<u64> { if x < SIGN64 * B64 then Ok(Wrap(x / B64)) else Stop(Undefined) }

  /** The value an operation with no other effect gives rd; a and b are the
      source registers. C leaves signed overflow undefined, and a shift of a word by
      32 or more: SRAIW and SRAW take a six-bit amount, of which only SRAW can meet
      such a one (AluStandards). */
  function Alu(op: AluOp, a: u64, b: u64, imm: u64, pc: u64): Outcome<u64> {
    match op
    case Lui => Ok(imm)
    case Auipc => Ok(Wrap(pc + imm))
    case AddI => Ok(Wrap(a + imm))
    case Add => Ok(Wrap(a + b))
    case Sub => Ok(Wrap(a - b))
    case AddIW => WordSum(Signed32(a) + Signed32(imm))
    case AddW => WordSum(Signed32(a) + Signed32(b))
    case SubW => WordSum(Signed32(a) - Signed32(b))
    case Lt => Ok(Flag(Signed64(a) < Signed64(b)))
    case Ltu => Ok(Flag(a < b))
    case LtI => Ok(Flag(Signed64(a) < Signed64(imm)))
    case LtuI => Ok(Flag(a < imm))
    case ShlI => Ok(ShiftLeft(a, imm % 64))
    case Shl => Ok(ShiftLeft(a, b % 64))
    case ShlIW => Ok(ToWord(Low32(a) * Pow2(imm % 32)))
    case ShlW => Ok(ToWord(Low32(a) * Pow2(b % 32)))
    case ShrI => Ok(ShiftRight(a, imm % 64))
    case Shr => Ok(ShiftRight(a, b % 64))
    case ShrIW => Ok(ToWord(Low32(a) / Pow2(imm % 32)))
    case ShrW => Ok(ToWord(Low32(a) / Pow2(b % 32)))
    case SarI => Ok(ShiftArith(Signed64(a), imm % 64))
    case Sar => Ok(ShiftArith(Signed64(a), b % 64))
    case SarIW => if imm % 64 >= 32 then Stop(Undefined) else Ok(ShiftArith(Signed32(a), imm % 64))
    case SarW => if b % 64 >= 32 then Stop(Undefined) else Ok(ShiftArith(Signed32(a), b % 64))
    case XorI => Ok(BvXor(a, imm))
    case Xor => Ok(BvXor(a, b))
    case OrI => Ok(BvOr(a, imm))
    case Or => Ok(BvOr(a, b))
    case AndI => Ok(BvAnd(a, imm))
    case And => Ok(BvAnd(a, b))
    case Mul => SignedProduct(Signed64(a) * Signed64(b))
    case MulH | MulHSU => WideProduct(a * b)   // both widen unsigned values
    case MulHU => Ok(Wrap(a * b / B64))
    case Div => Ok(Division.Div(a, b))
    case DivU => Ok(Divu(a, b))
    case Rem => Ok(Division.Rem(a, b))
    case RemU => Ok(Remu(a, b))
    case MulW => WordSum(Signed32(a) * Signed32(b))
    case DivW => Ok(Divw(a, b))
    case DivUW => Ok(Divuw(a, b))
    case RemW => Ok(Remw(a, b))
    case RemUW => Ok(Remuw(a, b))
  }

  function Taken(c: Cond, a: u64, b: u64): bool {
    match c
    case Eq => a == b
    case Ne => a != b
    case Less => Signed64(a) < Signed64(b)
    case GreaterEq => Signed64(a) >= Signed64(b)
    case LessU => a < b
    case GreaterEqU => a >= b
  }

  // -------------------------------------------------------------- operations

  /** The shared write-back: x0 is never written. */
  function SetReg(s: State, rd: bv5, v: u64): (t: State)
    ensures t.reg[0] == s.reg[0] && t.csr == s.csr && t.priv == s.priv && t.ram == s.ram
  {
    if rd == 0 then s else s.(reg := s.reg[rd as int := v])
  }

  /** Operations that give rd no value must not name one. */
  function NoResult(s: State, pc: u64, rd: bv5): Outcome<(State, u64)> {
    if rd == 0 then Ok((s, pc)) else Stop(Undefined)
  }

  /** A load: the value goes to rd, or the given page fault is raised. */
  function DoLoad(s: State, pc: u64, next: u64, rd: bv5, va: u64, n: nat, signed: bool, cause: u64)
      : (r: Outcome<(State, u64)>)
    ensures r.Ok? ==> r.value.0.reg[0] == s.reg[0]
  {
    var v :- ReadVirt(s, va, n);
    match v
    case None => Ok(Raise(s, pc, cause, va))
    case Some(x) => Ok((SetReg(s, rd, Extend(x, n, signed)), next))
  }

  function DoStore(s: State, pc: u64, next: u64, rd: bv5, va: u64, n: nat, data: u64)
      : (r: Outcome<(State, u64)>)
    ensures r.Ok? ==> r.value.0.reg[0] == s.reg[0]
  {
    var w :- WriteVirt(s, va, n, data, Plain);
    match w
    case None => Ok(Raise(s, pc, CAUSE_STORE_PAGE_FAULT, va))
    case Some((s', _)) => NoResult(s', next, rd)
  }

  function DoAtomic(s: State, pc: u64, next: u64, rd: bv5, va: u64, n: nat, data: u64, amo: Amo)
      : (r: Outcome<(State, u64)>)
    ensures r.Ok? ==> r.value.0.reg[0] == s.reg[0]
  {
    var w :- WriteVirt(s, va, n, data, amo);
    match w
    case None => Ok(Raise(s, pc, CAUSE_STORE_PAGE_FAULT, va))
    case Some((s', orig)) => Ok((SetReg(s', rd, orig), next))
  }

  function DoCsr(s: State, clock: Clock, pc: u64, next: u64, rd: bv5, csr: nat, data: u64, cop: CsrOp)
      : (r: Outcome<(State, u64)>)
    ensures r.Ok? ==> r.value.0.reg[0] == s.reg[0]
  {
    var u :- CsrUpdate(s, clock, csr, data, cop);
    match u.1
    case None => Ok(Raise(s, pc, CAUSE_ILLEGAL_INST, 0))
    case Some(v) => Ok((SetReg(u.0, rd, v), next))
  }

  function DoCompute(s: State, pc: u64, next: u64, op: AluOp, rd: bv5, a: u64, b: u64, imm: u64)
      : (r: Outcome<(State, u64)>)
    ensures r.Ok? ==> r.value.0.reg[0] == s.reg[0]
  {
    var v :- Alu(op, a, b, imm, pc);
    Ok((SetReg(s, rd, v), next))
  }

  function ImmOf(d: Inst): u64 { d.imm as int }
  function CsrOf(d: Inst): (n: nat)
    ensures n < 4096
  {
    d.csr as int
  }

  function RegAt(s: State, r: bv5): u64 { s.reg[r as int] }

  /** execute: the new state and the next pc. x0 is never written. */
  function Exec(s: State, clock: Clock, pc: u64, next: u64, d: Inst): (r: Outcome<(State, u64)>)
    ensures r.Ok? ==> r.value.0.reg[0] == s.reg[0]
  {
    var a, b, imm := RegAt(s, d.rs1), RegAt(s, d.rs2), ImmOf(d);
    match d.op
    case Compute(alu) => DoCompute(s, pc, next, alu, d.rd, a, b, imm)
    case JAL => Ok((SetReg(s, d.rd, next), Wrap(pc + imm)))
    case JALR => Ok((SetReg(s, d.rd, next), Wrap(a + imm)))
    case Branch(c) => NoResult(s, if Taken(c, a, b) then Wrap(pc + imm) else next, d.rd)
    case Load(n, signed) => DoLoad(s, pc, next, d.rd, Wrap(a + imm), n, signed, CAUSE_LOAD_PAGE_FAULT)
    case Store(n) => DoStore(s, pc, next, d.rd, Wrap(a + imm), n, b)
    case Reserve(n) => DoLoad(s, pc, next, d.rd, a, n, true, CAUSE_STORE_PAGE_FAULT)
    case Atomic(n, amo) => DoAtomic(s, pc, next, d.rd, a, n, b, amo)
    case Csr(cop, useImm) => DoCsr(s, clock, pc, next, d.rd, CsrOf(d), if useImm then imm else a, cop)
    case NOP | FENCE | FENCE_I | WFI | SFENCE_VMA => NoResult(s, next, d.rd)
    case ECALL => var (s', to) := Raise(s, pc, CAUSE_ECALL_FROM_U_MODE + s.priv, 0); NoResult(s', to, d.rd)
    case SRET => var (s', to) := Sret(s); NoResult(s', to, d.rd)
    case MRET => var (s', to) := Mret(s); NoResult(s', to, d.rd)
    case EBREAK | URET => Stop(Panic)
    case FLW | FSW | FMV_W_X | FLD | FSD => Stop(FloatingPoint)
  }

  predicate MemoryOp(op: Op) { op.Load? || op.Store? || op.Reserve? || op.Atomic? }

  /** The memory cases, one by one. */
  lemma ExecMemory(s: State, clock: Clock, pc: u64, next: u64, d: Inst)
    requires MemoryOp(d.op)
    ensures var e, a, b, imm := Exec(s, clock, pc, next, d), RegAt(s, d.rs1), RegAt(s, d.rs2), ImmOf(d);
            && (d.op.Load? ==>
                  e == DoLoad(s, pc, next, d.rd, Wrap(a as int + imm), d.op.size, d.op.signed, CAUSE_LOAD_PAGE_FAULT))
            && (d.op.Store? ==> e == DoStore(s, pc, next, d.rd, Wrap(a as int + imm), d.op.size, b))
            && (d.op.Reserve? ==> e == DoLoad(s, pc, next, d.rd, a, d.op.size, true, CAUSE_STORE_PAGE_FAULT))
            && (d.op.Atomic? ==> e == DoAtomic(s, pc, next, d.rd, a, d.op.size, b, d.op.amo))
  {
    hide RegAt, ImmOf, CsrOf, DoCompute, DoCsr, DoLoad, DoStore, DoAtomic;
    hide Raise, Sret, Mret, Taken, SetReg, Wrap;
  }
}

/** What one executed instruction does to the machine, instruction class by class
    (execute.c, ram.c, csr.c), against the Unprivileged ISA 20191213: registers named
    by the record, operands and results as the standard words them. */
module InstructionStandards {
  import opened Wrappers
  import opened Words
  import opened Fields
  import opened Memory
  import opened AddressSpace
  import opened Decode
  import opened Hart
  import opened Translation
  import opened Execute
  import Cpu
  import opened RegisterStandards

  /** t is s but for register rd, which holds v; x0 holds what it held. */
  predicate Wrote(s: State, t: State, rd: bv5, v: u64) {
    && t.csr == s.csr && t.priv == s.priv && |t.reg| == |s.reg|
    && (rd != 0 ==> t.reg[rd as int] == v)
    && forall k :: 0 <= k < 32 && (k != rd as int || k == 0) ==> t.reg[k] == s.reg[k]
  }

  lemma SetRegWrote(s: State, rd: bv5, v: u64)
    ensures Wrote(s, SetReg(s, rd, v), rd, v) && SetReg(s, rd, v).ram == s.ram
  {
  }

  // ------------------------------------------------- computing instructions, jumps

  /** A register or immediate operation reads rs1 and rs2 or the immediate, writes rd
      and goes on to the next instruction. */
  lemma ComputeSteps(s: State, clock: Clock, pc: u64, next: u64, d: Inst, r: u64)
    requires d.op.Compute? && Gives(d.op.alu, s.reg[d.rs1 as int], s.reg[d.rs2 as int], d.imm as int, pc, r)
    ensures Exec(s, clock, pc, next, d).Ok?
    ensures var (t, to) := Exec(s, clock, pc, next, d).value; Wrote(s, t, d.rd, r) && t.ram == s.ram && to == next
  {
    hide Alu, SetReg, Wrote, Exec;
    Cpu.ExecCases(s, clock, pc, next, d);
    SetRegWrote(s, d.rd, r);
  }

  /** When a branch is taken (section 2.5). */
  predicate Holds(c: Cond, a: u64, b: u64) {
    match c
    case Eq => a == b
    case Ne => a != b
    case Less => SignedLess(a, b)
    case GreaterEq => !SignedLess(a, b)
    case LessU => a < b
    case GreaterEqU => a >= b
  }

  /** A branch goes to pc plus its offset exactly when its condition holds of rs1 and
      rs2, and changes nothing else. */
  lemma BranchSteps(s: State, clock: Clock, pc: u64, next: u64, d: Inst)
    requires d.op.Branch? && d.rd == 0
    ensures var target := if Holds(d.op.cond, s.reg[d.rs1 as int], s.reg[d.rs2 as int])
                          then (pc + d.imm as int) % B64 else next;
            Exec(s, clock, pc, next, d) == Ok((s, target))
  {
    SignedOrder(s.reg[d.rs1 as int], s.reg[d.rs2 as int]);
  }

  /** JAL and JALR leave the address of the next instruction in rd, and go to pc, or
      rs1, plus the offset. */
  lemma JumpSteps(s: State, clock: Clock, pc: u64, next: u64, d: Inst)
    requires d.op == JAL || d.op == JALR
    ensures Exec(s, clock, pc, next, d).Ok?
    ensures var (t, to) := Exec(s, clock, pc, next, d).value;
            && Wrote(s, t, d.rd, next) && t.ram == s.ram
            && to == ((if d.op == JAL then pc else s.reg[d.rs1 as int]) as int + d.imm as int) % B64
  {
    hide SetReg, Wrote;
    SetRegWrote(s, d.rd, next);
  }

  /** The standard clears the lowest bit of JALR's target; the code does not. They agree
      exactly for an even one. */
  lemma JalrIff(s: State, clock: Clock, pc: u64, next: u64, d: Inst)
    requires d.op == JALR
    ensures Exec(s, clock, pc, next, d).Ok?
    ensures var target := (s.reg[d.rs1 as int] + d.imm as int) % B64;
            Exec(s, clock, pc, next, d).value.1 == target - target % 2 <==> target % 2 == 0
  {
    JumpSteps(s, clock, pc, next, d);
  }

  /** The length of an instruction: four bytes if its two low bits are set, else two
      (section 1.5). */
  function Length(inst: u32): nat { if inst % 2 == 1 && inst / 2 % 2 == 1 then 4 else 2 }

  lemma Follows(s: State, clock: Clock, pc: u64, inst: u32, d: Inst)
    requires (if Length(inst) == 4 then Dec32(inst as bv32) else Dec16((inst % B16) as bv16)) == Ok(d)
    ensures Cpu.DecodeAndExec(s, clock, pc, inst) == Exec(s, clock, pc, (pc + Length(inst)) % B64, d)
  {
    hide Dec32, Dec16, Exec, Length;
    FourOrTwo(inst);
  }

  lemma FourOrTwo(inst: u32)
    ensures Length(inst) == if inst % 4 == 3 then 4 else 2
  {
  }

  /** A jump leaves in rd, and a computing instruction goes on to, the address that
      follows its own bytes. */
  lemma LengthSteps(s: State, clock: Clock, pc: u64, inst: u32, d: Inst, r: u64)
    requires (if Length(inst) == 4 then Dec32(inst as bv32) else Dec16((inst % B16) as bv16)) == Ok(d)
    ensures d.op == JAL || d.op == JALR ==>
              && Cpu.DecodeAndExec(s, clock, pc, inst).Ok?
              && Wrote(s, Cpu.DecodeAndExec(s, clock, pc, inst).value.0, d.rd, (pc + Length(inst)) % B64)
    ensures d.op.Compute? && Gives(d.op.alu, s.reg[d.rs1 as int], s.reg[d.rs2 as int], d.imm as int, pc, r) ==>
              && Cpu.DecodeAndExec(s, clock, pc, inst).Ok?
              && Wrote(s, Cpu.DecodeAndExec(s, clock, pc, inst).value.0, d.rd, r)
              && Cpu.DecodeAndExec(s, clock, pc, inst).value.1 == (pc + Length(inst)) % B64
  {
    var next := (pc + Length(inst)) % B64;
    hide Dec32, Dec16, Exec, Wrote, Gives, Cpu.DecodeAndExec, Length;
    Follows(s, clock, pc, inst, d);
    if d.op == JAL || d.op == JALR { JumpSteps(s, clock, pc, next, d); }
    if d.op.Compute? && Gives(d.op.alu, s.reg[d.rs1 as int], s.reg[d.rs2 as int], d.imm as int, pc, r) {
      ComputeSteps(s, clock, pc, next, d, r);
    }
  }

  // ---------------------------------------------------------------------- memory

  /** r is what a load of n bytes gives for the value v in them: v with the sign of its
      top bit, or with zeros above. */
  predicate LoadsTo(v: u64, n: nat, signed: bool, r: u64) {
    && (r - v) % Pow256(n) == 0
    && if n == 8 then r == v
       else if signed then 2 * Signed64(r) + Pow256(n) >= 0 && 2 * Signed64(r) < Pow256(n)
       else r < Pow256(n)
  }

  lemma Sizes()
    ensures Pow256(1) == 0x100 && Pow256(2) == B16 && Pow256(4) == B32 && Pow256(8) == B64
  {
    assert Pow256(4) == B32;
    assert Pow256(8) == B64;
  }

  /** Signed values of less than eight bytes lose their bias. */
  lemma ExtendIs(v: u64, n: nat, signed: bool)
    requires GoodSize(n) && v < Pow256(n)
    ensures Extend(v, n, signed) == if signed && n < 8 && 2 * v >= Pow256(n) then v - Pow256(n) + B64 else v
  {
    Sizes();
    hide Pow256;
    if n == 4 { WordValue(v); }
  }

  lemma WordValue(v: u64)
    requires v < B32
    ensures ToWord(v) == if v < SIGN32 then v else v - B32 + B64
  {
  }

  lemma Multiples()
    ensures (B64 - 0x100) % 0x100 == 0 && (B64 - B16) % B16 == 0 && (B64 - B32) % B32 == 0
  {
  }

  lemma ExtendLoads(v: u64, n: nat, signed: bool)
    requires GoodSize(n) && v < Pow256(n)
    ensures LoadsTo(v, n, signed, Extend(v, n, signed))
  {
    hide Extend;
    Sizes();
    hide Pow256;
    Multiples();
    ExtendIs(v, n, signed);
    if signed && n < 8 && 2 * v >= Pow256(n) {
      assert Extend(v, n, signed) - v == B64 - Pow256(n);
    }
  }

  lemma FitsBytes(ram: Ram, pa: u64, n: nat, v: u64)
    requires ReadPhys(ram, pa, n) == Ok(v)
    ensures v < Pow256(n) && GoodSize(n)
  {
  }

  /** The address of a load or store: rs1 plus the offset. */
  function Address(s: State, d: Inst): u64 { (s.reg[d.rs1 as int] + d.imm as int) % B64 }

  /** A load that translates into RAM leaves in rd the n bytes there, extended by their
      sign for LB, LH and LW and by zeros for LBU, LHU and LWU, and changes nothing
      else. */
  lemma LoadSteps(s: State, clock: Clock, pc: u64, next: u64, d: Inst, pa: u64, v: u64) returns (r: u64)
    requires d.op.Load? && Translate(s, Address(s, d)) == Ok(Some(pa)) && ReadPhys(s.ram, pa, d.op.size) == Ok(v)
    ensures LoadsTo(v, d.op.size, d.op.signed, r) && Exec(s, clock, pc, next, d).Ok?
    ensures var (t, to) := Exec(s, clock, pc, next, d).value; Wrote(s, t, d.rd, r) && t.ram == s.ram && to == next
  {
    hide Translate, ReadPhys, SetReg, Wrote, Extend, LoadsTo, Exec, Pow256;
    ExecMemory(s, clock, pc, next, d);
    r := Extend(v, d.op.size, d.op.signed);
    SetRegWrote(s, d.rd, r);
    FitsBytes(s.ram, pa, d.op.size, v);
    ExtendLoads(v, d.op.size, d.op.signed);
  }

  /** A store that translates into RAM puts the low n bytes of rs2 there, and changes
      nothing else. */
  lemma StoreSteps(s: State, clock: Clock, pc: u64, next: u64, d: Inst, pa: u64)
    requires d.op.Store? && d.rd == 0 && GoodSize(d.op.size)
    requires Translate(s, Address(s, d)) == Ok(Some(pa)) && InRam(s.ram, pa, d.op.size)
    ensures Exec(s, clock, pc, next, d)
         == Ok((s.(ram := Splice(s.ram, pa, ToBytes(s.reg[d.rs2 as int], d.op.size))), next))
  {
    hide Translate, RamWrite, ReadPhys, ToBytes, Splice, Exec;
    ExecMemory(s, clock, pc, next, d);
    PlainWrite(s.ram, pa, d.op.size, s.reg[d.rs2 as int]);
    StoreOk(s.ram, pa, d.op.size, s.reg[d.rs2 as int]);
  }

  lemma StoreOk(ram: Ram, pa: u64, n: nat, data: u64)
    requires GoodSize(n) && InRam(ram, pa, n)
    ensures WritePhys(ram, pa, n, data) == Ok(Splice(ram, pa, ToBytes(data, n))) && ReadPhys(ram, pa, n).Ok?
  {
    hide FromBytes, ToBytes;
  }

  // --------------------------------------------------------------------- atomics

  /** The signed order of words of 32 bits. */
  predicate SignedLess32(a: u64, b: u64) { (a + SIGN32) % B32 < (b + SIGN32) % B32 }

  /** What an AMO stores (section 8.4) on words of n bytes, for the value there and the
      operand: the operand, the smaller or larger of both in the signed or unsigned
      order, their sum, or their logic bit by bit. */
  predicate AmoStores(amo: Amo, n: nat, was: u64, data: u64, r: u64) {
    var less := if n == 8 then SignedLess(data, was) else SignedLess32(data, was);
    var more := if n == 8 then SignedLess(was, data) else SignedLess32(was, data);
    match amo
    case Plain | ScAmo | SwapAmo => r == data
    case MinAmo => r == if less then data else was
    case MaxAmo => r == if more then data else was
    case MinuAmo => r == if data < was then data else was
    case MaxuAmo => r == if data > was then data else was
    case AddAmo => r < Pow256(n) && (r - data) % Pow256(n) == was
    case XorAmo => r < Pow256(n) && forall k: nat :: k < 8 * n ==> (BitOf(r, k) <==> BitOf(was, k) != BitOf(data, k))
    case OrAmo => r < Pow256(n) && forall k: nat :: k < 8 * n ==> (BitOf(r, k) <==> BitOf(was, k) || BitOf(data, k))
    case AndAmo => r < Pow256(n) && forall k: nat :: k < 8 * n ==> (BitOf(r, k) <==> BitOf(was, k) && BitOf(data, k))
  }

  lemma AddBackWord(a: u64, b: u64)
    requires a < B32 && b < B32
    ensures ((a + b) % B32 - b) % B32 == a
  {
  }

  lemma SignedOrder32(a: u64, b: u64)
    requires a < B32 && b < B32
    ensures SignedLess32(a, b) <==> Signed32(a) < Signed32(b)
  {
  }

  lemma Amo64Stores(amo: Amo, was: u64, data: u64)
    ensures AmoStores(amo, 8, was, data, Amo64(was, data, amo))
  {
    hide Bitwise, BitOf, Pow256;
    Sizes();
    SignedOrder(data, was);
    SignedOrder(was, data);
    forall k: nat | k < 64
      ensures BitOf(BvAnd(was, data), k) <==> BitOf(was, k) && BitOf(data, k)
      ensures BitOf(BvOr(was, data), k) <==> BitOf(was, k) || BitOf(data, k)
      ensures BitOf(BvXor(was, data), k) <==> BitOf(was, k) != BitOf(data, k)
    {
      BitwiseBits(was, data, k);
    }
    AddBack(was, data, Wrap(was + data));
  }

  lemma LowLogic(a: u32, b: u32, k: nat)
    requires k < 32
    ensures BitOf(Low32(BvAnd(a, b)), k) <==> BitOf(a, k) && BitOf(b, k)
    ensures BitOf(Low32(BvOr(a, b)), k) <==> BitOf(a, k) || BitOf(b, k)
    ensures BitOf(Low32(BvXor(a, b)), k) <==> BitOf(a, k) != BitOf(b, k)
  {
    hide BvAnd, BvOr, BvXor, Low32, BitOf;
    BitwiseBits(a, b, k);
    LowWordBit(BvAnd(a, b), k);
    LowWordBit(BvOr(a, b), k);
    LowWordBit(BvXor(a, b), k);
  }

  lemma Amo32Stores(amo: Amo, was: u64, data: u64)
    requires was < B32
    ensures AmoStores(amo, 4, was, Low32(data), Amo32(was, data, amo))
  {
    hide BvAnd, BvOr, BvXor, BitOf, Pow256, SignedLess32, Signed32;
    Sizes();
    var d := Low32(data);
    SignedOrder32(d, was);
    SignedOrder32(was, d);
    forall k: nat | k < 32
      ensures BitOf(Low32(BvAnd(was, d)), k) <==> BitOf(was, k) && BitOf(d, k)
      ensures BitOf(Low32(BvOr(was, d)), k) <==> BitOf(was, k) || BitOf(d, k)
      ensures BitOf(Low32(BvXor(was, d)), k) <==> BitOf(was, k) != BitOf(d, k)
    {
      LowLogic(was, d, k);
    }
    AddBackWord(was, d);
  }

  lemma LowWordBit(x: u64, k: nat)
    requires k < 32
    ensures BitOf(Low32(x), k) <==> BitOf(x, k)
  {
    Pow2Of64();
    LowBit(x, 32, k);
  }

  /** An AMO that translates into RAM leaves the old value in rd and the result of its
      operation on that and rs2 in memory (of their low words, for the word forms), and
      changes nothing else. */
  lemma AtomicSteps(s: State, clock: Clock, pc: u64, next: u64, d: Inst, pa: u64, was: u64) returns (r: u64)
    requires d.op.Atomic? && d.op.amo != ScAmo && (d.op.size == 4 || d.op.size == 8)
    requires Translate(s, s.reg[d.rs1 as int]) == Ok(Some(pa)) && ReadPhys(s.ram, pa, d.op.size) == Ok(was)
    ensures var data := s.reg[d.rs2 as int];
            AmoStores(d.op.amo, d.op.size, was, if d.op.size == 8 then data else Low32(data), r)
    ensures InRam(s.ram, pa, d.op.size) && Exec(s, clock, pc, next, d).Ok?
    ensures var (t, to) := Exec(s, clock, pc, next, d).value;
            Wrote(s, t, d.rd, was) && t.ram == Splice(s.ram, pa, ToBytes(r, d.op.size)) && to == next
  {
    hide Translate, Amo64, Amo32, AmoStores, FromBytes, ToBytes, Slice, Splice, Exec, SetReg, Wrote, Pow256;
    ExecMemory(s, clock, pc, next, d);
    var data := s.reg[d.rs2 as int];
    FitsBytes(s.ram, pa, d.op.size, was);
    Sizes();
    r := if d.op.size == 8 then Amo64(was, data, d.op.amo) else Amo32(was, data, d.op.amo);
    if d.op.size == 8 { Amo64Stores(d.op.amo, was, data); } else { Amo32Stores(d.op.amo, was, data); }
    var ram := Splice(s.ram, pa, ToBytes(r, d.op.size));
    SetRegWrote(s.(ram := ram), d.rd, was);
    WroteApart(s, ram, SetReg(s.(ram := ram), d.rd, was), d.rd, was);
  }

  /** A register write is apart from what memory holds. */
  lemma WroteApart(s: State, ram: Ram, t: State, rd: bv5, v: u64)
    requires Wrote(s.(ram := ram), t, rd, v)
    ensures Wrote(s, t, rd, v)
  {
  }

  /** LR leaves the extended value in rd, like a load of its size. */
  lemma ReserveSteps(s: State, clock: Clock, pc: u64, next: u64, d: Inst, pa: u64, v: u64) returns (r: u64)
    requires d.op.Reserve? && Translate(s, s.reg[d.rs1 as int]) == Ok(Some(pa))
    requires ReadPhys(s.ram, pa, d.op.size) == Ok(v)
    ensures LoadsTo(v, d.op.size, true, r) && Exec(s, clock, pc, next, d).Ok?
    ensures var (t, to) := Exec(s, clock, pc, next, d).value; Wrote(s, t, d.rd, r) && t.ram == s.ram && to == next
  {
    hide Translate, ReadPhys, SetReg, Wrote, Extend, LoadsTo, Exec, Pow256;
    ExecMemory(s, clock, pc, next, d);
    r := Extend(v, d.op.size, true);
    SetRegWrote(s, d.rd, r);
    FitsBytes(s.ram, pa, d.op.size, v);
    ExtendLoads(v, d.op.size, true);
  }

  // ------------------------------------------------------------- control registers

  /** What a CSR instruction leaves in the register (section 9.1): the operand, or the
      old value with the operand's bits set or cleared. */
  predicate CsrHolds(cop: CsrOp, was: u64, data: u64, r: u64) {
    match cop
    case CsrWrite => r == data
    case CsrSet => forall k: nat :: k < 64 ==> (BitOf(r, k) <==> BitOf(was, k) || BitOf(data, k))
    case CsrClear => forall k: nat :: k < 64 ==> (BitOf(r, k) <==> BitOf(was, k) && !BitOf(data, k))
  }

  lemma CombineHolds(cop: CsrOp, was: u64, data: u64)
    ensures CsrHolds(cop, was, data, CsrCombine(was, data, cop))
  {
    hide Bitwise, BitOf;
    forall k: nat | k < 64
      ensures BitOf(BvOr(was, data), k) <==> BitOf(was, k) || BitOf(data, k)
      ensures BitOf(BvAnd(was, BvNot(data)), k) <==> BitOf(was, k) && !BitOf(data, k)
    {
      BitwiseBits(was, data, k);
      BitwiseBits(was, BvNot(data), k);
      BitwiseBits(data, data, k);
    }
  }

  /** A CSR instruction on a register that can be read leaves the old value in rd and
      that in the register, by rs1 or by its immediate; nothing else changes. */
  lemma CsrSteps(s: State, clock: Clock, pc: u64, next: u64, d: Inst, was: u64) returns (r: u64)
    requires d.op.Csr? && CsrRead(s.csr, clock, CsrOf(d)) == Ok(Some(was))
    ensures CsrHolds(d.op.cop, was, if d.op.useImm then d.imm as int else s.reg[d.rs1 as int], r)
    ensures Exec(s, clock, pc, next, d).Ok?
    ensures var (t, to) := Exec(s, clock, pc, next, d).value;
            && Wrote(s.(csr := s.csr[CsrOf(d) := r]), t, d.rd, was) && t.ram == s.ram && to == next
  {
    hide CsrRead, CsrCombine, CsrHolds, CsrOf, SetReg, Wrote, Exec;
    Cpu.ExecCases(s, clock, pc, next, d);
    var data: u64 := if d.op.useImm then d.imm as int else s.reg[d.rs1 as int];
    r := CsrCombine(was, data, d.op.cop);
    CombineHolds(d.op.cop, was, data);
    SetRegWrote(s.(csr := s.csr[CsrOf(d) := r]), d.rd, was);
  }
}

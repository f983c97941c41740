/** The emulated hart in place (csr.c, trap.c, mmu.c, address_space.c, xemu.c,
    execute.c): every method against the function on states that specifies it. */
module Cpu {
  import opened Wrappers
  import opened Words
  import opened Memory
  import opened Fields
  import opened Decode
  import opened AddressSpace
  import opened Hart
  import opened Translation
  import opened Execute
  import opened Fetch

  /** decode and execute of one fetched word. */
  function DecodeAndExec(s: State, clock: Clock, pc: u64, inst: u32): Outcome<(State, u64)> {
    if inst % 4 == 3 then
      var d :- Dec32(inst as bv32);
      Exec(s, clock, pc, Wrap(pc + 4), d)
    else
      var d :- Dec16((inst % B16) as bv16);
      Exec(s, clock, pc, Wrap(pc + 2), d)
  }

  /** Fetch, then decode and execute unless the fetch trapped. */
  function FetchAndExec(s: State, clock: Clock, pc: u64): Outcome<(State, u64)> {
    var f :- FetchAt(s, pc);
    match f
    case Word(inst) => DecodeAndExec(s, clock, pc, inst)
    case Fault(t, to) => if to != 0 then Ok((t, to)) else DecodeAndExec(t, clock, pc, 0)
  }

  /** One round of main's loop. */
  function RoundOf(s: State, clock: Clock, found: Option<IntrType>, pc: u64): Outcome<(State, u64)> {
    if pc < 0x1000 then Stop(Panic)
    else
      match if found.Some? then TakeInterrupt(s, found.value, pc) else None
      case Some((t, to)) => if to != 0 then Ok((t, to)) else FetchAndExec(t, clock, pc)
      case None => FetchAndExec(s, clock, pc)
  }

  /** The host's part in one round: the clocks, and the interrupt source found. */
  datatype Input = Input(clock: Clock, found: Option<IntrType>)

  /** The loop of main over any number of rounds. */
  function Rounds(s: State, pc: u64, inputs: seq<Input>): Outcome<(State, u64)>
    decreases inputs
  {
    if inputs == [] then Ok((s, pc))
    else
      var t :- RoundOf(s, inputs[0].clock, inputs[0].found, pc);
      Rounds(t.0, t.1, inputs[1..])
  }

  /** In every run x0 keeps the value it started with, through instructions,
      exceptions and interrupts. */
  lemma {:induction false} ZeroRegisterStays(s: State, pc: u64, inputs: seq<Input>)
    requires Rounds(s, pc, inputs).Ok?
    ensures Rounds(s, pc, inputs).value.0.reg[0] == s.reg[0]
    decreases inputs
  {
    hide RoundOf;
    if inputs == [] {
    } else {
      RoundKeepsZero(s, inputs[0].clock, inputs[0].found, pc);
      var t := RoundOf(s, inputs[0].clock, inputs[0].found, pc).value;
      ZeroRegisterStays(t.0, t.1, inputs[1..]);
    }
  }

  lemma RoundKeepsZero(s: State, clock: Clock, found: Option<IntrType>, pc: u64)
    requires RoundOf(s, clock, found, pc).Ok?
    ensures RoundOf(s, clock, found, pc).value.0.reg[0] == s.reg[0]
  {
    hide Exec, Dec32, Dec16, Hart.TrapEnter, ReadVirt, Field;
  }

  /** A fetch fault goes to its handler exactly if the trap vector is not 0. With vector
      0 the loop runs the word 0 in the handler's state instead, which copies x2 to x8
      and moves on by two; that looks like the handler only at the top of the address
      space with x8 and x2 equal. */
  lemma FetchTrapIff(s: State, clock: Clock, pc: u64)
    requires FetchAt(s, pc).Ok? && FetchAt(s, pc).value.Fault?
    ensures var f := FetchAt(s, pc).value;
            && (FetchAndExec(s, clock, pc) == Ok((f.s, f.to))
                <==> f.to != 0 || (Wrap(pc + 2) == 0 && RegAt(f.s, 8) == RegAt(f.s, 2)))
            && (f.to == 0 ==> FetchAndExec(s, clock, pc) == Ok((SetReg(f.s, 8, RegAt(f.s, 2)), Wrap(pc + 2))))
  {
    hide FetchAt, Exec, Dec16;
    var f := FetchAt(s, pc).value;
    if f.to == 0 {
      ZeroWord(f.s, clock, pc);
      var t := SetReg(f.s, 8, RegAt(f.s, 2));
      assert t == f.s <==> RegAt(f.s, 8) == RegAt(f.s, 2) by {
        if RegAt(f.s, 8) == RegAt(f.s, 2) { assert t.reg == f.s.reg; } else { assert RegAt(t, 8) != RegAt(f.s, 8); }
      }
    }
  }

  /** The loop stops at a pc in the first page, whatever interrupts wait. */
  lemma LowPcStops(s: State, clock: Clock, found: Option<IntrType>, pc: u64)
    ensures pc < 0x1000 ==> RoundOf(s, clock, found, pc) == Stop(Panic)
    ensures pc >= 0x1000 && found == None ==> RoundOf(s, clock, found, pc) == FetchAndExec(s, clock, pc)
  {
    hide FetchAndExec;
  }

  /** An interrupt whose vector is 0 is entered, with its privilege and trap CSRs, and
      then the interrupted instruction runs there. */
  lemma ZeroVectorRuns(s: State, clock: Clock, t: IntrType, pc: u64)
    requires pc >= 0x1000 && TakeInterrupt(s, t, pc).Some?
    ensures var (e, to) := TakeInterrupt(s, t, pc).value;
            RoundOf(s, clock, Some(t), pc) == if to == 0 then FetchAndExec(e, clock, pc) else Ok((e, to))
  {
    hide FetchAndExec, TakeInterrupt;
  }

  lemma ZeroWord(s: State, clock: Clock, pc: u64)
    ensures DecodeAndExec(s, clock, pc, 0) == Ok((SetReg(s, 8, RegAt(s, 2)), Wrap(pc + 2)))
  {
    hide Exec, SetReg;
    assert Dec16(0) == Ok(Inst(ADDI, 8, 2, 0, 0, 0));
    ZeroAdds(s, clock, pc, Wrap(pc + 2));
  }

  lemma ZeroAdds(s: State, clock: Clock, pc: u64, next: u64)
    ensures Exec(s, clock, pc, next, Inst(ADDI, 8, 2, 0, 0, 0)) == Ok((SetReg(s, 8, RegAt(s, 2)), next))
  {
    hide SetReg;
  }

  predicate FloatOp(op: Op) { op == FLW || op == FSW || op == FMV_W_X || op == FLD || op == FSD }

  /** What remains: environment calls, trap returns and the cases that do nothing. */
  predicate SystemOp(op: Op) {
    && !op.Compute? && op != JAL && op != JALR && !op.Branch? && !op.Load? && !op.Store? && !op.Reserve?
    && !op.Atomic? && !op.Csr? && op != EBREAK && op != URET && !FloatOp(op)
  }

  lemma ExecCases(s: State, clock: Clock, pc: u64, next: u64, d: Inst)
    ensures var a, b, imm := RegAt(s, d.rs1), RegAt(s, d.rs2), ImmOf(d);
            match d.op
            case Compute(alu) => Exec(s, clock, pc, next, d) == DoCompute(s, pc, next, alu, d.rd, a, b, imm)
            case Csr(cop, useImm) =>
              Exec(s, clock, pc, next, d)
              == DoCsr(s, clock, pc, next, d.rd, CsrOf(d), if useImm then imm else a, cop)
            case EBREAK | URET => Exec(s, clock, pc, next, d) == Stop(Panic)
            case FLW | FSW | FMV_W_X | FLD | FSD => Exec(s, clock, pc, next, d) == Stop(FloatingPoint)
            case _ => true
  {
    hide RegAt, ImmOf, CsrOf, DoCompute, DoCsr, DoLoad, DoStore, DoAtomic, Raise, Sret, Mret, Taken, SetReg, Wrap;
  }

  lemma ExecSystem(s: State, clock: Clock, pc: u64, next: u64, d: Inst)
    requires SystemOp(d.op)
    ensures Exec(s, clock, pc, next, d) == var (t, to) := SystemStep(s, pc, next, d.op); NoResult(t, to, d.rd)
  {
    hide RegAt, ImmOf, CsrOf, DoCompute, DoCsr, DoLoad, DoStore, DoAtomic;
    hide Raise, Sret, Mret, Taken, SetReg, Wrap, NoResult;
  }

  function SystemStep(s: State, pc: u64, next: u64, op: Op): (State, u64) {
    if op == ECALL then Raise(s, pc, CAUSE_ECALL_FROM_U_MODE + s.priv, 0)
    else if op == SRET then Sret(s)
    else if op == MRET then Mret(s)
    else (s, next)
  }

  class Core {
    const reg: array<u64>
    const csr: array<u64>
    var priv: Priv
    const bus: Bus

    predicate Valid() { reg.Length == 32 && csr.Length == 4096 && reg != csr && bus.Valid() }

    constructor (bus: Bus)
      requires bus.Valid()
      ensures Valid() && this.bus == bus && fresh(reg) && fresh(csr) && priv == M_MODE
    {
      this.bus := bus;
      reg := new u64[32](_ => 0);
      csr := new u64[4096](_ => 0);
      priv := M_MODE;
    }

    function Snapshot(): State
      requires Valid()
      reads this, reg, csr, bus.mem
    {
      State(reg[..], csr[..], priv, bus.mem[..])
    }

    // ------------------------------------------------------------------- CSRs

    /** csr_update */
    method CsrUpdate(clock: Clock, addr: nat, data: u64, op: CsrOp) returns (r: Outcome<Option<u64>>)
      requires Valid()
      modifies csr
      ensures match Hart.CsrUpdate(old(Snapshot()), clock, addr, data, op)
              case Ok((s, v)) => r == Ok(v) && Snapshot() == s
              case Stop(why) => r == Stop(why)
    {
      hide BvOr, BvAnd;
      r := CsrRead(csr[..], clock, addr);
      if r.Ok? && r.value.Some? {
        csr[addr] := CsrCombine(r.value.value, data, op);
      }
    }

    /** trap_enter */
    method TrapEnter(pc: u64, nextPriv: Priv, cause: u64, tval: u64) returns (to: u64)
      requires Valid()
      modifies csr, this`priv
      ensures (Snapshot(), to) == Hart.TrapEnter(old(Snapshot()), pc, nextPriv, cause, tval)
    {
      hide SetField, Field;
      ghost var s := Snapshot();
      if nextPriv == S_MODE {
        var sstatus := csr[SSTATUS];
        sstatus := SetField(sstatus, SPP_BIT, 2, if priv == U_MODE then 0 else 1);
        priv := S_MODE;
        csr[SCAUSE] := cause;
        csr[STVAL] := tval;
        sstatus := SetField(sstatus, SPIE_BIT, 2, Field(sstatus, SIE_BIT, 2));
        sstatus := SetField(sstatus, SIE_BIT, 2, 0);
        csr[SSTATUS] := sstatus;
        csr[SEPC] := pc;
        to := csr[STVEC];
        assert csr[..] == s.csr[SCAUSE := cause][STVAL := tval][SSTATUS := sstatus][SEPC := pc];
      } else {
        var mstatus := csr[MSTATUS];
        mstatus := SetField(mstatus, MPP_FIELD, 4, priv);
        priv := M_MODE;
        csr[MCAUSE] := cause;
        csr[MTVAL] := tval;
        mstatus := SetField(mstatus, MPIE_BIT, 2, Field(mstatus, MIE_BIT, 2));
        mstatus := SetField(mstatus, MIE_BIT, 2, 0);
        csr[MSTATUS] := mstatus;
        csr[MEPC] := pc;
        to := csr[MTVEC];
        assert csr[..] == s.csr[MCAUSE := cause][MTVAL := tval][MSTATUS := mstatus][MEPC := pc];
      }
    }

    /** trap_exit for SRET */
    method SretExit() returns (to: u64)
      requires Valid()
      modifies csr, this`priv
      ensures (Snapshot(), to) == Sret(old(Snapshot()))
    {
      hide SetField, Field;
      var sstatus := csr[SSTATUS];
      priv := if Field(sstatus, SPP_BIT, 2) == 1 then S_MODE else U_MODE;
      sstatus := SetField(sstatus, SIE_BIT, 2, Field(sstatus, SPIE_BIT, 2));
      csr[SSTATUS] := sstatus;
      to := csr[SEPC];
    }

    /** trap_exit for MRET */
    method MretExit() returns (to: u64)
      requires Valid()
      modifies csr, this`priv
      ensures (Snapshot(), to) == Mret(old(Snapshot()))
    {
      hide SetField;
      var mstatus := csr[MSTATUS];
      priv := Field(mstatus, MPP_FIELD, 4);
      mstatus := SetField(mstatus, MIE_BIT, 2, Field(mstatus, MPIE_BIT, 2));
      csr[MSTATUS] := mstatus;
      to := csr[MEPC];
    }

    /** raise_except */
    method RaiseExcept(pc: u64, cause: u64, tval: u64) returns (to: u64)
      requires Valid()
      modifies csr, this`priv
      ensures (Snapshot(), to) == Raise(old(Snapshot()), pc, cause, tval)
    {
      hide Hart.TrapEnter;
      to := TrapEnter(pc, ExceptTarget(Snapshot(), cause), cause, tval);
    }

    /** handle_interrupt, once a source was found; None when it is not taken. */
    method HandleInterrupt(t: IntrType, pc: u64) returns (r: Option<u64>)
      requires Valid()
      modifies csr, this`priv
      ensures match TakeInterrupt(old(Snapshot()), t, pc)
              case Some((s, to)) => r == Some(to) && Snapshot() == s
              case None => r == None && Snapshot() == old(Snapshot())
    {
      hide Hart.TrapEnter, Field, BvOr, Pow2;
      var nextPriv := IntrTarget(Snapshot(), t);
      var line := IntrLine(t, nextPriv);
      if nextPriv == S_MODE {
        if Field(csr[SSTATUS], SIE_BIT, 2) == 1 {
          if Field(csr[SIE], Pow2(line), 2) == 1 {
            csr[SIP] := CsrCombine(csr[SIP], Wrap(Pow2(line)), CsrSet);
            var to := TrapEnter(pc, nextPriv, SIGN64 + line, 0);
            return Some(to);
          }
        }
      } else {
        if Field(csr[MSTATUS], MIE_BIT, 2) == 1 {
          if Field(csr[MIE], Pow2(line), 2) == 1 {
            csr[MIP] := CsrCombine(csr[MIP], Wrap(Pow2(line)), CsrSet);
            var to := TrapEnter(pc, nextPriv, SIGN64 + line, 0);
            return Some(to);
          }
        }
      }
      return None;
    }

    // ----------------------------------------------------- address translation

    /** mmu: the three levels written out; None is a page fault. */
    method Mmu(va: u64) returns (r: Outcome<Option<u64>>)
      requires Valid()
      ensures r == Translate(Snapshot(), va)
    {
      hide ReadPhys, PteBad, PteLeaf;
      if priv == M_MODE || csr[SATP] / 0x1000_0000_0000_0000 == 0 { return Ok(Some(va)); }
      ghost var ram := bus.mem[..];
      ghost var root := Root(Snapshot());

      // Level 2: virtual bits 38:30, or a 1 GiB page from entry bits 53:28.
      var paddr := csr[SATP] % 0x1000_0000_0000 * 0x1000 + va / 0x4000_0000 % 0x200 * 8;
      assert paddr == Slot(root, va, 2);
      var pte := bus.ReadNommu(paddr, 8);
      if pte.Stop? { return Stop(pte.reason); }
      if PteBad(pte.value) { return Ok(None); }
      if PteLeaf(pte.value) {
        return Ok(Some(pte.value / 0x1000_0000 % 0x400_0000 * 0x4000_0000 + va % 0x4000_0000));
      }

      // Level 1: virtual bits 29:21, or a 2 MiB page from entry bits 53:19.
      ghost var table := NextTable(pte.value);
      assert Walk(ram, root, va, 2) == Walk(ram, table, va, 1);
      paddr := pte.value / 0x400 % 0x1000_0000_0000 * 0x1000 + va / 0x20_0000 % 0x200 * 8;
      assert paddr == Slot(table, va, 1);
      pte := bus.ReadNommu(paddr, 8);
      if pte.Stop? { return Stop(pte.reason); }
      if PteBad(pte.value) { return Ok(None); }
      if PteLeaf(pte.value) {
        return Ok(Some(pte.value / 0x8_0000 % 0x8_0000_0000 * 0x20_0000 + va % 0x20_0000));
      }

      // Level 0: virtual bits 20:12, or a 4 KiB page from entry bits 53:10.
      table := NextTable(pte.value);
      assert Walk(ram, root, va, 2) == Walk(ram, table, va, 0);
      paddr := pte.value / 0x400 % 0x1000_0000_0000 * 0x1000 + va / 0x1000 % 0x200 * 8;
      assert paddr == Slot(table, va, 0);
      pte := bus.ReadNommu(paddr, 8);
      if pte.Stop? { return Stop(pte.reason); }
      if PteBad(pte.value) { return Ok(None); }
      if PteLeaf(pte.value) {
        return Ok(Some(pte.value / 0x400 % 0x1000_0000_0000 * 0x1000 + va % 0x1000));
      }
      return Ok(None);
    }

    /** as_read; None is a page fault. */
    method AsRead(va: u64, size: nat) returns (r: Outcome<Option<u64>>)
      requires Valid()
      ensures r == ReadVirt(Snapshot(), va, size)
    {
      hide Translate, ReadPhys;
      var pa := Mmu(va);
      if pa.Stop? { return Stop(pa.reason); }
      if pa.value == None { return Ok(None); }
      var v := bus.ReadNommu(pa.value.value, size);
      if v.Stop? { return Stop(v.reason); }
      return Ok(Some(v.value));
    }

    /** as_write; None is a page fault. */
    method AsWrite(va: u64, size: nat, data: u64, params: Amo) returns (r: Outcome<Option<u64>>)
      requires Valid()
      modifies bus.mem
      ensures match WriteVirt(old(Snapshot()), va, size, data, params)
              case Ok(Some((s, v))) => r == Ok(Some(v)) && Snapshot() == s
              case Ok(None) => r == Ok(None) && Snapshot() == old(Snapshot())
              case Stop(why) => r == Stop(why)
    {
      hide Translate, RamWrite;
      var pa := Mmu(va);
      if pa.Stop? { return Stop(pa.reason); }
      if pa.value == None { return Ok(None); }
      var v := bus.WriteNommu(pa.value.value, size, data, params);
      if v.Stop? { return Stop(v.reason); }
      return Ok(Some(v.value));
    }

    /** fetch: the instruction, or where the fault goes. */
    method FetchInst(pc: u64) returns (r: Outcome<(Option<u64>, u32)>)
      requires Valid()
      modifies csr, this`priv
      ensures match FetchAt(old(Snapshot()), pc)
              case Ok(Word(inst)) => r == Ok((None, inst)) && Snapshot() == old(Snapshot())
              case Ok(Fault(s, to)) => r == Ok((Some(to), 0)) && Snapshot() == s
              case Stop(why) => r == Stop(why)
    {
      hide ReadVirt, Raise;
      if Wrap(pc + 2) % 0x1000 != 0 {
        var v := AsRead(pc, 4);
        if v.Stop? { return Stop(v.reason); }
        if v.value == None {
          var to := RaiseExcept(pc, CAUSE_INST_PAGE_FAULT, pc);
          return Ok((Some(to), 0));
        }
        return Ok((None, v.value.value % B32));
      }
      var lo := AsRead(pc, 2);
      if lo.Stop? { return Stop(lo.reason); }
      if lo.value == None {
        var to := RaiseExcept(pc, CAUSE_INST_PAGE_FAULT, pc);
        return Ok((Some(to), 0));
      }
      var hi := AsRead(Wrap(pc + 2), 2);
      if hi.Stop? { return Stop(hi.reason); }
      if hi.value == None {
        var to := RaiseExcept(pc, CAUSE_INST_PAGE_FAULT, Wrap(pc + 2));
        return Ok((Some(to), 0));
      }
      return Ok((None, (hi.value.value * 0x1_0000 + lo.value.value) % B32));
    }

    // --------------------------------------------------------------- execution

    /** A source register. */
    function Source(r: bv5): (v: u64)
      requires Valid()
      reads this, reg, csr, bus.mem
      ensures v == RegAt(Snapshot(), r)
    {
      reg[r as int]
    }

    /** The shared write-back: x0 is never written. */
    method WriteBack(rd: bv5, v: u64)
      requires Valid()
      modifies reg
      ensures Snapshot() == SetReg(old(Snapshot()), rd, v)
    {
      if rd != 0 { reg[rd as int] := v; }
    }

    /** The load cases. */
    method LoadInst(pc: u64, next: u64, rd: bv5, addr: u64, n: nat, signed: bool, cause: u64)
      returns (r: Outcome<u64>)
      requires Valid()
      modifies reg, csr, this`priv
      ensures Follows(old(Snapshot()), DoLoad(old(Snapshot()), pc, next, rd, addr, n, signed, cause), r)
    {
      hide ReadVirt, Raise, SetReg, Extend;
      var v := AsRead(addr, n);
      if v.Stop? { return Stop(v.reason); }
      if v.value == None {
        var to := RaiseExcept(pc, cause, addr);
        return Ok(to);
      }
      WriteBack(rd, Extend(v.value.value, n, signed));
      return Ok(next);
    }

    /** The store cases. */
    method StoreInst(pc: u64, next: u64, rd: bv5, addr: u64, n: nat, data: u64) returns (r: Outcome<u64>)
      requires Valid()
      modifies bus.mem, csr, this`priv
      ensures Follows(old(Snapshot()), DoStore(old(Snapshot()), pc, next, rd, addr, n, data), r)
    {
      hide WriteVirt, Raise;
      var v := AsWrite(addr, n, data, Plain);
      if v.Stop? { return Stop(v.reason); }
      if v.value == None {
        var to := RaiseExcept(pc, CAUSE_STORE_PAGE_FAULT, addr);
        return Ok(to);
      }
      if rd != 0 { return Stop(Undefined); }
      return Ok(next);
    }

    /** The store-conditional and AMO cases. */
    method AtomicInst(pc: u64, next: u64, rd: bv5, addr: u64, n: nat, data: u64, amo: Amo) returns (r: Outcome<u64>)
      requires Valid()
      modifies bus.mem, reg, csr, this`priv
      ensures Follows(old(Snapshot()), DoAtomic(old(Snapshot()), pc, next, rd, addr, n, data, amo), r)
    {
      hide WriteVirt, Raise, SetReg;
      var v := AsWrite(addr, n, data, amo);
      if v.Stop? { return Stop(v.reason); }
      if v.value == None {
        var to := RaiseExcept(pc, CAUSE_STORE_PAGE_FAULT, addr);
        return Ok(to);
      }
      WriteBack(rd, v.value.value);
      return Ok(next);
    }

    /** The CSR cases. */
    method CsrInst(clock: Clock, pc: u64, next: u64, rd: bv5, addr: nat, data: u64, op: CsrOp)
      returns (r: Outcome<u64>)
      requires Valid()
      modifies reg, csr, this`priv
      ensures Follows(old(Snapshot()), DoCsr(old(Snapshot()), clock, pc, next, rd, addr, data, op), r)
    {
      hide CsrRead, CsrCombine, Raise, SetReg;
      var v := CsrUpdate(clock, addr, data, op);
      if v.Stop? { return Stop(v.reason); }
      if v.value == None {
        var to := RaiseExcept(pc, CAUSE_ILLEGAL_INST, 0);
        return Ok(to);
      }
      WriteBack(rd, v.value.value);
      return Ok(next);
    }

    /** The machine and the result are what the specification gives. */
    ghost predicate Follows(s: State, spec: Outcome<(State, u64)>, r: Outcome<u64>)
      requires Valid()
      reads this, reg, csr, bus.mem
    {
      match spec
      case Ok((t, to)) => r == Ok(to) && Snapshot() == t
      case Stop(why) => r == Stop(why)
    }

    /** The register-only cases. */
    method ComputeInst(pc: u64, next: u64, op: AluOp, rd: bv5, a: u64, b: u64, imm: u64) returns (r: Outcome<u64>)
      requires Valid()
      modifies reg
      ensures Follows(old(Snapshot()), DoCompute(old(Snapshot()), pc, next, op, rd, a, b, imm), r)
    {
      hide Alu, SetReg;
      var v := Alu(op, a, b, imm, pc);
      if v.Stop? { return Stop(v.reason); }
      WriteBack(rd, v.value);
      return Ok(next);
    }

    /** Jumps and branches. */
    method JumpInst(clock: Clock, pc: u64, next: u64, d: Inst) returns (r: Outcome<u64>)
      requires Valid() && (d.op == JAL || d.op == JALR || d.op.Branch?)
      modifies reg
      ensures Follows(old(Snapshot()), Exec(old(Snapshot()), clock, pc, next, d), r)
    {
      hide Taken, SetReg, Wrap, RegAt, ImmOf, Source;
      var a, b, imm := Source(d.rs1), Source(d.rs2), ImmOf(d);
      if d.op.Branch? {
        if d.rd != 0 { return Stop(Undefined); }
        return Ok(if Taken(d.op.cond, a, b) then Wrap(pc as int + imm) else next);
      }
      WriteBack(d.rd, next);
      return Ok(if d.op == JAL then Wrap(pc as int + imm) else Wrap(a as int + imm));
    }

    /** Environment calls, trap returns and the cases that do nothing. */
    method SystemInst(clock: Clock, pc: u64, next: u64, d: Inst) returns (r: Outcome<u64>)
      requires Valid() && SystemOp(d.op)
      modifies csr, this`priv
      ensures Follows(old(Snapshot()), Exec(old(Snapshot()), clock, pc, next, d), r)
    {
      ExecSystem(Snapshot(), clock, pc, next, d);
      hide Raise, Sret, Mret, Exec;
      var to := next;
      if d.op == ECALL {
        to := RaiseExcept(pc, CAUSE_ECALL_FROM_U_MODE + priv, 0);
      } else if d.op == SRET {
        to := SretExit();
      } else if d.op == MRET {
        to := MretExit();
      }
      if d.rd != 0 { return Stop(Undefined); }
      return Ok(to);
    }

    /** The operations that read memory. */
    method ReadInst(clock: Clock, pc: u64, next: u64, d: Inst) returns (r: Outcome<u64>)
      requires Valid() && (d.op.Load? || d.op.Reserve?)
      modifies reg, csr, this`priv
      ensures Follows(old(Snapshot()), Exec(old(Snapshot()), clock, pc, next, d), r)
    {
      hide Exec, Follows, DoLoad, DoStore, DoAtomic, Wrap, RegAt, ImmOf, Source;
      ExecMemory(Snapshot(), clock, pc, next, d);
      var a, imm := Source(d.rs1), ImmOf(d);
      if d.op.Load? {
        r := LoadInst(pc, next, d.rd, Wrap(a as int + imm), d.op.size, d.op.signed, CAUSE_LOAD_PAGE_FAULT);
      } else {
        r := LoadInst(pc, next, d.rd, a, d.op.size, true, CAUSE_STORE_PAGE_FAULT);
      }
    }

    /** The operations that write memory. */
    method WriteInst(clock: Clock, pc: u64, next: u64, d: Inst) returns (r: Outcome<u64>)
      requires Valid() && (d.op.Store? || d.op.Atomic?)
      modifies reg, csr, this`priv, bus.mem
      ensures Follows(old(Snapshot()), Exec(old(Snapshot()), clock, pc, next, d), r)
    {
      hide Exec, Follows, DoLoad, DoStore, DoAtomic, Wrap, RegAt, ImmOf, Source;
      ExecMemory(Snapshot(), clock, pc, next, d);
      var a, b, imm := Source(d.rs1), Source(d.rs2), ImmOf(d);
      if d.op.Store? {
        r := StoreInst(pc, next, d.rd, Wrap(a as int + imm), d.op.size, b);
      } else {
        r := AtomicInst(pc, next, d.rd, a, d.op.size, b, d.op.amo);
      }
    }

    /** execute: the next pc. */
    method ExecuteInst(clock: Clock, pc: u64, next: u64, d: Inst) returns (r: Outcome<u64>)
      requires Valid()
      modifies reg, csr, this`priv, bus.mem
      ensures Follows(old(Snapshot()), Exec(old(Snapshot()), clock, pc, next, d), r)
    {
      ExecCases(Snapshot(), clock, pc, next, d);
      hide Exec, DoCompute, DoCsr, Follows, RegAt, ImmOf, CsrOf, Source;
      var a, b, imm := Source(d.rs1), Source(d.rs2), ImmOf(d);
      if d.op.Compute? {
        r := ComputeInst(pc, next, d.op.alu, d.rd, a, b, imm);
      } else if d.op == JAL || d.op == JALR || d.op.Branch? {
        r := JumpInst(clock, pc, next, d);
      } else if d.op.Load? || d.op.Reserve? {
        r := ReadInst(clock, pc, next, d);
      } else if d.op.Store? || d.op.Atomic? {
        r := WriteInst(clock, pc, next, d);
      } else if d.op.Csr? {
        r := CsrInst(clock, pc, next, d.rd, CsrOf(d), if d.op.useImm then imm else a, d.op.cop);
      } else if d.op == EBREAK || d.op == URET {
        StopFollows(Snapshot(), Panic);
        r := Stop(Panic);
      } else if FloatOp(d.op) {
        StopFollows(Snapshot(), FloatingPoint);
        r := Stop(FloatingPoint);
      } else {
        r := SystemInst(clock, pc, next, d);
      }
    }

    lemma StopFollows(s: State, why: Reason)
      requires Valid()
      ensures Follows(s, Stop(why), Stop(why))
    {
    }

    /** decode, then execute. */
    method DecodeExecute(clock: Clock, pc: u64, inst: u32) returns (r: Outcome<u64>)
      requires Valid()
      modifies reg, csr, this`priv, bus.mem
      ensures Follows(old(Snapshot()), DecodeAndExec(old(Snapshot()), clock, pc, inst), r)
    {
      hide Exec, Dec32, Dec16;
      var d: Outcome<Inst>, next: u64;
      if inst % 4 == 3 {
        d, next := Dec32(inst as bv32), Wrap(pc + 4);
      } else {
        d, next := Dec16((inst % B16) as bv16), Wrap(pc + 2);
      }
      if d.Stop? { return Stop(d.reason); }
      r := ExecuteInst(clock, pc, next, d.value);
    }

    /** One round of the loop of main: an interrupt if one is found, else fetch,
        decode and execute. A trap whose vector is 0 is taken for none. */
    method Round(clock: Clock, found: Option<IntrType>, pc: u64) returns (r: Outcome<u64>)
      requires Valid()
      modifies reg, csr, this`priv, bus.mem
      ensures Follows(old(Snapshot()), RoundOf(old(Snapshot()), clock, found, pc), r)
    {
      hide TakeInterrupt, FetchAt, DecodeAndExec;
      if pc < 0x1000 { return Stop(Panic); }
      if found.Some? {
        var to := HandleInterrupt(found.value, pc);
        if to.Some? && to.value != 0 { return Ok(to.value); }
      }
      var f := FetchInst(pc);
      if f.Stop? { return Stop(f.reason); }
      if f.value.0.Some? && f.value.0.value != 0 { return Ok(f.value.0.value); }
      r := DecodeExecute(clock, pc, f.value.1);
    }
  }
}

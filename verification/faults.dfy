/** Page faults are precise and restartable (execute.c:86-161, 431-541,
    address_space.c:75-128, trap.c:8-83). */
module Faults {
  import opened Wrappers
  import opened Words
  import opened Memory
  import opened AddressSpace
  import opened Decode
  import opened Hart
  import opened Translation
  import opened Execute
  import opened Traps

  /** The virtual address such an operation uses. */
  function AddressOf(s: State, d: Inst): u64
    requires MemoryOp(d.op)
  {
    if d.op.Load? || d.op.Store? then Wrap(RegAt(s, d.rs1) as int + ImmOf(d)) else RegAt(s, d.rs1)
  }

  predicate Faulting(s: State, d: Inst)
    requires MemoryOp(d.op)
  {
    Translate(s, AddressOf(s, d)) == Ok(None)
  }

  function FaultCause(op: Op): u64 { if op.Load? then CAUSE_LOAD_PAGE_FAULT else CAUSE_STORE_PAGE_FAULT }

  lemma FaultingAccess(s: State, pc: u64, next: u64, rd: bv5, va: u64, n: nat, data: u64, signed: bool, cause: u64,
                       amo: Amo)
    requires Translate(s, va) == Ok(None)
    ensures DoLoad(s, pc, next, rd, va, n, signed, cause) == Ok(Raise(s, pc, cause, va))
    ensures DoStore(s, pc, next, rd, va, n, data) == Ok(Raise(s, pc, CAUSE_STORE_PAGE_FAULT, va))
    ensures DoAtomic(s, pc, next, rd, va, n, data, amo) == Ok(Raise(s, pc, CAUSE_STORE_PAGE_FAULT, va))
  {
    hide Translate, Raise;
  }

  /** A faulting instruction does nothing but raise the exception at its own pc
      with the faulting address. */
  lemma FaultRaises(s: State, clock: Clock, pc: u64, next: u64, d: Inst)
    requires MemoryOp(d.op) && Faulting(s, d)
    ensures Exec(s, clock, pc, next, d) == Ok(Raise(s, pc, FaultCause(d.op), AddressOf(s, d)))
  {
    hide Exec, DoLoad, DoStore, DoAtomic, Translate, Raise, Wrap, RegAt, ImmOf;
    ExecMemory(s, clock, pc, next, d);
    var va, b := AddressOf(s, d), RegAt(s, d.rs2);
    match d.op
    case Load(n, signed) => FaultingAccess(s, pc, next, d.rd, va, n, b, signed, CAUSE_LOAD_PAGE_FAULT, Plain);
    case Store(n) => FaultingAccess(s, pc, next, d.rd, va, n, b, true, 0, Plain);
    case Reserve(n) => FaultingAccess(s, pc, next, d.rd, va, n, b, true, CAUSE_STORE_PAGE_FAULT, Plain);
    case Atomic(n, amo) => FaultingAccess(s, pc, next, d.rd, va, n, b, true, 0, amo);
  }

  /** The fault changes no register and no memory; the trap CSRs of the entered
      mode identify the instruction and the address. */
  lemma FaultIsPrecise(s: State, clock: Clock, pc: u64, next: u64, d: Inst)
    requires MemoryOp(d.op) && Faulting(s, d)
    ensures Exec(s, clock, pc, next, d).Ok?
    ensures var (t, to) := Exec(s, clock, pc, next, d).value;
            && t.reg == s.reg && t.ram == s.ram
            && (t.priv == S_MODE || t.priv == M_MODE)
            && to == s.csr[if t.priv == S_MODE then STVEC else MTVEC]
            && t.csr[EpcOf(t.priv)] == pc
            && t.csr[if t.priv == S_MODE then SCAUSE else MCAUSE] == FaultCause(d.op)
            && t.csr[if t.priv == S_MODE then STVAL else MTVAL] == AddressOf(s, d)
  {
    FaultRaises(s, clock, pc, next, d);
    var event := Exception(FaultCause(d.op), AddressOf(s, d));
    EnterRaises(s, pc, event);
    EnterRecords(s, pc, event, 0);
  }

  /** The CSRs a trap into mode p and its return write. */
  predicate TrapCsr(p: Priv, addr: nat) {
    if p == S_MODE then addr in {SSTATUS, SEPC, SCAUSE, STVAL} else addr in {MSTATUS, MEPC, MCAUSE, MTVAL}
  }

  /** The same machine but for the trap CSRs of mode p. */
  predicate SameButTrap(p: Priv, s: State, t: State) {
    && s.reg == t.reg && s.ram == t.ram && s.priv == t.priv
    && forall addr :: 0 <= addr < 4096 && !TrapCsr(p, addr) ==> s.csr[addr] == t.csr[addr]
  }

  /** What a handler that only repairs memory, and returns, leaves behind. */
  function Repaired(faulted: State, ram: Ram): (State, u64) {
    var s := faulted.(ram := ram);
    if s.priv == S_MODE then Sret(s) else Mret(s)
  }

  /** The interrupted machine with other memory, at the privilege that a return from
      mode p gives back. */
  function Resumed(s: State, p: Priv, ram: Ram): State { s.(ram := ram, priv := BackTo(s.priv, p)) }

  /** Exception, repair and return give back the interrupted state with the
      repaired memory, at the interrupted pc. */
  lemma RepairReturns(s: State, pc: u64, cause: u64, tval: u64, ram: Ram)
    ensures var (faulted, _) := Raise(s, pc, cause, tval);
            var (back, to) := Repaired(faulted, ram);
            && to == pc && SameButTrap(faulted.priv, back, Resumed(s, faulted.priv, ram))
            && Sie(back) == Sie(s) && Mie(back) == Mie(s)
  {
    var event := Exception(cause, tval);
    EnterRaises(s, pc, event);
    ReturnRestores(s, pc, event, Raise(s, pc, cause, tval).0.(ram := ram));
    var e := Raise(s, pc, cause, tval).0;
    var r := e.(ram := ram);
    assert r.csr[StatusOf(e.priv) := e.csr[StatusOf(e.priv)]][EpcOf(e.priv) := e.csr[EpcOf(e.priv)]] == r.csr;
    assert Return(e, r, e.priv) == Repaired(e, ram);
  }

  // ------------------------------------------------------------ re-execution

  predicate SimilarOutcome(p: Priv, x: Outcome<(State, u64)>, y: Outcome<(State, u64)>) {
    match (x, y)
    case (Ok((s, to)), Ok((t, to'))) => to == to' && SameButTrap(p, s, t)
    case (Stop(r), Stop(r')) => r == r'
    case _ => false
  }

  lemma TranslateSimilar(p: Priv, s: State, t: State, va: u64)
    requires SameButTrap(p, s, t)
    ensures Translate(s, va) == Translate(t, va)
  {
    assert !TrapCsr(p, SATP);
  }

  lemma RaiseSimilar(p: Priv, s: State, t: State, pc: u64, cause: u64, tval: u64)
    requires SameButTrap(p, s, t) && ExceptTarget(s, cause) == p
    ensures var (s', to) := Raise(s, pc, cause, tval);
            var (t', to') := Raise(t, pc, cause, tval);
            to == to' && SameButTrap(p, s', t')
  {
    assert !TrapCsr(p, MEDELEG) && !TrapCsr(p, STVEC) && !TrapCsr(p, MTVEC);
  }

  lemma LoadSimilar(p: Priv, s: State, t: State, pc: u64, next: u64, rd: bv5, va: u64, n: nat, signed: bool, cause: u64)
    requires SameButTrap(p, s, t) && ExceptTarget(s, cause) == p
    ensures SimilarOutcome(p, DoLoad(s, pc, next, rd, va, n, signed, cause),
                           DoLoad(t, pc, next, rd, va, n, signed, cause))
  {
    hide Translate, Raise;
    TranslateSimilar(p, s, t, va);
    RaiseSimilar(p, s, t, pc, cause, va);
  }

  lemma StoreSimilar(p: Priv, s: State, t: State, pc: u64, next: u64, rd: bv5, va: u64, n: nat, data: u64)
    requires SameButTrap(p, s, t) && ExceptTarget(s, CAUSE_STORE_PAGE_FAULT) == p
    ensures SimilarOutcome(p, DoStore(s, pc, next, rd, va, n, data), DoStore(t, pc, next, rd, va, n, data))
  {
    hide Translate, Raise, RamWrite;
    TranslateSimilar(p, s, t, va);
    RaiseSimilar(p, s, t, pc, CAUSE_STORE_PAGE_FAULT, va);
  }

  lemma AtomicSimilar(p: Priv, s: State, t: State, pc: u64, next: u64, rd: bv5, va: u64, n: nat, data: u64, amo: Amo)
    requires SameButTrap(p, s, t) && ExceptTarget(s, CAUSE_STORE_PAGE_FAULT) == p
    ensures SimilarOutcome(p, DoAtomic(s, pc, next, rd, va, n, data, amo), DoAtomic(t, pc, next, rd, va, n, data, amo))
  {
    hide Translate, Raise, RamWrite;
    TranslateSimilar(p, s, t, va);
    RaiseSimilar(p, s, t, pc, CAUSE_STORE_PAGE_FAULT, va);
  }

  lemma SameReg(s: State, t: State, r: bv5)
    requires s.reg == t.reg
    ensures RegAt(s, r) == RegAt(t, r)
  {
  }

  /** Memory operations do not see the trap CSRs of the mode that handles their
      page faults. */
  lemma ExecSimilar(p: Priv, s: State, t: State, clock: Clock, clock': Clock, pc: u64, next: u64, d: Inst)
    requires MemoryOp(d.op) && SameButTrap(p, s, t) && ExceptTarget(s, FaultCause(d.op)) == p
    ensures SimilarOutcome(p, Exec(s, clock, pc, next, d), Exec(t, clock', pc, next, d))
  {
    hide Exec, DoLoad, DoStore, DoAtomic, SimilarOutcome, ExceptTarget, RegAt, ImmOf, Wrap;
    ExecMemory(s, clock, pc, next, d);
    ExecMemory(t, clock', pc, next, d);
    SameReg(s, t, d.rs1);
    SameReg(s, t, d.rs2);
    hide SameButTrap;
    var a, b, va := RegAt(s, d.rs1), RegAt(s, d.rs2), Wrap(RegAt(s, d.rs1) as int + ImmOf(d));
    match d.op
    case Load(n, signed) => LoadSimilar(p, s, t, pc, next, d.rd, va, n, signed, CAUSE_LOAD_PAGE_FAULT);
    case Store(n) => StoreSimilar(p, s, t, pc, next, d.rd, va, n, b);
    case Reserve(n) => LoadSimilar(p, s, t, pc, next, d.rd, a, n, true, CAUSE_STORE_PAGE_FAULT);
    case Atomic(n, amo) => AtomicSimilar(p, s, t, pc, next, d.rd, a, n, b, amo);
  }

  /** A faulting integer load, store or AMO, whose handler changes memory in any
      way and returns, is executed again with the effect it would have had on the
      changed memory with no fault before, apart from the trap CSRs. */
  lemma FaultRestarts(s: State, clock: Clock, clock': Clock, pc: u64, next: u64, d: Inst, ram: Ram)
    requires MemoryOp(d.op) && Faulting(s, d)
    ensures Exec(s, clock, pc, next, d).Ok?
    ensures var (faulted, _) := Exec(s, clock, pc, next, d).value;
            var (back, to) := Repaired(faulted, ram);
            && to == pc
            && SimilarOutcome(faulted.priv, Exec(back, clock', to, next, d),
                              Exec(Resumed(s, faulted.priv, ram), clock, pc, next, d))
  {
    FaultRaises(s, clock, pc, next, d);
    var cause, va := FaultCause(d.op), AddressOf(s, d);
    RepairReturns(s, pc, cause, va, ram);
    var faulted := Raise(s, pc, cause, va).0;
    var back := Repaired(faulted, ram).0;
    var p := faulted.priv;
    assert ExceptTarget(s, cause) == p;
    assert !TrapCsr(p, MEDELEG);
    assert ExceptTarget(back, cause) == p;
    ExecSimilar(p, back, Resumed(s, p, ram), clock', clock, pc, next, d);
  }
}

/** The state of the emulated hart, its control registers, and the trap state
    machine (csr.c, trap.c, trap.h, interrupt.h), as functions on states. */
module Hart {
  import opened Wrappers
  import opened Words
  import opened Memory
  import opened Fields
  import opened Decode

  const U_MODE := 0
  const S_MODE := 1
  const M_MODE := 3

  type Priv = p: nat | p < 4

  const SSTATUS := 0x100
  const STVEC := 0x105
  const SEPC := 0x141
  const SCAUSE := 0x142
  const STVAL := 0x143
  const SIE := 0x104
  const SIP := 0x144
  const SATP := 0x180
  const MSTATUS := 0x300
  const MEDELEG := 0x302
  const MIDELEG := 0x303
  const MIE := 0x304
  const MTVEC := 0x305
  const MEPC := 0x341
  const MCAUSE := 0x342
  const MTVAL := 0x343
  const MIP := 0x344

  const CAUSE_ILLEGAL_INST := 0x2
  const CAUSE_ECALL_FROM_U_MODE := 0x8
  const CAUSE_INST_PAGE_FAULT := 0xc
  const CAUSE_LOAD_PAGE_FAULT := 0xd
  const CAUSE_STORE_PAGE_FAULT := 0xf

  datatype RawState = State(reg: seq<u64>, csr: seq<u64>, priv: Priv, ram: Ram)

  type State = s: RawState | |s.reg| == 32 && |s.csr| == 4096
    witness State(seq(32, _ => 0), seq(4096, _ => 0), M_MODE, [])

  /** Host clocks, sampled once per instruction. */
  datatype Clock = Clock(rtc: u64, ticks: u64)

  // ------------------------------------------------------------------- CSRs

  predicate PlainCsr(addr: nat) {
    || addr == 0x003 || addr == 0x100 || 0x102 <= addr <= 0x105 || 0x140 <= addr <= 0x144 || addr == 0x180
    || 0x300 <= addr <= 0x305 || 0x340 <= addr <= 0x344 || addr == 0x3a0 || addr == 0x3a2
    || 0x3b0 <= addr <= 0x3bf || 0xf11 <= addr <= 0xf14
  }

  predicate TrappingCsr(addr: nat) {
    0x3c0 <= addr <= 0x3ef || 0xb03 <= addr <= 0xb1f
  }

  /** csr_read: None is the illegal-instruction exception. */
  function CsrRead(csr: seq<u64>, clock: Clock, addr: nat): Outcome<Option<u64>>
    requires |csr| == 4096
  {
    if addr >= 4096 then Stop(Panic)
    else if PlainCsr(addr) then Ok(Some(csr[addr]))
    else if addr == 0x106 || addr == 0x306 then Ok(Some(7))
    else if addr == 0xc01 then Ok(Some(clock.rtc))
    else if addr == 0xc00 || addr == 0xc02 then Ok(Some(clock.ticks))
    else if TrappingCsr(addr) then Ok(None)
    else if addr == 0 then Ok(Some(0))
    else Stop(Panic)
  }

  function CsrCombine(before: u64, data: u64, op: CsrOp): u64 {
    match op
    case CsrWrite => data
    case CsrSet => BvOr(before, data)
    case CsrClear => BvAnd(before, BvNot(data))
  }

  /** Registers and memory are the same. */
  predicate SameMachine(s: State, t: State) { s.reg == t.reg && s.ram == t.ram }

  /** csr_update: the value read, or None and no change when it traps. */
  function CsrUpdate(s: State, clock: Clock, addr: nat, data: u64, op: CsrOp): (r: Outcome<(State, Option<u64>)>)
    ensures r.Ok? ==> SameMachine(s, r.value.0) && r.value.0.priv == s.priv
  {
    var before :- CsrRead(s.csr, clock, addr);
    match before
    case None => Ok((s, None))
    case Some(v) => Ok((s.(csr := s.csr[addr := CsrCombine(v, data, op)]), Some(v)))
  }

  /** A CSR write returns the old value; it is read back if the CSR has storage,
      and else (counters and constants) leaves every read as it was. No other CSR
      changes: sstatus and mstatus are two cells. */
  lemma CsrReadsBack(s: State, clock: Clock, addr: nat, data: u64)
    requires CsrUpdate(s, clock, addr, data, CsrWrite).Ok? && CsrRead(s.csr, clock, addr).value.Some?
    ensures var (t, v) := CsrUpdate(s, clock, addr, data, CsrWrite).value;
            && Ok(v) == CsrRead(s.csr, clock, addr)
            && CsrRead(t.csr, clock, addr) == (if PlainCsr(addr) then Ok(Some(data)) else CsrRead(s.csr, clock, addr))
            && forall a: nat :: a != addr ==> CsrRead(t.csr, clock, a) == CsrRead(s.csr, clock, a)
  {
    hide PlainCsr, TrappingCsr;
  }

  // ------------------------------------------------------------------ traps

  // Weights of the status bits.
  const SIE_BIT := 0x2       // bit 1
  const MIE_BIT := 0x8       // bit 3
  const SPIE_BIT := 0x20     // bit 5
  const MPIE_BIT := 0x80     // bit 7
  const SPP_BIT := 0x100     // bit 8
  const MPP_FIELD := 0x800   // bits 12:11

  function SEntered(sstatus: u64, priv: Priv): u64 {
    var a := SetField(sstatus, SPP_BIT, 2, if priv == U_MODE then 0 else 1);
    var b := SetField(a, SPIE_BIT, 2, Field(a, SIE_BIT, 2));
    SetField(b, SIE_BIT, 2, 0)
  }

  function MEntered(mstatus: u64, priv: Priv): u64 {
    var a := SetField(mstatus, MPP_FIELD, 4, priv);
    var b := SetField(a, MPIE_BIT, 2, Field(a, MIE_BIT, 2));
    SetField(b, MIE_BIT, 2, 0)
  }

  /** trap_enter, with the handler address. */
  function TrapEnter(s: State, pc: u64, target: Priv, cause: u64, tval: u64): (r: (State, u64))
    ensures SameMachine(s, r.0)
  {
    if target == S_MODE then
      (s.(priv := S_MODE,
          csr := s.csr[SCAUSE := cause][STVAL := tval][SSTATUS := SEntered(s.csr[SSTATUS], s.priv)][SEPC := pc]),
       s.csr[STVEC])
    else
      (s.(priv := M_MODE,
          csr := s.csr[MCAUSE := cause][MTVAL := tval][MSTATUS := MEntered(s.csr[MSTATUS], s.priv)][MEPC := pc]),
       s.csr[MTVEC])
  }

  function SExited(sstatus: u64): u64 { SetField(sstatus, SIE_BIT, 2, Field(sstatus, SPIE_BIT, 2)) }
  function MExited(mstatus: u64): u64 { SetField(mstatus, MIE_BIT, 2, Field(mstatus, MPIE_BIT, 2)) }

  /** trap_exit for SRET, with the address returned to. */
  function Sret(s: State): (r: (State, u64))
    ensures SameMachine(s, r.0)
  {
    var sstatus := s.csr[SSTATUS];
    (s.(priv := if Field(sstatus, SPP_BIT, 2) == 1 then S_MODE else U_MODE,
        csr := s.csr[SSTATUS := SExited(sstatus)]),
     s.csr[SEPC])
  }

  /** trap_exit for MRET. */
  function Mret(s: State): (r: (State, u64))
    ensures SameMachine(s, r.0)
  {
    var mstatus := s.csr[MSTATUS];
    (s.(priv := Field(mstatus, MPP_FIELD, 4), csr := s.csr[MSTATUS := MExited(mstatus)]), s.csr[MEPC])
  }

  /** except_next_priv */
  function ExceptTarget(s: State, cause: nat): Priv {
    if s.priv != M_MODE && Field(s.csr[MEDELEG], Pow2(cause), 2) == 1 then S_MODE else M_MODE
  }

  /** raise_except */
  function Raise(s: State, pc: u64, cause: u64, tval: u64): (r: (State, u64))
    ensures SameMachine(s, r.0)
  {
    TrapEnter(s, pc, ExceptTarget(s, cause), cause, tval)
  }

  // -------------------------------------------------------------- interrupts

  datatype IntrType = Software | Timer | External

  function IntrIndex(t: IntrType): nat {
    match t case Software => 0 case Timer => 4 case External => 8
  }

  /** intr_cause without its interrupt bit. */
  function IntrLine(t: IntrType, p: Priv): nat { IntrIndex(t) + p }

  function IntrTarget(s: State, t: IntrType): Priv {
    if s.priv != M_MODE && Field(s.csr[MIDELEG], Pow2(IntrLine(t, S_MODE)), 2) == 1 then S_MODE else M_MODE
  }

  /** handle_interrupt once a source has been found; None when it is not taken. */
  function TakeInterrupt(s: State, t: IntrType, pc: u64): Option<(State, u64)> {
    var target := IntrTarget(s, t);
    var (status, enable, pend, bit) :=
      if target == S_MODE then (SSTATUS, SIE, SIP, SIE_BIT) else (MSTATUS, MIE, MIP, MIE_BIT);
    var line := IntrLine(t, target);
    if Field(s.csr[status], bit, 2) == 1 && Field(s.csr[enable], Pow2(line), 2) == 1 then
      var s' := s.(csr := s.csr[pend := CsrCombine(s.csr[pend], Wrap(Pow2(line)), CsrSet)]);
      Some(TrapEnter(s', pc, target, SIGN64 + line, 0))
    else None
  }
}

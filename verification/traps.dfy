/** Nested traps: what each return restores, over runs of any depth
    (trap.c:8-131, trap.h:23-46, interrupt.h:22-63). */
module Traps {
  import opened Wrappers
  import opened Words
  import opened Memory
  import opened Fields
  import opened Hart

  datatype Event = Exception(cause: u64, tval: u64) | Interrupt(t: IntrType)

  /** A trap and what is done about it: `sBody` if it is delivered to S-mode,
      `mBody` if to M-mode. */
  datatype Trap = Trap(event: Event, sBody: Body, mBody: Body)

  /** What a handler does between its save and its restore: compute with
      registers and memory, write a CSR, or be interrupted at `pc` by another
      trap. */
  datatype Body =
    | End
    | Compute(reg: seq<u64>, ram: Ram, rest: Body)
    | Write(addr: nat, value: u64, rest: Body)
    | Nested(pc: u64, trap: Trap, rest: Body)

  function Enter(s: State, pc: u64, event: Event): Option<(State, u64)> {
    match event
    case Exception(cause, tval) => Some(Raise(s, pc, cause, tval))
    case Interrupt(t) => TakeInterrupt(s, t, pc)
  }

  // The cells a handler of each mode saves on entry and restores on exit.
  function StatusOf(p: Priv): nat { if p == S_MODE then SSTATUS else MSTATUS }
  function EpcOf(p: Priv): nat { if p == S_MODE then SEPC else MEPC }

  predicate STrapState(addr: nat) { addr == SSTATUS || addr == SEPC || addr == SCAUSE || addr == STVAL }

  /** A handler may write any CSR but the other mode's trap state. */
  predicate MayWrite(p: Priv, addr: nat) {
    && addr < 4096
    && (p == S_MODE ==> addr != MSTATUS)
    && (p != S_MODE ==> !STrapState(addr))
  }

  predicate Disciplined(t: Trap) {
    DisciplinedBody(t.sBody, S_MODE) && DisciplinedBody(t.mBody, M_MODE)
  }

  predicate DisciplinedBody(b: Body, p: Priv) {
    match b
    case End => true
    case Compute(reg, _, rest) => |reg| == 32 && DisciplinedBody(rest, p)
    case Write(addr, _, rest) => MayWrite(p, addr) && DisciplinedBody(rest, p)
    case Nested(_, t, rest) => Disciplined(t) && DisciplinedBody(rest, p)
  }

  /** Take the trap, run the handler between a save and a restore of its mode's
      status and epc, and return. A masked interrupt does nothing. */
  function Run(s: State, pc: u64, t: Trap): (State, u64)
    requires Disciplined(t)
    decreases t
  {
    match Enter(s, pc, t.event)
    case None => (s, pc)
    case Some((entered, _)) =>
      if entered.priv == S_MODE then Return(entered, RunBody(entered, t.sBody, S_MODE), S_MODE)
      else Return(entered, RunBody(entered, t.mBody, M_MODE), M_MODE)
  }

  /** The handler's last steps: restore what was saved on entry, then xRET. */
  function Return(entered: State, s: State, p: Priv): (State, u64) {
    var restored := s.(csr := s.csr[StatusOf(p) := entered.csr[StatusOf(p)]][EpcOf(p) := entered.csr[EpcOf(p)]]);
    if p == S_MODE then Sret(restored) else Mret(restored)
  }

  function RunBody(s: State, b: Body, p: Priv): State
    requires DisciplinedBody(b, p)
    decreases b
  {
    match b
    case End => s
    case Compute(reg, ram, rest) => RunBody(s.(reg := reg, ram := ram), rest, p)
    case Write(addr, value, rest) => RunBody(s.(csr := s.csr[addr := value]), rest, p)
    case Nested(pc, t, rest) => RunBody(Run(s, pc, t).0, rest, p)
  }

  predicate Sie(s: State) { Field(s.csr[SSTATUS], SIE_BIT, 2) == 1 }
  predicate Mie(s: State) { Field(s.csr[MSTATUS], MIE_BIT, 2) == 1 }

  predicate SameSTrapState(s: State, t: State) {
    forall addr :: 0 <= addr < 4096 && STrapState(addr) ==> s.csr[addr] == t.csr[addr]
  }

  /** The bits of sstatus other than SIE (1), SPIE (5) and SPP (8). */
  predicate SameSRest(x: u64, y: u64) {
    Field(x, 1, 2) == Field(y, 1, 2) && Field(x, 4, 8) == Field(y, 4, 8) && Field(x, 64, 4) == Field(y, 64, 4)
    && x / 512 == y / 512
  }

  /** The bits of mstatus other than MIE (3), MPIE (7) and MPP (12:11). */
  predicate SameMRest(x: u64, y: u64) {
    Field(x, 1, 8) == Field(y, 1, 8) && Field(x, 16, 8) == Field(y, 16, 8) && Field(x, 256, 8) == Field(y, 256, 8)
    && x / 8192 == y / 8192
  }

  lemma SetSpp(x: u64, v: nat)
    requires v < 2
    ensures var y := SetField(x, SPP_BIT, 2, v);
            && SameSRest(x, y) && Field(y, SPP_BIT, 2) == v
            && Field(y, SIE_BIT, 2) == Field(x, SIE_BIT, 2)
  {
    SetFieldParts(x, SPP_BIT, 2, v, B64 / 512);
    var y := SetField(x, SPP_BIT, 2, v);
    SameBelow(x, y, 1, 2, 128, 256);
    SameBelow(x, y, 4, 8, 8, 256);
    SameBelow(x, y, 64, 4, 1, 256);
    SameBelow(x, y, 2, 2, 64, 256);
  }

  lemma SetSpie(x: u64, v: nat)
    requires v < 2
    ensures var y := SetField(x, SPIE_BIT, 2, v);
            && SameSRest(x, y) && Field(y, SPIE_BIT, 2) == v
            && Field(y, SPP_BIT, 2) == Field(x, SPP_BIT, 2) && Field(y, SIE_BIT, 2) == Field(x, SIE_BIT, 2)
  {
    SetFieldParts(x, SPIE_BIT, 2, v, B64 / 64);
    var y := SetField(x, SPIE_BIT, 2, v);
    SameBelow(x, y, 1, 2, 16, 32);
    SameBelow(x, y, 4, 8, 1, 32);
    SameBelow(x, y, 2, 2, 8, 32);
    SameAbove(x, y, 64, 1, 4);
    SameAbove(x, y, 64, 4, 2);
    SameAbove(x, y, 64, 8, 2);
  }

  lemma SetSie(x: u64, v: nat)
    requires v < 2
    ensures var y := SetField(x, SIE_BIT, 2, v);
            && SameSRest(x, y) && Field(y, SIE_BIT, 2) == v
            && Field(y, SPP_BIT, 2) == Field(x, SPP_BIT, 2) && Field(y, SPIE_BIT, 2) == Field(x, SPIE_BIT, 2)
  {
    SetFieldParts(x, SIE_BIT, 2, v, B64 / 4);
    var y := SetField(x, SIE_BIT, 2, v);
    SameBelow(x, y, 1, 2, 1, 2);
    SameAbove(x, y, 4, 1, 8);
    SameAbove(x, y, 4, 8, 2);
    SameAbove(x, y, 4, 16, 4);
    SameAbove(x, y, 4, 64, 2);
    SameAbove(x, y, 4, 128, 2);
  }

  lemma SetMpp(x: u64, v: nat)
    requires v < 4
    ensures var y := SetField(x, MPP_FIELD, 4, v);
            && SameMRest(x, y) && Field(y, MPP_FIELD, 4) == v
            && Field(y, MIE_BIT, 2) == Field(x, MIE_BIT, 2)
  {
    SetFieldParts(x, MPP_FIELD, 4, v, B64 / 8192);
    var y := SetField(x, MPP_FIELD, 4, v);
    SameBelow(x, y, 1, 8, 256, 2048);
    SameBelow(x, y, 16, 8, 16, 2048);
    SameBelow(x, y, 256, 8, 1, 2048);
    SameBelow(x, y, 8, 2, 128, 2048);
  }

  lemma SetMpie(x: u64, v: nat)
    requires v < 2
    ensures var y := SetField(x, MPIE_BIT, 2, v);
            && SameMRest(x, y) && Field(y, MPIE_BIT, 2) == v
            && Field(y, MPP_FIELD, 4) == Field(x, MPP_FIELD, 4) && Field(y, MIE_BIT, 2) == Field(x, MIE_BIT, 2)
  {
    SetFieldParts(x, MPIE_BIT, 2, v, B64 / 256);
    var y := SetField(x, MPIE_BIT, 2, v);
    SameBelow(x, y, 1, 8, 16, 128);
    SameBelow(x, y, 16, 8, 1, 128);
    SameBelow(x, y, 8, 2, 8, 128);
    SameAbove(x, y, 256, 1, 8);
    SameAbove(x, y, 256, 8, 4);
    SameAbove(x, y, 256, 32, 2);
  }

  lemma SetMie(x: u64, v: nat)
    requires v < 2
    ensures var y := SetField(x, MIE_BIT, 2, v);
            && SameMRest(x, y) && Field(y, MIE_BIT, 2) == v
            && Field(y, MPP_FIELD, 4) == Field(x, MPP_FIELD, 4) && Field(y, MPIE_BIT, 2) == Field(x, MPIE_BIT, 2)
  {
    SetFieldParts(x, MIE_BIT, 2, v, B64 / 16);
    var y := SetField(x, MIE_BIT, 2, v);
    SameBelow(x, y, 1, 8, 1, 8);
    SameAbove(x, y, 16, 1, 8);
    SameAbove(x, y, 16, 8, 2);
    SameAbove(x, y, 16, 16, 8);
    SameAbove(x, y, 16, 128, 4);
    SameAbove(x, y, 16, 512, 2);
  }

  /** Entering S-mode moves SIE to SPIE, clears SIE, records in SPP whether
      U-mode was left, and changes no other status bit. */
  lemma SEntryBits(x: u64, priv: Priv)
    ensures var y := SEntered(x, priv);
            && Field(y, SPP_BIT, 2) == (if priv == U_MODE then 0 else 1)
            && Field(y, SPIE_BIT, 2) == Field(x, SIE_BIT, 2) && Field(y, SIE_BIT, 2) == 0
            && SameSRest(x, y)
  {
    var v := if priv == U_MODE then 0 else 1;
    var a := SetField(x, SPP_BIT, 2, v);
    SetSpp(x, v);
    var b := SetField(a, SPIE_BIT, 2, Field(a, SIE_BIT, 2));
    SetSpie(a, Field(a, SIE_BIT, 2));
    SetSie(b, 0);
  }

  /** Entering M-mode: MIE to MPIE, MIE cleared, the privilege in MPP, no other
      bit changed. */
  lemma MEntryBits(x: u64, priv: Priv)
    ensures var y := MEntered(x, priv);
            && Field(y, MPP_FIELD, 4) == priv
            && Field(y, MPIE_BIT, 2) == Field(x, MIE_BIT, 2) && Field(y, MIE_BIT, 2) == 0
            && SameMRest(x, y)
  {
    var a := SetField(x, MPP_FIELD, 4, priv);
    SetMpp(x, priv);
    var b := SetField(a, MPIE_BIT, 2, Field(a, MIE_BIT, 2));
    SetMpie(a, Field(a, MIE_BIT, 2));
    SetMie(b, 0);
  }

  /** xRET gives back the enable bit that trap entry saved and the rest of the
      status register outside the saved fields. */
  lemma ExitUndoesEntry(x: u64, priv: Priv)
    ensures var y := SExited(SEntered(x, priv));
            Field(y, SIE_BIT, 2) == Field(x, SIE_BIT, 2) && SameSRest(x, y)
    ensures var y := MExited(MEntered(x, priv));
            Field(y, MIE_BIT, 2) == Field(x, MIE_BIT, 2) && SameMRest(x, y)
  {
    SEntryBits(x, priv);
    MEntryBits(x, priv);
    SetSie(SEntered(x, priv), Field(x, SIE_BIT, 2));
    SetMie(MEntered(x, priv), Field(x, MIE_BIT, 2));
  }

  /** A trap lowers the privilege exactly when it is taken at privilege 2, which MRET
      can set, and is delegated to S-mode; the entered mode masks itself. */
  lemma EnterRaises(s: State, pc: u64, event: Event)
    requires Enter(s, pc, event).Some?
    ensures var (e, handler) := Enter(s, pc, event).value;
            && (e.priv == S_MODE || e.priv == M_MODE)
            && (e.priv < s.priv <==> s.priv == 2 && e.priv == S_MODE)
            && e.reg == s.reg && e.ram == s.ram
            && e.csr[EpcOf(e.priv)] == pc
            && e.csr[StatusOf(e.priv)] == (if e.priv == S_MODE then SEntered(s.csr[SSTATUS], s.priv)
                                           else MEntered(s.csr[MSTATUS], s.priv))
            && (e.priv == S_MODE ==> !Sie(e) && e.csr[MSTATUS] == s.csr[MSTATUS] && handler == s.csr[STVEC])
            && (e.priv == M_MODE ==> !Mie(e) && SameSTrapState(s, e) && handler == s.csr[MTVEC])
  {
    SEntryBits(s.csr[SSTATUS], s.priv);
    MEntryBits(s.csr[MSTATUS], s.priv);
    assert SSTATUS != SEPC && MSTATUS != MEPC;
  }

  /** The entered mode's own cells tell the handler why and where, and only
      trap CSRs (and, for an interrupt, the pending word) have changed. */
  lemma EnterRecords(s: State, pc: u64, event: Event, addr: nat)
    requires Enter(s, pc, event).Some? && addr < 4096
    ensures var e := Enter(s, pc, event).value.0;
            var own := if e.priv == S_MODE then [SSTATUS, SEPC, SCAUSE, STVAL] else [MSTATUS, MEPC, MCAUSE, MTVAL];
            var pend := if e.priv == S_MODE then SIP else MIP;
            && e.csr[own[1]] == pc
            && (event.Exception? ==> e.csr[own[2]] == event.cause && e.csr[own[3]] == event.tval)
            && (event.Interrupt? ==> e.csr[own[2]] == SIGN64 + IntrLine(event.t, e.priv) && e.csr[own[3]] == 0)
            && (addr !in own && !(event.Interrupt? && addr == pend) ==> e.csr[addr] == s.csr[addr])
  {
  }

  /** A handler cannot be interrupted again into its own mode before it
      re-enables interrupts itself. */
  lemma EnteredIsMasked(s: State, pc: u64, event: Event, t: IntrType, pc': u64)
    requires Enter(s, pc, event).Some?
    ensures var e := Enter(s, pc, event).value.0;
            IntrTarget(e, t) == e.priv ==> TakeInterrupt(e, t, pc').None?
  {
    EnterRaises(s, pc, event);
  }

  // ------------------------------------------ which interrupts are taken

  /** The global enable bit of a mode. */
  predicate Enable(s: State, p: Priv) { if p == S_MODE then Sie(s) else Mie(s) }

  /** The global rule (section 3.1.6.1 of the Privileged ISA): interrupts for a higher
      mode are always enabled, for a lower one never, for the current one by xIE. */
  predicate Global(s: State, p: Priv) { s.priv < p || (s.priv == p && Enable(s, p)) }

  /** The enable bit of the interrupt itself, in the target's xie. */
  predicate Enabled(s: State, t: IntrType) {
    var p := IntrTarget(s, t);
    Field(s.csr[if p == S_MODE then SIE else MIE], Pow2(IntrLine(t, p)), 2) == 1
  }

  /** The code tests the target's xIE whatever mode it interrupts. It takes an interrupt
      as the rule says exactly when the interrupt itself is off, or the hart is in the
      target mode, or xIE is set just when the rule would not look at it: an interrupt
      for a higher mode is lost exactly when that mode's xIE is clear, and one for
      S-mode is taken at privilege 2, which is above it, exactly when SIE is set. */
  lemma InterruptIff(s: State, t: IntrType, pc: u64)
    ensures var p, taken := IntrTarget(s, t), TakeInterrupt(s, t, pc).Some?;
            && ((taken <==> Global(s, p) && Enabled(s, t))
                <==> !Enabled(s, t) || s.priv == p || (s.priv < p <==> Enable(s, p)))
            && (!taken && Global(s, p) && Enabled(s, t) <==> Enabled(s, t) && s.priv < p && !Enable(s, p))
            && (taken && !Global(s, p) <==> Enabled(s, t) && s.priv > p && Enable(s, p))
            && (s.priv > p ==> s.priv == 2 && p == S_MODE)
  {
    hide Field, Pow2;
  }

  /** A hart with the timer interrupts of both modes enabled in sie and mie. */
  function TimersOn(priv: Priv, mideleg: u64, sstatus: u64): State {
    var csr: seq<u64> := seq(4096, _ => 0)[SIE := 0x20][MIE := 0x80][MIDELEG := mideleg][SSTATUS := sstatus];
    State(seq(32, _ => 0), csr, priv, [])
  }

  lemma TimerBits()
    ensures Pow2(IntrLine(Timer, S_MODE)) == 0x20 && Pow2(IntrLine(Timer, M_MODE)) == 0x80
    ensures Field(0x20, 0x20, 2) == 1 && Field(0x80, 0x80, 2) == 1 && Field(0, 0x20, 2) == 0
    ensures Field(0, SIE_BIT, 2) == 0 && Field(SIE_BIT, SIE_BIT, 2) == 1 && Field(0, MIE_BIT, 2) == 0
  {
    assert Pow2(5) == 0x20 && Pow2(7) == 0x80;
  }

  /** In S-mode a machine timer interrupt waits for MIE. */
  lemma LostBelowMachine(pc: u64) returns (s: State)
    ensures s.priv == S_MODE && IntrTarget(s, Timer) == M_MODE && Enabled(s, Timer) && Global(s, M_MODE)
    ensures TakeInterrupt(s, Timer, pc).None?
  {
    hide Field, Pow2;
    TimerBits();
    s := TimersOn(S_MODE, 0, 0);
    InterruptIff(s, Timer, pc);
  }

  /** In U-mode a delegated timer interrupt waits for SIE. */
  lemma LostBelowSupervisor(pc: u64) returns (s: State)
    ensures s.priv == U_MODE && IntrTarget(s, Timer) == S_MODE && Enabled(s, Timer) && Global(s, S_MODE)
    ensures TakeInterrupt(s, Timer, pc).None?
  {
    hide Field, Pow2;
    TimerBits();
    s := TimersOn(U_MODE, 0x20, 0);
    InterruptIff(s, Timer, pc);
  }

  /** At privilege 2 a delegated timer interrupt is taken, into a lower mode. */
  lemma TakenIntoLower(pc: u64) returns (s: State)
    ensures s.priv == 2 && IntrTarget(s, Timer) == S_MODE && !Global(s, S_MODE)
    ensures TakeInterrupt(s, Timer, pc).Some?
  {
    hide Field, Pow2;
    TimerBits();
    s := TimersOn(2, 0x20, SIE_BIT);
    InterruptIff(s, Timer, pc);
  }

  /** The privilege a return from mode p gives back: the one trapped from, but that
      SPP has no room for privilege 2. */
  function BackTo(priv: Priv, p: Priv): Priv { if p == S_MODE && priv == 2 then S_MODE else priv }

  lemma ReturnRestores(s: State, pc: u64, event: Event, t: State)
    requires Enter(s, pc, event).Some?
    ensures var e := Enter(s, pc, event).value.0;
            var (r, pc') := Return(e, t, e.priv);
            && pc' == pc && r.priv == BackTo(s.priv, e.priv)
            && (e.priv == S_MODE ==> Sie(r) == Sie(s) && r.csr[MSTATUS] == t.csr[MSTATUS])
            && (e.priv == M_MODE ==> Mie(r) == Mie(s) && SameSTrapState(t, r))
  {
    var e := Enter(s, pc, event).value.0;
    EnterRaises(s, pc, event);
    SEntryBits(s.csr[SSTATUS], s.priv);
    MEntryBits(s.csr[MSTATUS], s.priv);
    ExitUndoesEntry(s.csr[StatusOf(e.priv)], s.priv);
    assert SSTATUS != SEPC && MSTATUS != MEPC;
  }

  /** Every return of a properly nested run gives back the interrupted pc, both
      interrupt-enable bits and the privilege, exactly unless this was 2 and the trap
      went to S-mode; a run whose outermost trap goes to M-mode leaves the S-mode trap
      state as it was. */
  lemma {:induction false} RunRestores(s: State, pc: u64, t: Trap)
    requires Disciplined(t)
    ensures var (s', pc') := Run(s, pc, t);
            var entered := Enter(s, pc, t.event);
            && pc' == pc && Sie(s') == Sie(s) && Mie(s') == Mie(s)
            && (s'.priv == s.priv <==> !(s.priv == 2 && entered.Some? && entered.value.0.priv == S_MODE))
            && (s'.priv != s.priv ==> s'.priv == S_MODE)
            && (entered.Some? && entered.value.0.priv == M_MODE ==> SameSTrapState(s, s'))
    decreases t
  {
    match Enter(s, pc, t.event) {
      case None =>
      case Some((e, _)) =>
        EnterRaises(s, pc, t.event);
        var body := if e.priv == S_MODE then t.sBody else t.mBody;
        BodyKeeps(e, body, e.priv);
        ReturnRestores(s, pc, t.event, RunBody(e, body, e.priv));
        assert STrapState(SSTATUS);
    }
  }

  /** Between save and restore a handler keeps its privilege and the other
      mode's state. */
  lemma {:induction false} BodyKeeps(s: State, b: Body, p: Priv)
    requires (p == S_MODE || p == M_MODE) && s.priv == p && DisciplinedBody(b, p)
    ensures RunBody(s, b, p).priv == p
    ensures p == S_MODE ==> Mie(RunBody(s, b, p)) == Mie(s)
    ensures p == M_MODE ==> SameSTrapState(s, RunBody(s, b, p))
    decreases b
  {
    match b
    case End =>
    case Compute(reg, ram, rest) => BodyKeeps(s.(reg := reg, ram := ram), rest, p);
    case Write(addr, value, rest) => BodyKeeps(s.(csr := s.csr[addr := value]), rest, p);
    case Nested(pc, t, rest) =>
      RunRestores(s, pc, t);
      if Enter(s, pc, t.event).Some? { EnterRaises(s, pc, t.event); }
      BodyKeeps(Run(s, pc, t).0, rest, p);
  }
}

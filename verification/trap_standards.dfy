/** Traps, returns and interrupts (trap.c, trap.h, interrupt.h, execute.c) against the
    Privileged ISA 20190608, by register numbers and bits: which cells a trap writes,
    who takes it, and what a return gives back. */
module TrapStandards {
  import opened Wrappers
  import opened Words
  import opened Memory
  import opened Fields
  import opened Decode
  import opened Hart
  import opened Translation
  import opened Execute
  import Faults
  import opened Fetch
  import opened InstructionStandards
  import Cpu
  import Clint

  // ------------------------------------------------------------- taking a trap

  /** sstatus on entry to S-mode: SPP (bit 8) is whether the trap came from above
      U-mode, SPIE (5) is the old SIE (1), SIE is clear, no other bit changes. */
  ghost predicate SStatusEntered(x: u64, priv: Priv, y: u64) {
    forall k: nat :: k < 64 ==>
      (BitOf(y, k) <==> if k == 8 then priv != 0 else if k == 5 then BitOf(x, 1) else k != 1 && BitOf(x, k))
  }

  /** mstatus on entry to M-mode: MPP (bits 12:11) is the privilege trapped from, MPIE
      (7) is the old MIE (3), MIE is clear, no other bit changes. */
  ghost predicate MStatusEntered(x: u64, priv: Priv, y: u64) {
    forall k: nat :: k < 64 ==>
      (BitOf(y, k) <==> if 11 <= k <= 12 then BitOf(priv, k - 11)
                        else if k == 7 then BitOf(x, 3) else k != 3 && BitOf(x, k))
  }

  lemma Weights()
    ensures Pow2(1) == SIE_BIT && Pow2(3) == MIE_BIT && Pow2(5) == SPIE_BIT && Pow2(7) == MPIE_BIT
    ensures Pow2(8) == SPP_BIT && Pow2(11) == MPP_FIELD && Pow2(2) == 4
  {
    assert Pow2(7) == MPIE_BIT;
    assert Pow2(11) == 16 * Pow2(7);
  }

  /** One status bit, read. */
  lemma BitRead(x: u64, k: nat)
    ensures Field(x, Pow2(k), 2) == if BitOf(x, k) then 1 else 0
  {
    BitOfIs(x, k);
  }

  /** Copying bit `from` to bit `to`, bit by bit. */
  lemma CopyBits(x: u64, to: nat, from: nat, k: nat)
    requires to < 64
    ensures BitOf(SetField(x, Pow2(to), 2, Field(x, Pow2(from), 2)), k)
       <==> if k == to then BitOf(x, from) else BitOf(x, k)
  {
    hide BitOf, Pow2, SetField, Field;
    BitRead(x, from);
    SetBitBits(x, to, Field(x, Pow2(from), 2), k);
  }

  lemma SEnteredBits(x: u64, priv: Priv)
    ensures SStatusEntered(x, priv, SEntered(x, priv))
  {
    Weights();
    hide BitOf, Pow2, SetField, Field;
    var v := if priv == U_MODE then 0 else 1;
    var a := SetField(x, SPP_BIT, 2, v);
    var b := SetField(a, SPIE_BIT, 2, Field(a, SIE_BIT, 2));
    forall k: nat | k < 64
      ensures BitOf(SetField(b, SIE_BIT, 2, 0), k)
         <==> if k == 8 then priv != 0 else if k == 5 then BitOf(x, 1) else k != 1 && BitOf(x, k)
    {
      SetBitBits(x, 8, v, k);
      SetBitBits(x, 8, v, 1);
      CopyBits(a, 5, 1, k);
      SetBitBits(b, 1, 0, k);
    }
  }

  lemma MEnteredBits(x: u64, priv: Priv)
    ensures MStatusEntered(x, priv, MEntered(x, priv))
  {
    Weights();
    hide BitOf, Pow2, SetField, Field;
    var a := SetField(x, MPP_FIELD, 4, priv);
    var b := SetField(a, MPIE_BIT, 2, Field(a, MIE_BIT, 2));
    forall k: nat | k < 64
      ensures BitOf(SetField(b, MIE_BIT, 2, 0), k)
         <==> if 11 <= k <= 12 then BitOf(priv, k - 11) else if k == 7 then BitOf(x, 3) else k != 3 && BitOf(x, k)
    {
      SetBitsBits(x, 11, 2, priv, k);
      SetBitsBits(x, 11, 2, priv, 3);
      CopyBits(a, 7, 3, k);
      SetBitBits(b, 3, 0, k);
    }
  }

  /** A trap into S-mode: sepc (0x141), scause (0x142) and stval (0x143) tell of it,
      sstatus (0x100) is entered, the handler is stvec (0x105). */
  ghost predicate EntersS(s: State, pc: u64, cause: u64, tval: u64, t: State, to: u64) {
    && t.priv == 1 && SameMachine(s, t) && to == s.csr[0x105]
    && t.csr[0x141] == pc && t.csr[0x142] == cause && t.csr[0x143] == tval
    && SStatusEntered(s.csr[0x100], s.priv, t.csr[0x100])
    && forall k :: 0 <= k < 4096 && k != 0x100 && k != 0x141 && k != 0x142 && k != 0x143 ==> t.csr[k] == s.csr[k]
  }

  /** A trap into M-mode, likewise: mepc (0x341), mcause (0x342), mtval (0x343),
      mstatus (0x300), mtvec (0x305). */
  ghost predicate EntersM(s: State, pc: u64, cause: u64, tval: u64, t: State, to: u64) {
    && t.priv == 3 && SameMachine(s, t) && to == s.csr[0x305]
    && t.csr[0x341] == pc && t.csr[0x342] == cause && t.csr[0x343] == tval
    && MStatusEntered(s.csr[0x300], s.priv, t.csr[0x300])
    && forall k :: 0 <= k < 4096 && k != 0x300 && k != 0x341 && k != 0x342 && k != 0x343 ==> t.csr[k] == s.csr[k]
  }

  lemma EntryCells(s: State, pc: u64, target: Priv, cause: u64, tval: u64)
    ensures var (t, to) := TrapEnter(s, pc, target, cause, tval);
            if target == 1 then EntersS(s, pc, cause, tval, t, to) else EntersM(s, pc, cause, tval, t, to)
  {
    hide SStatusEntered, MStatusEntered, SEntered, MEntered;
    SEnteredBits(s.csr[0x100], s.priv);
    MEnteredBits(s.csr[0x300], s.priv);
  }

  /** An exception goes to S-mode exactly when it does not come from M-mode and its bit
      of medeleg (0x302) is set; else it goes to M-mode. */
  lemma DelegationIff(s: State, pc: u64, cause: u64, tval: u64)
    ensures var (t, to) := Raise(s, pc, cause, tval);
            if s.priv != 3 && BitOf(s.csr[0x302], cause) then EntersS(s, pc, cause, tval, t, to)
            else EntersM(s, pc, cause, tval, t, to)
  {
    hide EntersS, EntersM, TrapEnter, BitOf, Field, Pow2;
    BitRead(s.csr[0x302], cause);
    EntryCells(s, pc, ExceptTarget(s, cause), cause, tval);
  }

  /** Where a trap vector points (section 3.1.7): the low two bits are its mode, 0 for
      direct and 1 for one entry an interrupt. */
  function Vectored(vec: u64, interrupt: bool, code: nat): nat {
    vec - vec % 4 + if interrupt && vec % 4 == 1 then 4 * code else 0
  }

  /** The code takes the whole register for the address, which is right exactly in
      direct mode. */
  lemma VectorIff(s: State, pc: u64, target: Priv, interrupt: bool, code: nat, cause: u64, tval: u64)
    ensures var (t, to) := TrapEnter(s, pc, target, cause, tval);
            var vec := s.csr[if target == 1 then 0x105 else 0x305];
            to == Vectored(vec, interrupt, code) <==> vec % 4 == 0
  {
  }

  // ------------------------------------------------------------------- returning

  /** Bit `enable` is the old bit `saved`, no other changes. */
  ghost predicate StatusLeft(x: u64, enable: nat, saved: nat, y: u64) {
    forall k: nat :: k < 64 ==> (BitOf(y, k) <==> BitOf(x, if k == enable then saved else k))
  }

  lemma ExitedBits(x: u64)
    ensures StatusLeft(x, 1, 5, SExited(x)) && StatusLeft(x, 3, 7, MExited(x))
  {
    Weights();
    hide BitOf, Pow2, SetField, Field;
    forall k: nat | k < 64
      ensures BitOf(SExited(x), k) <==> BitOf(x, if k == 1 then 5 else k)
      ensures BitOf(MExited(x), k) <==> BitOf(x, if k == 3 then 7 else k)
    {
      CopyBits(x, 1, 5, k);
      CopyBits(x, 3, 7, k);
    }
  }

  /** SRET goes to sepc in S-mode if SPP (bit 8 of sstatus) is set and else in U-mode,
      and SIE becomes SPIE; nothing else changes. */
  lemma SretSteps(s: State, clock: Clock, pc: u64, next: u64, d: Inst)
    requires d.op == SRET && d.rd == 0
    ensures Exec(s, clock, pc, next, d).Ok?
    ensures var (t, to) := Exec(s, clock, pc, next, d).value;
            && to == s.csr[0x141] && t.priv == (if BitOf(s.csr[0x100], 8) then 1 else 0)
            && SameMachine(s, t) && StatusLeft(s.csr[0x100], 1, 5, t.csr[0x100])
            && t.csr == s.csr[0x100 := t.csr[0x100]]
  {
    Weights();
    hide StatusLeft, BitOf, Pow2, SExited, Field;
    BitRead(s.csr[0x100], 8);
    ExitedBits(s.csr[0x100]);
  }

  /** MRET goes to mepc at the privilege in MPP (bits 12:11 of mstatus), and MIE becomes
      MPIE; nothing else changes. */
  lemma MretSteps(s: State, clock: Clock, pc: u64, next: u64, d: Inst)
    requires d.op == MRET && d.rd == 0
    ensures Exec(s, clock, pc, next, d).Ok?
    ensures var (t, to) := Exec(s, clock, pc, next, d).value;
            && to == s.csr[0x341]
            && (BitOf(t.priv, 0) <==> BitOf(s.csr[0x300], 11)) && (BitOf(t.priv, 1) <==> BitOf(s.csr[0x300], 12))
            && SameMachine(s, t) && StatusLeft(s.csr[0x300], 3, 7, t.csr[0x300])
            && t.csr == s.csr[0x300 := t.csr[0x300]]
  {
    hide StatusLeft, MExited;
    ExitedBits(s.csr[0x300]);
    MppBits(s.csr[0x300]);
  }

  lemma MppBits(x: u64)
    ensures BitOf(Field(x, MPP_FIELD, 4), 0) <==> BitOf(x, 11)
    ensures BitOf(Field(x, MPP_FIELD, 4), 1) <==> BitOf(x, 12)
  {
    Weights();
    hide BitOf, Pow2;
    HighBit(x, 11, 11, x / MPP_FIELD);
    HighBit(x, 11, 12, x / MPP_FIELD);
    LowBit(x / MPP_FIELD, 2, 0);
    LowBit(x / MPP_FIELD, 2, 1);
  }

  /** What the standard leaves in the status register (section 3.1.6.1): beside that,
      xPIE becomes 1 and xPP the least privilege. */
  ghost predicate StatusReturned(x: u64, enable: nat, saved: nat, pp: set<nat>, y: u64) {
    forall k: nat :: k < 64 ==>
      (BitOf(y, k) <==> k == saved || (k !in pp && BitOf(x, if k == enable then saved else k)))
  }

  /** The code leaves xPIE and xPP alone: its status is the standard's exactly when
      xPIE was 1 and xPP U-mode already. */
  lemma ReturnStatusIff(x: u64)
    ensures StatusReturned(x, 1, 5, {8}, SExited(x)) <==> BitOf(x, 5) && !BitOf(x, 8)
    ensures StatusReturned(x, 3, 7, {11, 12}, MExited(x)) <==> BitOf(x, 7) && !BitOf(x, 11) && !BitOf(x, 12)
  {
    hide BitOf, SExited, MExited;
    ExitedBits(x);
    ReturnedIff(x, 1, 5, {8}, SExited(x));
    ReturnedIff(x, 3, 7, {11, 12}, MExited(x));
  }

  lemma ReturnedIff(x: u64, enable: nat, saved: nat, pp: set<nat>, y: u64)
    requires enable < saved < 64 && enable !in pp && saved !in pp && StatusLeft(x, enable, saved, y)
    requires forall k :: k in pp ==> k < 64
    ensures StatusReturned(x, enable, saved, pp, y) <==> BitOf(x, saved) && forall k :: k in pp ==> !BitOf(x, k)
  {
    hide BitOf;
    if StatusReturned(x, enable, saved, pp, y) {
      assert BitOf(y, saved);
      forall k | k in pp
        ensures !BitOf(x, k)
      {
        assert BitOf(y, k) <==> BitOf(x, k);
      }
    }
  }

  /** ECALL raises exception 8 from U-mode, 9 from S-mode and 11 from M-mode, with tval
      0, wherever its bit of medeleg sends it. */
  lemma EcallSteps(s: State, clock: Clock, pc: u64, next: u64, d: Inst)
    requires d.op == ECALL && d.rd == 0
    ensures Exec(s, clock, pc, next, d).Ok?
    ensures var (t, to) := Exec(s, clock, pc, next, d).value;
            var cause := 8 + s.priv;
            if s.priv != 3 && BitOf(s.csr[0x302], cause) then EntersS(s, pc, cause, 0, t, to)
            else EntersM(s, pc, cause, 0, t, to)
  {
    hide EntersS, EntersM, Raise, BitOf;
    DelegationIff(s, pc, 8 + s.priv, 0);
  }

  /** The operations that only go on to the next instruction. */
  lemma IdleSteps(s: State, clock: Clock, pc: u64, next: u64, d: Inst)
    requires d.op in {NOP, FENCE, FENCE_I, WFI, SFENCE_VMA} && d.rd == 0
    ensures Exec(s, clock, pc, next, d) == Ok((s, next))
  {
  }

  // ------------------------------------------------------------------ page faults

  /** The cause of a page fault (section 4.3.1): 13 for a load or LR, 15 for a store,
      an SC or an AMO. */
  function StandardCause(op: Op): u64 { if op.Load? || op.Reserve? then 13 else 15 }

  /** Loads and stores use rs1 plus the offset, atomics rs1. */
  function AddressOf(s: State, d: Inst): u64 {
    if d.op.Load? || d.op.Store? then Address(s, d) else s.reg[d.rs1 as int]
  }

  /** An access that does not translate raises that exception with its address, but that
      an LR raises 15. */
  lemma FaultCauseIff(s: State, clock: Clock, pc: u64, next: u64, d: Inst)
    requires MemoryOp(d.op) && Translate(s, AddressOf(s, d)) == Ok(None)
    ensures Exec(s, clock, pc, next, d) == Ok(Raise(s, pc, StandardCause(d.op), AddressOf(s, d))) <==> !d.op.Reserve?
    ensures d.op.Reserve? ==> Exec(s, clock, pc, next, d) == Ok(Raise(s, pc, 15, AddressOf(s, d)))
  {
    hide Translate, Exec, Raise;
    Faults.FaultRaises(s, clock, pc, next, d);
    CausesDiffer(s, pc, AddressOf(s, d));
  }

  lemma CausesDiffer(s: State, pc: u64, va: u64)
    ensures Raise(s, pc, 13, va) != Raise(s, pc, 15, va)
  {
    hide Raise, BitOf, SStatusEntered, MStatusEntered;
    DelegationIff(s, pc, 13, va);
    DelegationIff(s, pc, 15, va);
  }

  /** A fetch fault raises 12 with the first byte that does not translate: pc, or, when
      the instruction crosses its page, pc + 2. */
  lemma FetchFaultCause(s: State, pc: u64)
    requires FetchAt(s, pc).Ok? && FetchAt(s, pc).value.Fault?
    ensures var va := if Translate(s, pc) == Ok(None) then pc else (pc + 2) % B64;
            && Translate(s, va) == Ok(None)
            && (FetchAt(s, pc).value.s, FetchAt(s, pc).value.to) == Raise(s, pc, 12, va)
  {
    hide Translate, Raise, ReadPhys;
  }

  /** A CSR that cannot be read raises 2, an illegal instruction. */
  lemma IllegalCsr(s: State, clock: Clock, pc: u64, next: u64, d: Inst)
    requires d.op.Csr? && CsrRead(s.csr, clock, d.csr as int) == Ok(None)
    ensures Exec(s, clock, pc, next, d) == Ok(Raise(s, pc, 2, 0))
  {
    hide CsrRead, Raise, CsrCombine;
  }

  /** What a CSR instruction reads: the trap and translation registers and the rest that
      have storage, the two constants, the host's clocks, 0 at register 0, an illegal
      instruction for the counters and PMP addresses left out, and for others a panic. */
  lemma CsrValues(s: State, clock: Clock, a: nat)
    ensures CsrRead(s.csr, clock, a)
         == if a in {0x003, 0x100, 0x102, 0x103, 0x104, 0x105, 0x140, 0x141, 0x142, 0x143, 0x144, 0x180, 0x300, 0x301,
                     0x302, 0x303, 0x304, 0x305, 0x340, 0x341, 0x342, 0x343, 0x344, 0x3a0, 0x3a2, 0xf11, 0xf12, 0xf13,
                     0xf14}
               || a / 16 == 0x3b then Ok(Some(s.csr[a]))
            else if a in {0x106, 0x306} then Ok(Some(7))
            else if a in {0xc00, 0xc02} then Ok(Some(clock.ticks))
            else if a == 0xc01 then Ok(Some(clock.rtc))
            else if a / 16 in {0x3c, 0x3d, 0x3e} || (a / 32 == 0x58 && a % 32 >= 3) then Ok(None)
            else if a == 0 then Ok(Some(0)) else Stop(Panic)
  {
  }

  // ------------------------------------------------------------------ interrupts

  /** The number of an interrupt at S-mode and at M-mode (table 3.6). */
  function SLine(t: IntrType): nat { match t case Software => 1 case Timer => 5 case External => 9 }
  function MLine(t: IntrType): nat { match t case Software => 3 case Timer => 7 case External => 11 }

  /** An interrupt goes to S-mode exactly when the hart is not in M-mode and its bit of
      mideleg (0x303) is set. It is taken exactly when the target's enable bit, SIE (bit
      1 of sstatus) or MIE (bit 3 of mstatus), and its own bit of sie (0x104) or mie
      (0x304) are set. It is then pending in sip (0x144) or mip (0x344), where no other
      bit changes, and its cause has the top bit set. */
  lemma InterruptCells(s: State, t: IntrType, pc: u64) returns (pending: u64)
    ensures var r := TakeInterrupt(s, t, pc);
            if s.priv != 3 && BitOf(s.csr[0x303], SLine(t)) then
              && (r.Some? <==> BitOf(s.csr[0x100], 1) && BitOf(s.csr[0x104], SLine(t)))
              && Pends(s.csr[0x144], SLine(t), pending)
              && (r.Some? ==> EntersS(s.(csr := s.csr[0x144 := pending]), pc, 0x8000_0000_0000_0000 + SLine(t), 0,
                                      r.value.0, r.value.1))
            else
              && (r.Some? <==> BitOf(s.csr[0x300], 3) && BitOf(s.csr[0x304], MLine(t)))
              && Pends(s.csr[0x344], MLine(t), pending)
              && (r.Some? ==> EntersM(s.(csr := s.csr[0x344 := pending]), pc, 0x8000_0000_0000_0000 + MLine(t), 0,
                                      r.value.0, r.value.1))
  {
    Weights();
    hide EntersS, EntersM, Pends, TrapEnter, BitOf, Field, Pow2, BvOr;
    BitRead(s.csr[0x303], SLine(t));
    BitRead(s.csr[0x100], 1);
    BitRead(s.csr[0x104], SLine(t));
    BitRead(s.csr[0x300], 3);
    BitRead(s.csr[0x304], MLine(t));
    var p := IntrTarget(s, t);
    var pend, line := if p == 1 then 0x144 else 0x344, if p == 1 then SLine(t) else MLine(t);
    assert line == IntrLine(t, p);
    PendingSet(s.csr[pend], line);
    pending := CsrCombine(s.csr[pend], Wrap(Pow2(line)), CsrSet);
    EntryCells(s.(csr := s.csr[pend := pending]), pc, p, SIGN64 + line, 0);
  }

  /** Bit `line` is set, no other changes. */
  ghost predicate Pends(x: u64, line: nat, y: u64) {
    forall k: nat :: k < 64 ==> (BitOf(y, k) <==> k == line || BitOf(x, k))
  }

  lemma PendingSet(x: u64, line: nat)
    requires line < 64
    ensures Pends(x, line, CsrCombine(x, Wrap(Pow2(line)), CsrSet))
  {
    PowerFits(line);
    hide BitOf, BvOr, Pow2, Wrap;
    forall k: nat | k < 64
      ensures BitOf(BvOr(x, Pow2(line)), k) <==> k == line || BitOf(x, k)
    {
      BitwiseBits(x, Pow2(line), k);
      PowerBit(line, k);
    }
  }

  lemma PowerFits(n: nat)
    requires n < 64
    ensures Pow2(n) < B64 && Wrap(Pow2(n)) == Pow2(n)
  {
    Pow2Of64();
    Pow2Sum(n, 64 - n);
    MulLe(2, Pow2(64 - n), Pow2(n));
  }

  lemma {:induction false} PowerBit(n: nat, k: nat)
    ensures BitOf(Pow2(n), k) <==> k == n
  {
    if n == 0 {
      if k > 0 { ZeroBit(k - 1); }
    } else if k > 0 {
      PowerBit(n - 1, k - 1);
    }
  }

  lemma {:induction false} ZeroBit(k: nat)
    ensures !BitOf(0, k)
  {
    if k > 0 { ZeroBit(k - 1); }
  }

  /** From the deadline to the handler: in every run of the timer and the guest, once the
      clock has reached the deadline the guest wrote last, at most seven more steps of
      the two threads make the next round of a hart that runs in M-mode with MIE and MTIE
      set, and has a trap vector, enter that with cause 7 and the interrupt bit. */
  lemma DeadlineReachesHandler(acts: seq<Clint.Action>, s: State, clock: Clock, pc: u64)
      returns (more: seq<Clint.Action>)
    requires Clint.Run(Clint.INITIAL, acts).Some? && Clint.Run(Clint.INITIAL, acts).value.guest.Outside?
    requires Clint.LastCmp(acts).Some? && Clint.Ticks(acts) >= Clint.LastCmp(acts).value
    requires s.priv == 3 && BitOf(s.csr[0x300], 3) && BitOf(s.csr[0x304], 7) && s.csr[0x305] != 0 && pc >= 0x1000
    ensures |more| <= 7 && forall a :: a in more ==> a == Clint.GuestMoves || a == Clint.TimerMoves
    ensures Clint.Run(Clint.INITIAL, acts + more).Some?
    ensures var r := Cpu.RoundOf(s, clock, Clint.Interrupt(Clint.Run(Clint.INITIAL, acts + more).value), pc);
            && r.Ok? && r.value.1 == s.csr[0x305] && r.value.0.priv == 3 && SameMachine(s, r.value.0)
            && r.value.0.csr[0x341] == pc && r.value.0.csr[0x342] == 0x8000_0000_0000_0007
  {
    hide Clint.Run, TakeInterrupt, Cpu.FetchAndExec, BitOf, Pends, MStatusEntered, SStatusEntered;
    more := Clint.DeadlineFires(acts);
    var _ := InterruptCells(s, Timer, pc);
  }
}

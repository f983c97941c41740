/** The core-local timer (clint.c): guest writes to mtimecmp and the timer thread
    as interleaved steps under one mutex, with a monotone clock. */
module Clint {
  import opened Wrappers
  import opened Words
  import Hart

  datatype Thread = Guest | Timer

  /** Where the guest's access stands: outside, or in the MTIMECMP case. */
  datatype GuestAt =
    | Outside
    | Lock(data: u64)      // before taking the mutex
    | Clear(data: u64)     // before clearing the pending flag
    | Store(data: u64)     // before storing mtimecmp
    | Sample               // before reading the clock
    | Compare(now: nat)    // before comparing it with mtimecmp
    | Unlock
    | Signal

  /** Where the timer thread's loop stands. */
  datatype TimerAt =
    | TLock
    | TArmed               // holding the mutex, before testing timer_running
    | Asleep
    | Woken
    | TSample              // before reading the clock
    | TCompare(now: nat)   // before comparing it with mtimecmp
    | Timed                // in the timed wait
    | Fire                 // before setting the pending flag
    | Disarm               // before clearing timer_running
    | TUnlock

  datatype State = State(
    time: nat, pending: bool, software: bool, running: bool, mtimecmp: u64,
    guest: GuestAt, timer: TimerAt, mutex: Option<Thread>, written: bool)

  datatype Action =
    | WriteCmp(data: u64)
    | WriteMsip(data: u64)
    | GuestMoves
    | TimerMoves
    | SpuriousWake
    | Tick

  const INITIAL := State(0, false, false, false, 0, Outside, TLock, None, false)

  function GuestStep(s: State): Option<State> {
    match s.guest
    case Outside => None
    case Lock(d) => if s.mutex == None then Some(s.(guest := Clear(d), mutex := Some(Guest))) else None
    case Clear(d) => Some(s.(guest := Store(d), pending := false))
    case Store(d) => Some(s.(guest := Sample, mtimecmp := d, written := true))
    case Sample => Some(s.(guest := Compare(s.time)))
    case Compare(now) =>
      Some(if now > s.mtimecmp then s.(guest := Unlock, pending := true) else s.(guest := Unlock, running := true))
    case Unlock => Some(s.(guest := Signal, mutex := None))
    case Signal => Some(s.(guest := Outside, timer := if s.timer == Asleep then Woken else s.timer))
  }

  function TimerStep(s: State): Option<State> {
    match s.timer
    case TLock | Woken => if s.mutex == None then Some(s.(timer := TArmed, mutex := Some(Timer))) else None
    case TArmed => Some(if s.running then s.(timer := TSample) else s.(timer := Asleep, mutex := None))
    case Asleep => None
    case TSample => Some(s.(timer := TCompare(s.time)))
    case TCompare(now) => Some(if now < s.mtimecmp then s.(timer := Timed, mutex := None) else s.(timer := Fire))
    case Timed => if s.mutex == None then Some(s.(timer := TSample, mutex := Some(Timer))) else None
    case Fire => Some(s.(timer := Disarm, pending := true))
    case Disarm => Some(s.(timer := TUnlock, running := false))
    case TUnlock => Some(s.(timer := TLock, mutex := None))
  }

  function Step(s: State, a: Action): Option<State> {
    match a
    case WriteCmp(d) => if s.guest == Outside then Some(s.(guest := Lock(d))) else None
    case WriteMsip(d) => if s.guest == Outside then Some(s.(software := d != 0)) else None
    case GuestMoves => GuestStep(s)
    case TimerMoves => TimerStep(s)
    case SpuriousWake => if s.timer == Asleep then Some(s.(timer := Woken)) else None
    case Tick => Some(s.(time := s.time + 1))
  }

  function Run(s: State, acts: seq<Action>): Option<State>
    decreases acts
  {
    if acts == [] then Some(s)
    else
      match Step(s, acts[0])
      case None => None
      case Some(s') => Run(s', acts[1..])
  }

  /** clint_interrupt: the timer comes before the software interrupt. */
  function Interrupt(s: State): Option<Hart.IntrType> {
    if s.pending then Some(Hart.Timer) else if s.software then Some(Hart.Software) else None
  }

  // ---------------------------------------------------------------- invariant

  predicate GuestHolds(s: State) { !s.guest.Outside? && !s.guest.Lock? && !s.guest.Signal? }
  predicate TimerHolds(s: State) { !s.timer.TLock? && !s.timer.Asleep? && !s.timer.Woken? && !s.timer.Timed? }

  /** The guest is between clearing the flag and arming the new deadline. */
  predicate Rewriting(s: State) { s.guest.Store? || s.guest.Sample? || s.guest.Compare? }

  predicate Locks(s: State) {
    && !(GuestHolds(s) && TimerHolds(s))
    && s.mutex == if GuestHolds(s) then Some(Guest) else if TimerHolds(s) then Some(Timer) else None
  }

  /** The pending flag is never early, nor about to be. */
  predicate NotEarly(s: State) {
    && (s.pending ==> s.time >= s.mtimecmp)
    && (s.timer.Fire? || s.timer.Disarm? ==> s.time >= s.mtimecmp)
    && (s.timer.TCompare? ==> s.timer.now <= s.time) && (s.guest.Compare? ==> s.guest.now <= s.time)
    && (Rewriting(s) ==> !s.pending)
  }

  /** Outside a rewrite the deadline last written has fired or is armed, and an
      armed timer thread is awake or about to be woken. */
  predicate NotLost(s: State) {
    && (s.written && !Rewriting(s) ==> s.pending || s.running)
    && (s.pending || s.running ==> s.written)
    && (s.guest.Sample? || s.guest.Compare? || s.guest.Unlock? || s.guest.Signal? ==> s.written)
    && (s.timer.Disarm? || s.timer.TUnlock? ==> s.pending) && (s.timer.TUnlock? ==> !s.running)
    && (s.timer.TSample? || s.timer.TCompare? || s.timer.Timed? || s.timer.Fire? || s.timer.Disarm? ==> s.running)
    && (s.timer.Asleep? && s.running ==> s.guest.Unlock? || s.guest.Signal?)
  }

  predicate Inv(s: State) { Locks(s) && NotEarly(s) && NotLost(s) }

  lemma GuestKeepsLocks(s: State)
    requires Inv(s) && GuestStep(s).Some?
    ensures Locks(GuestStep(s).value)
  {
    hide NotEarly, NotLost, Rewriting;
  }

  lemma GuestKeepsTimes(s: State)
    requires Inv(s) && GuestStep(s).Some?
    ensures NotEarly(GuestStep(s).value) && NotLost(GuestStep(s).value)
  {
  }

  lemma TimerKeepsLocks(s: State)
    requires Inv(s) && TimerStep(s).Some?
    ensures Locks(TimerStep(s).value)
  {
    hide NotEarly, NotLost, Rewriting;
  }

  lemma TimerKeepsTimes(s: State)
    requires Inv(s) && TimerStep(s).Some?
    ensures NotEarly(TimerStep(s).value) && NotLost(TimerStep(s).value)
  {
  }

  lemma StepKeeps(s: State, a: Action)
    requires Inv(s) && Step(s, a).Some?
    ensures Inv(Step(s, a).value)
  {
    hide GuestStep, TimerStep;
    match a
    case GuestMoves => GuestKeepsLocks(s); GuestKeepsTimes(s);
    case TimerMoves => TimerKeepsLocks(s); TimerKeepsTimes(s);
    case _ =>
  }

  // ----------------------------------------------------------- what was written

  /** The deadline the guest wrote last. */
  function LastCmp(acts: seq<Action>): Option<u64> {
    if acts == [] then None
    else
      var (rest, a) := (acts[..|acts| - 1], acts[|acts| - 1]);
      if a.WriteCmp? then Some(a.data) else LastCmp(rest)
  }

  /** What the guest wrote last to msip, 0 at reset. */
  function LastMsip(acts: seq<Action>): u64 {
    if acts == [] then 0
    else
      var (rest, a) := (acts[..|acts| - 1], acts[|acts| - 1]);
      if a.WriteMsip? then a.data else LastMsip(rest)
  }

  function Ticks(acts: seq<Action>): nat { multiset(acts)[Tick] }

  /** The state holds what the actions wrote: mtimecmp the last deadline, but for a write
      on its way to it. */
  predicate Holds(s: State, acts: seq<Action>) {
    && s.time == Ticks(acts) && (s.software <==> LastMsip(acts) != 0)
    && LastCmp(acts) == if s.guest.Lock? || s.guest.Clear? || s.guest.Store? then Some(s.guest.data)
                        else if s.written then Some(s.mtimecmp) else None
  }

  lemma {:induction false} RunSplits(s: State, acts: seq<Action>, more: seq<Action>)
    ensures Run(s, acts + more) == match Run(s, acts) case None => None case Some(t) => Run(t, more)
    decreases acts
  {
    hide Step;
    if acts == [] {
      assert acts + more == more;
    } else {
      assert (acts + more)[1..] == acts[1..] + more;
      match Step(s, acts[0]) {
        case None =>
        case Some(t) => RunSplits(t, acts[1..], more);
      }
    }
  }

  lemma StepHolds(s: State, acts: seq<Action>, a: Action)
    requires Inv(s) && Holds(s, acts) && Step(s, a).Some?
    ensures Holds(Step(s, a).value, acts + [a])
  {
    hide TimerStep;
    assert (acts + [a])[..|acts|] == acts;
    TimerHoldsOn(s);
  }

  lemma TimerHoldsOn(s: State)
    ensures match TimerStep(s)
            case None => true
            case Some(t) => t.time == s.time && t.software == s.software && t.guest == s.guest
                            && t.written == s.written && t.mtimecmp == s.mtimecmp
  {
  }

  /** In every run mtimecmp is, outside a write, the deadline the guest wrote last, msip
      what it wrote last, and the clock counts the ticks. */
  lemma {:induction false} RunHolds(acts: seq<Action>)
    requires Run(INITIAL, acts).Some?
    ensures Holds(Run(INITIAL, acts).value, acts) && Inv(Run(INITIAL, acts).value)
  {
    hide Inv, Holds, Step;
    if acts == [] {
      FromReset();
    } else {
      var (rest, a) := (acts[..|acts| - 1], acts[|acts| - 1]);
      assert acts == rest + [a];
      RunSplits(INITIAL, rest, [a]);
      RunHolds(rest);
      var s := Run(INITIAL, rest).value;
      OneStep(s, a);
      StepKeeps(s, a);
      StepHolds(s, rest, a);
    }
  }

  lemma FromReset()
    ensures Inv(INITIAL) && Holds(INITIAL, [])
  {
  }

  lemma OneStep(s: State, a: Action)
    ensures Run(s, [a]) == Step(s, a)
  {
    hide Step;
    assert [a][1..] == [];
  }

  // ------------------------------------------------------------- main results

  /** In every interleaving, at every step: the timer interrupt is pending only when the
      clock has reached mtimecmp, and so, outside a write, the deadline the guest wrote
      last; and that deadline is then pending or armed. */
  lemma NeverEarlyNeverLost(acts: seq<Action>)
    requires Run(INITIAL, acts).Some?
    ensures var s := Run(INITIAL, acts).value;
            && (Interrupt(s) == Some(Hart.Timer) ==> Ticks(acts) >= s.mtimecmp)
            && (s.guest.Outside? && Interrupt(s) == Some(Hart.Timer) ==>
                  LastCmp(acts).Some? && Ticks(acts) >= LastCmp(acts).value)
            && (s.guest.Outside? && LastCmp(acts).Some? ==> s.pending || s.running)
  {
    RunHolds(acts);
  }

  /** The software interrupt is signalled exactly when the guest's last write to msip was
      not 0 and no timer interrupt is pending, and none exactly when neither is. */
  lemma SignalledIff(acts: seq<Action>)
    requires Run(INITIAL, acts).Some?
    ensures var s := Run(INITIAL, acts).value;
            && (Interrupt(s) == Some(Hart.Software) <==> LastMsip(acts) != 0 && !s.pending)
            && (Interrupt(s) == None <==> LastMsip(acts) == 0 && !s.pending)
  {
    RunHolds(acts);
  }

  predicate Due(s: State) {
    s.running && s.time >= s.mtimecmp && (s.guest.Outside? || s.guest.Lock? || s.guest.Unlock? || s.guest.Signal?)
  }

  /** How far an armed, due timer is from firing. */
  function Distance(s: State): nat {
    if s.pending then 0
    else
      match s.timer
      case Fire => 1
      case TCompare(now) => if now < s.mtimecmp then 5 else 2
      case TSample => 3
      case Timed => if s.mutex == None then 4 else 5
      case TArmed => 4
      case TLock | Woken => if s.mutex == None then 5 else 6
      case Asleep => if s.guest.Signal? then 6 else 7
      case _ => 0
  }

  /** The thread to move next: the guest only to finish a write already stored. */
  function Move(s: State): Action {
    if s.timer.Asleep? || s.mutex == Some(Guest) then GuestMoves else TimerMoves
  }

  lemma Nearer(s: State)
    requires Inv(s) && Due(s) && !s.pending
    ensures Step(s, Move(s)).Some?
    ensures var t := Step(s, Move(s)).value; t.pending || (Due(t) && Distance(t) < Distance(s))
    ensures Distance(s) > 0
  {
  }

  /** An armed deadline that has passed fires within seven steps of the two
      threads, with no spurious wakeup and no further help from the clock. */
  lemma {:induction false} FiresWhenDue(s: State) returns (acts: seq<Action>)
    requires Inv(s) && Due(s)
    ensures |acts| <= Distance(s) <= 7 && forall a :: a in acts ==> a == GuestMoves || a == TimerMoves
    ensures Run(s, acts).Some? && Run(s, acts).value.pending
    decreases Distance(s)
  {
    hide Inv, Step, Due;
    acts := [];
    if !s.pending {
      Nearer(s);
      StepKeeps(s, Move(s));
      var t := Step(s, Move(s)).value;
      var rest := [];
      if !t.pending { rest := FiresWhenDue(t); }
      acts := [Move(s)] + rest;
      assert acts[1..] == rest;
    }
  }

  /** In every run, once the clock has reached the deadline the guest wrote last, at most
      seven more steps of the two threads signal the timer interrupt, if no new write
      comes. */
  lemma DeadlineFires(acts: seq<Action>) returns (more: seq<Action>)
    requires Run(INITIAL, acts).Some? && Run(INITIAL, acts).value.guest.Outside?
    requires LastCmp(acts).Some? && Ticks(acts) >= LastCmp(acts).value
    ensures |more| <= 7 && forall a :: a in more ==> a == GuestMoves || a == TimerMoves
    ensures Run(INITIAL, acts + more).Some? && Interrupt(Run(INITIAL, acts + more).value) == Some(Hart.Timer)
  {
    var s := Run(INITIAL, acts).value;
    RunHolds(acts);
    more := [];
    if !s.pending { more := FiresWhenDue(s); }
    hide Step;
    RunSplits(INITIAL, acts, more);
  }

  /** A deadline fires once: in every run, the timer thread that has just fired it sleeps
      three steps later, with the interrupt pending. */
  lemma FiresOnce(acts: seq<Action>)
    requires Run(INITIAL, acts).Some? && Run(INITIAL, acts).value.timer.TUnlock?
    ensures var more := [TimerMoves, TimerMoves, TimerMoves];
            && Run(INITIAL, acts + more).Some?
            && Run(INITIAL, acts + more).value.timer.Asleep? && Run(INITIAL, acts + more).value.pending
  {
    var s := Run(INITIAL, acts).value;
    RunHolds(acts);
    hide Run;
    RunSplits(INITIAL, acts, [TimerMoves, TimerMoves, TimerMoves]);
    ThreeMoves(s);
  }

  lemma ThreeMoves(s: State)
    requires Inv(s) && s.timer.TUnlock?
    ensures var t := Run(s, [TimerMoves, TimerMoves, TimerMoves]);
            t.Some? && t.value.timer.Asleep? && t.value.pending
  {
    var more := [TimerMoves, TimerMoves, TimerMoves];
    assert more[1..] == [TimerMoves, TimerMoves] && more[1..][1..] == [TimerMoves];
  }
}

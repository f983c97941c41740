/** Load-reserved and store-conditional (execute.c:431-447, 487-497, ram.c:135-153)
    against section 8.2 of the Unprivileged ISA 20191213. The code keeps no
    reservation: every store-conditional succeeds. When the standard allows that. */
module Reservations {
  import opened Wrappers
  import opened Words
  import opened Memory
  import opened AddressSpace
  import opened Decode
  import opened Hart
  import opened Translation
  import opened Execute

  // ----------------------------------------------------- what was executed

  /** One executed instruction. */
  datatype Step = Step(clock: Clock, pc: u64, next: u64, d: Inst)

  function Run(s: State, step: Step): Outcome<(State, u64)> { Exec(s, step.clock, step.pc, step.next, step.d) }

  /** The hart executes, or a device stores into RAM. */
  datatype Move = Executes(step: Step) | Stores(pa: u64, n: nat, data: u64)

  function After(s: State, moves: seq<Move>): Outcome<State>
    decreases moves
  {
    if moves == [] then Ok(s)
    else
      match moves[0]
      case Executes(step) => var t :- Run(s, step); After(t.0, moves[1..])
      case Stores(pa, n, data) => var ram :- WritePhys(s.ram, pa, n, data); After(s.(ram := ram), moves[1..])
  }

  /** What a run does to a reservation. */
  datatype Event = Reserves(pa: u64, n: nat) | Conditional | Foreign(pa: u64, n: nat)

  /** An LR or SC that does not fault, at its physical address; a device's store. */
  function EventsOf(s: State, move: Move): seq<Event> {
    match move
    case Stores(pa, n, _) => [Foreign(pa, n)]
    case Executes(step) =>
      match (step.d.op, Translate(s, RegAt(s, step.d.rs1)))
      case (Reserve(n), Ok(Some(pa))) => [Reserves(pa, n)]
      case (Atomic(_, amo), Ok(Some(_))) => if amo == ScAmo then [Conditional] else []
      case _ => []
  }

  function Events(s: State, moves: seq<Move>): seq<Event>
    decreases moves
  {
    if moves == [] then []
    else
      EventsOf(s, moves[0]) + match After(s, moves[..1])
                              case Ok(t) => Events(t, moves[1..])
                              case Stop(_) => []
  }

  // ------------------------------------------------------------ the standard

  /** The reservation held after some events, as address and size of its LR: an LR
      makes one, every SC ends it, and so does a store of another agent to its bytes. */
  function Held(events: seq<Event>): Option<(u64, nat)> {
    if events == [] then None
    else
      var before := Held(events[..|events| - 1]);
      match events[|events| - 1]
      case Reserves(pa, n) => Some((pa, n))
      case Conditional => None
      case Foreign(pa, n) =>
        if before.Some? && !Disjoint(before.value.0, before.value.1, pa, n) then None else before
  }

  /** The bytes lie in the reservation set of an LR, when reservations are kept for
      aligned blocks of `block` bytes, which the standard leaves open. */
  predicate InSet(block: nat, lr: u64, m: nat, pa: u64, n: nat)
    requires block > 0
  {
    lr / block * block <= pa && pa + n <= (lr + m - 1) / block * block + block
  }

  predicate MaySucceed(block: nat, events: seq<Event>, pa: u64, n: nat)
    requires block > 0
  {
    var held := Held(events);
    held.Some? && InSet(block, held.value.0, held.value.1, pa, n)
  }

  /** The event at i is an LR that covers the bytes, and since then there was no other
      LR, no SC and no foreign store to its bytes. */
  predicate Pairs(block: nat, events: seq<Event>, i: nat, pa: u64, n: nat)
    requires block > 0
  {
    && i < |events| && events[i].Reserves? && InSet(block, events[i].pa, events[i].n, pa, n)
    && forall j :: i < j < |events| ==> Harmless(events[j], events[i].pa, events[i].n)
  }

  predicate Harmless(e: Event, pa: u64, n: nat) { e.Foreign? && Disjoint(pa, n, e.pa, e.n) }

  /** The reservation held is that of the last LR, if there is nothing harmful since. */
  lemma {:induction false} HeldIff(events: seq<Event>, pa: u64, n: nat)
    ensures Held(events) == Some((pa, n))
       <==> exists i :: 0 <= i < |events| && events[i] == Reserves(pa, n)
                        && forall j :: i < j < |events| ==> Harmless(events[j], pa, n)
  {
    if events == [] {
    } else {
      var k := |events| - 1;
      var before := events[..k];
      HeldIff(before, pa, n);
      if Held(events) == Some((pa, n)) {
        if events[k].Reserves? {
          assert events[k] == Reserves(pa, n);
        } else {
          var i :| 0 <= i < k && before[i] == Reserves(pa, n) && forall j :: i < j < k ==> Harmless(before[j], pa, n);
          assert events[i] == Reserves(pa, n);
          forall j | i < j < |events| ensures Harmless(events[j], pa, n) { if j < k { assert before[j] == events[j]; } }
        }
      }
      if i :| 0 <= i < |events| && events[i] == Reserves(pa, n)
              && forall j :: i < j < |events| ==> Harmless(events[j], pa, n) {
        if i < k {
          assert before[i] == Reserves(pa, n) && Harmless(events[k], pa, n);
          assert forall j :: i < j < k ==> before[j] == events[j];
        }
      }
    }
  }

  lemma MaySucceedIff(block: nat, events: seq<Event>, pa: u64, n: nat)
    requires block > 0
    ensures MaySucceed(block, events, pa, n) <==> exists i: nat :: Pairs(block, events, i, pa, n)
  {
    hide InSet, Held, Harmless;
    var held := Held(events);
    if held.Some? {
      HeldIff(events, held.value.0, held.value.1);
      var i :| 0 <= i < |events| && events[i] == Reserves(held.value.0, held.value.1)
               && forall j :: i < j < |events| ==> Harmless(events[j], held.value.0, held.value.1);
      if MaySucceed(block, events, pa, n) { assert Pairs(block, events, i, pa, n); }
    }
    if i: nat :| Pairs(block, events, i, pa, n) {
      HeldIff(events, events[i].pa, events[i].n);
    }
  }

  // ------------------------------------------------------------------ results

  /** An SC's outcome when it succeeds: rs2 stored, rd zero. */
  function Succeeded(s: State, step: Step, pa: u64, n: nat): Outcome<(State, u64)> {
    var ram :- WritePhys(s.ram, pa, n, RegAt(s, step.d.rs2));
    Ok((SetReg(s.(ram := ram), step.d.rd, 0), step.next))
  }

  /** An outcome the standard allows: success if it may succeed; failure, with a
      nonzero code and no store, always. */
  ghost predicate Allowed(block: nat, events: seq<Event>, s: State, step: Step, pa: u64, n: nat,
                          outcome: Outcome<(State, u64)>)
    requires block > 0
  {
    || (MaySucceed(block, events, pa, n) && outcome == Succeeded(s, step, pa, n))
    || exists code: u64 :: code != 0 && Failed(s, step, code, outcome)
  }

  predicate Failed(s: State, step: Step, code: u64, outcome: Outcome<(State, u64)>) {
    outcome == Ok((SetReg(s, step.d.rd, code), step.next))
  }

  /** An SC whose address translates into RAM always stores rs2 and gives 0. */
  lemma ScStores(s: State, step: Step, pa: u64, n: nat)
    requires step.d.op == Atomic(n, ScAmo) && (n == 4 || n == 8)
    requires Translate(s, RegAt(s, step.d.rs1)) == Ok(Some(pa)) && InRam(s.ram, pa, n)
    ensures Run(s, step) == Succeeded(s, step, pa, n) && Run(s, step).Ok?
  {
    hide Translate, Exec, SetReg, FromBytes, ToBytes, Splice, Slice;
    ExecMemory(s, step.clock, step.pc, step.next, step.d);
    ScWrites(s.ram, pa, n, RegAt(s, step.d.rs2));
  }

  lemma ScWrites(ram: Ram, pa: u64, n: nat, data: u64)
    requires (n == 4 || n == 8) && InRam(ram, pa, n)
    ensures WritePhys(ram, pa, n, data).Ok?
    ensures RamWrite(ram, pa, n, data, ScAmo) == Ok((WritePhys(ram, pa, n, data).value, 0))
  {
    Pow256Small(4);
    HighBytesDropped(data % B32, data / B32, 4);
  }

  /** After every run, an SC that reaches RAM does what the standard allows exactly
      when the last LR covers its bytes, with no SC nor foreign store to them since, or
      it names x0 and stores what was there. */
  lemma ScIff(block: nat, s: State, moves: seq<Move>, step: Step, pa: u64, n: nat)
    requires block > 0 && After(s, moves).Ok?
    requires step.d.op == Atomic(n, ScAmo) && (n == 4 || n == 8)
    requires var t := After(s, moves).value; Translate(t, RegAt(t, step.d.rs1)) == Ok(Some(pa)) && InRam(t.ram, pa, n)
    ensures var t, events := After(s, moves).value, Events(s, moves);
            Allowed(block, events, t, step, pa, n, Run(t, step))
            <==> || (exists i: nat :: Pairs(block, events, i, pa, n))
                 || (step.d.rd == 0 && WritePhys(t.ram, pa, n, RegAt(t, step.d.rs2)) == Ok(t.ram))
  {
    hide Translate, Run, Pairs, MaySucceed, Events, After, WritePhys;
    var t, events := After(s, moves).value, Events(s, moves);
    ScStores(t, step, pa, n);
    MaySucceedIff(block, events, pa, n);
    FailureIff(t, step, pa, n);
  }

  /** Success looks like failure only with rd x0 and nothing changed. */
  lemma FailureIff(s: State, step: Step, pa: u64, n: nat)
    requires Succeeded(s, step, pa, n).Ok?
    ensures (exists code: u64 :: code != 0 && Failed(s, step, code, Succeeded(s, step, pa, n)))
       <==> step.d.rd == 0 && WritePhys(s.ram, pa, n, RegAt(s, step.d.rs2)) == Ok(s.ram)
  {
    hide WritePhys;
    if step.d.rd == 0 && WritePhys(s.ram, pa, n, RegAt(s, step.d.rs2)) == Ok(s.ram) {
      assert Failed(s, step, 1, Succeeded(s, step, pa, n));
    }
    if code: u64 :| code != 0 && Failed(s, step, code, Succeeded(s, step, pa, n)) {
      SetRegReads(s, step.d.rd, code);
      SetRegReads(s.(ram := WritePhys(s.ram, pa, n, RegAt(s, step.d.rs2)).value), step.d.rd, 0);
    }
  }

  lemma SetRegReads(s: State, rd: bv5, v: u64)
    ensures SetReg(s, rd, v).ram == s.ram && (rd != 0 ==> RegAt(SetReg(s, rd, v), rd) == v)
  {
  }

  /** SC.D x2, x0, (x1) on a fresh hart with x1 at the start of RAM. */
  const LONE_SC: Inst := Inst(Atomic(8, ScAmo), 2, 1, 0, 0, 0)

  /** With no LR at all the code's SC succeeds, which no reservation scheme allows. */
  lemma ScWithoutLr(block: nat, clock: Clock, pc: u64, next: u64) returns (s: State)
    requires block > 0
    ensures Translate(s, RegAt(s, 1)) == Ok(Some(RAM_START)) && InRam(s.ram, RAM_START, 8)
    ensures !Allowed(block, [], s, Step(clock, pc, next, LONE_SC), RAM_START, 8, Run(s, Step(clock, pc, next, LONE_SC)))
  {
    s := State(seq(32, _ => 0)[1 := RAM_START], seq(4096, _ => 0), M_MODE, seq(8, _ => 0));
    hide Run, Pairs, Allowed, WritePhys, Walk;
    assert RegAt(s, 1) == RAM_START;
    NothingPairs(block, RAM_START, 8);
    ScIff(block, s, [], Step(clock, pc, next, LONE_SC), RAM_START, 8);
  }

  lemma NothingPairs(block: nat, pa: u64, n: nat)
    requires block > 0
    ensures forall i: nat :: !Pairs(block, [], i, pa, n)
  {
  }
}

/** The CPU thread's notify loop and the disk's worker thread as interleaved
    steps over one shared ring (virtio_mmio.c, virtio.c, virtio_blk.c). */
module VirtioProtocol {
  import opened Wrappers
  import opened Words
  import opened Fields
  import opened VirtioRing

  datatype Thread = Cpu | Worker

  /** Where the CPU thread stands: in guest code, or in the notify loop around
      vqueue_pop and virtio_blk_handle_request. */
  datatype CpuAt =
    | Guest
    | Empty                       // before the emptiness test
    | Head                        // before reading the ring slot
    | Chain(head: u32)            // before reading the descriptors
    | Lock(req: Request)          // before taking the mutex
    | Slot(req: Request)          // holding it, before testing the mailbox
    | Timed(req: Request)         // in the timed wait
    | Unlock                      // deposited, before releasing the mutex
    | Signal                      // before signalling

  /** Where the worker stands: in _routine, or in _complete. */
  datatype WorkerAt =
    | WLock
    | WSlot
    | Asleep
    | Woken
    | Taken(req: Request)
    | Busy(req: Request)
    | WriteId(req: Request)
    | WriteLen(req: Request)
    | Advance(req: Request)
    | Publish(req: Request)

  /** The shared ring and threads, the device's two counters, and the history:
      what the guest offered, how many were popped, what was published, and how
      many used entries the guest has read. `tables` holds, for each head, the
      request its descriptor chain describes. */
  datatype State = State(
    cells: Cells, tables: seq<Request>, cpu: CpuAt, worker: WorkerAt,
    lastAvail: u16, usedIdx: u16, mailbox: Option<Request>, mutex: Option<Thread>,
    offered: seq<Request>, popped: nat, done: seq<Request>, reaped: nat)

  datatype Action = Offer(r: Request) | Notify | CpuMoves | WorkerMoves | SpuriousWake | Reap

  function Num(s: State): nat { |s.cells.avail| }

  /** A running count as the 16-bit index that stands for it. */
  function Idx(k: nat): u16 { k % B16 }

  function Next(i: u16): u16 { (i + 1) % B16 }

  /** The ring slot both sides use for a 16-bit index. */
  function Cell(i: u16, num: nat): (c: nat)
    requires num > 0
    ensures c < num
  {
    i % num
  }

  function SlotOf(k: nat, num: nat): nat
    requires num > 0
  {
    Cell(Idx(k), num)
  }

  function InitState(num: nat): State {
    State(Cells(0, seq(num, _ => 0), 0, seq(num, _ => Elem(0, 0))), seq(num, _ => Request(0, 0, [])), Guest, WLock,
          0, 0, None, None, [], 0, [], 0)
  }

  // -------------------------------------------------------------------- steps

  /** The driver makes a request available under a head that is not in flight. */
  predicate MayOffer(s: State, r: Request) {
    && s.cpu == Guest && r.index < |s.tables| && r.index < B16 && Num(s) > 0 && s.reaped <= |s.offered|
    && forall k :: s.reaped <= k < |s.offered| ==> s.offered[k].index != r.index
  }

  function DoOffer(s: State, r: Request): State
    requires MayOffer(s, r)
  {
    var c := s.cells;
    s.(cells := c.(avail := c.avail[Cell(c.availIdx, Num(s)) := r.index], availIdx := Next(c.availIdx)),
       tables := s.tables[r.index := r], offered := s.offered + [r])
  }

  /** The driver sees a used entry it has not read. */
  predicate MayReap(s: State) { s.cpu == Guest && s.cells.usedIdx != Idx(s.reaped) }

  /** The CPU thread's next step; None while it waits for the mutex, or when it
      would stop the emulator. */
  function CpuStep(s: State): Option<State> {
    match s.cpu
    case Guest => None
    case Empty => Some(s.(cpu := if s.cells.availIdx == s.lastAvail then Guest else Head))
    case Head =>
      if Num(s) == 0 then None
      else
        var head := s.cells.avail[Cell(s.lastAvail, Num(s))];
        if head >= Num(s) then None
        else Some(s.(cpu := Chain(head), lastAvail := Next(s.lastAvail), popped := s.popped + 1))
    case Chain(head) => if head < |s.tables| then Some(s.(cpu := Lock(s.tables[head]))) else None
    case Lock(r) => if s.mutex == None then Some(s.(cpu := Slot(r), mutex := Some(Cpu))) else None
    case Slot(r) =>
      if s.mailbox.Some? then Some(s.(cpu := Timed(r), mutex := None))
      else Some(s.(cpu := Unlock, mailbox := Some(r)))
    case Timed(r) => if s.mutex == None then Some(s.(cpu := Slot(r), mutex := Some(Cpu))) else None
    case Unlock => Some(s.(cpu := Signal, mutex := None))
    case Signal => Some(s.(cpu := Empty, worker := if s.worker == Asleep then Woken else s.worker))
  }

  function Used(s: State, e: Elem): State
    requires |s.cells.used| > 0
  {
    s.(cells := s.cells.(used := s.cells.used[Cell(s.usedIdx, |s.cells.used|) := e]))
  }

  /** The worker's next step; None while it waits. */
  function WorkerStep(s: State): Option<State> {
    match s.worker
    case WLock | Woken => if s.mutex == None then Some(s.(worker := WSlot, mutex := Some(Worker))) else None
    case WSlot =>
      (match s.mailbox
       case None => Some(s.(worker := Asleep, mutex := None))
       case Some(r) => Some(s.(worker := Taken(r), mailbox := None)))
    case Asleep => None
    case Taken(r) => Some(s.(worker := Busy(r), mutex := None))
    case Busy(r) => Some(s.(worker := WriteId(r)))
    case WriteId(r) =>
      if |s.cells.used| == 0 then None
      else Some(Used(s, s.cells.used[Cell(s.usedIdx, |s.cells.used|)].(id := r.index)).(worker := WriteLen(r)))
    case WriteLen(r) =>
      if |s.cells.used| == 0 then None
      else Some(Used(s, s.cells.used[Cell(s.usedIdx, |s.cells.used|)].(len := r.inLen)).(worker := Advance(r)))
    case Advance(r) => Some(s.(usedIdx := Next(s.usedIdx), worker := Publish(r)))
    case Publish(r) => Some(s.(cells := s.cells.(usedIdx := s.usedIdx), done := s.done + [r], worker := WLock))
  }

  function Step(s: State, a: Action): Option<State> {
    match a
    case Offer(r) => if MayOffer(s, r) then Some(DoOffer(s, r)) else None
    case Notify => if s.cpu == Guest then Some(s.(cpu := Empty)) else None
    case CpuMoves => CpuStep(s)
    case WorkerMoves => WorkerStep(s)
    case SpuriousWake => if s.worker == Asleep then Some(s.(worker := Woken)) else None
    case Reap => if MayReap(s) then Some(s.(reaped := s.reaped + 1)) else None
  }

  function Run(s: State, acts: seq<Action>): Option<State>
    decreases acts
  {
    if acts == [] then Some(s)
    else
      match Step(s, acts[0])
      case None => None
      case Some(s') => Run(s', acts[1..])
  }

  // ---------------------------------------------------------------- invariant

  function InCpu(s: State): seq<Request> {
    match s.cpu
    case Chain(head) => if head < |s.tables| then [s.tables[head]] else []
    case Lock(r) => [r]
    case Slot(r) => [r]
    case Timed(r) => [r]
    case _ => []
  }

  function InMailbox(s: State): seq<Request> { if s.mailbox.Some? then [s.mailbox.value] else [] }

  function InWorker(s: State): seq<Request> {
    match s.worker
    case WLock | WSlot | Asleep | Woken => []
    case Taken(r) => [r]
    case Busy(r) => [r]
    case WriteId(r) => [r]
    case WriteLen(r) => [r]
    case Advance(r) => [r]
    case Publish(r) => [r]
  }

  /** Every popped request is published, in the worker's hands, in the mailbox
      or being deposited, in this order. */
  predicate Conserved(s: State) {
    s.popped <= |s.offered| && s.offered[..s.popped] == s.done + InWorker(s) + InMailbox(s) + InCpu(s)
  }

  predicate GoodSize(num: nat) { 0 < num < B16 && B16 % num == 0 }

  predicate Shape(s: State) {
    GoodSize(Num(s)) && |s.cells.used| == Num(s) && |s.tables| == Num(s)
  }

  predicate Counts(s: State) {
    && s.reaped <= |s.done| <= s.popped <= |s.offered| <= s.reaped + Num(s)
    && s.cells.availIdx == Idx(|s.offered|) && s.lastAvail == Idx(s.popped)
    && s.cells.usedIdx == Idx(|s.done|)
    && s.usedIdx == Idx(|s.done| + if s.worker.Publish? then 1 else 0)
    && (s.cpu == Head ==> s.popped < |s.offered|)
  }

  /** Requests in flight have distinct heads, whose chains are theirs. */
  predicate InFlight(s: State) {
    && s.reaped <= |s.offered|
    && (forall k :: s.reaped <= k < |s.offered| ==>
          s.offered[k].index < |s.tables| && s.tables[s.offered[k].index] == s.offered[k])
    && (forall j, k :: s.reaped <= j < k < |s.offered| ==> s.offered[j].index != s.offered[k].index)
    && (s.cpu.Chain? ==> s.cpu.head < |s.tables|)
  }

  predicate AvailCells(s: State)
    requires Num(s) > 0
  {
    forall k :: s.popped <= k < |s.offered| ==> s.cells.avail[SlotOf(k, Num(s))] == s.offered[k].index
  }

  function ElemOf(r: Request): Elem { Elem(r.index, r.inLen) }

  /** Unread used entries are whole; the one being written is as far as the
      worker got. */
  predicate UsedCells(s: State)
    requires Num(s) > 0 && |s.cells.used| == Num(s)
  {
    && (forall k :: s.reaped <= k < |s.done| ==> s.cells.used[SlotOf(k, Num(s))] == ElemOf(s.done[k]))
    && var e := s.cells.used[SlotOf(|s.done|, Num(s))];
       match s.worker
       case WriteLen(r) => e.id == r.index
       case Advance(r) => e == ElemOf(r)
       case Publish(r) => e == ElemOf(r)
       case _ => true
  }

  predicate Locks(s: State) {
    && (s.mutex == Some(Cpu) <==> s.cpu.Slot? || s.cpu.Unlock?)
    && (s.mutex == Some(Worker) <==> s.worker.WSlot? || s.worker.Taken?)
  }

  /** A sleeping worker with a full mailbox is about to be signalled. */
  predicate NoLostWakeup(s: State) {
    s.worker.Asleep? && s.mailbox.Some? ==> s.cpu.Unlock? || s.cpu.Signal?
  }

  predicate Inv(s: State) {
    && Shape(s) && Counts(s) && InFlight(s) && AvailCells(s) && UsedCells(s)
    && Conserved(s) && Locks(s) && NoLostWakeup(s)
  }

  // ------------------------------------------------------------ slots of a ring

  /** Fewer than `num` consecutive indices never share a slot, across 16-bit
      wrap: true of a ring size up to 65536 exactly when it divides 65536. */
  lemma SlotsDistinctIff(num: nat)
    requires 0 < num <= B16
    ensures B16 % num == 0 <==> forall j, k :: 0 <= j < k < j + num ==> SlotOf(j, num) != SlotOf(k, num)
  {
    if B16 % num == 0 {
      forall j, k | 0 <= j < k < j + num ensures SlotOf(j, num) != SlotOf(k, num) { SlotsDiffer(j, k, num); }
    } else {
      var q, r := B16 / num, B16 % num;
      AddMultiple(B16 - r, num, q, 0);
      assert SlotOf(B16 - r, num) == 0 == SlotOf(B16, num);
      assert 0 <= B16 - r < B16 < (B16 - r) + num;
    }
  }

  lemma NextIdx(k: nat)
    ensures Next(Idx(k)) == Idx(k + 1)
  {
  }

  /** Counts less than 65536 apart are told apart by their indices. */
  lemma SameIdx(j: nat, k: nat)
    requires j <= k < j + B16
    ensures Idx(j) == Idx(k) <==> j == k
  {
  }

  lemma SlotIs(k: nat, num: nat)
    requires num > 0 && B16 % num == 0
    ensures SlotOf(k, num) == k % num
  {
    var m := B16 / num;
    var q, r := k / B16, k % B16;
    assert B16 == num * m && k == B16 * q + r;
    AddProduct(k, num, m, q, r);
  }

  lemma SlotsDiffer(j: nat, k: nat, num: nat)
    requires num > 0 && B16 % num == 0 && j < k < j + num
    ensures SlotOf(j, num) != SlotOf(k, num)
  {
    hide SlotOf;
    SlotIs(j, num);
    SlotIs(k, num);
    var a, b, r := j / num, k / num, k % num;
    if j % num == r {
      assert j == num * a + r && k == num * b + r;
      if b >= a + 1 { MulLe(a + 1, b, num); Dist(num, a, 1); } else { MulLe(b, a, num); }
      assert false;
    }
  }

  // ------------------------------------------------------ every step keeps Inv

  lemma InitInv(num: nat)
    requires GoodSize(num)
    ensures Inv(InitState(num))
  {
  }

  /** Distinct heads below num: at most num of them. */
  lemma {:induction false} Pigeonhole(heads: seq<nat>, num: nat)
    requires forall i :: 0 <= i < |heads| ==> heads[i] < num
    requires forall i, j :: 0 <= i < j < |heads| ==> heads[i] != heads[j]
    ensures |heads| <= num
  {
    var all := set h | h in heads;
    SetSize(heads, all);
    SubsetSize(all, Naturals(num));
  }

  lemma {:induction false} SetSize(s: seq<nat>, all: set<nat>)
    requires forall i, j :: 0 <= i < j < |s| ==> s[i] != s[j]
    requires all == set h | h in s
    ensures |all| == |s|
  {
    if s == [] {
    } else {
      var n := |s| - 1;
      assert forall h :: h in s <==> h in s[..n] || h == s[n];
      assert all == (set h | h in s[..n]) + {s[n]};
      SetSize(s[..n], set h | h in s[..n]);
    }
  }

  function Naturals(num: nat): (all: set<nat>)
    ensures |all| == num && forall h: nat :: h in all <==> h < num
  {
    if num == 0 then {} else Naturals(num - 1) + {num - 1}
  }

  lemma {:induction false} SubsetSize(a: set<nat>, b: set<nat>)
    requires a <= b
    ensures |a| <= |b|
  {
    if a == {} {
    } else {
      var x :| x in a;
      SubsetSize(a - {x}, b - {x});
    }
  }

  /** A new head leaves room: fewer than num requests were in flight. */
  lemma Room(s: State, r: Request)
    requires Inv(s) && MayOffer(s, r)
    ensures |s.offered| < s.reaped + Num(s)
  {
    var n := |s.offered| - s.reaped;
    var heads: seq<nat> := seq(n, i requires 0 <= i < n => s.offered[s.reaped + i].index as nat) + [r.index];
    Pigeonhole(heads, Num(s));
  }

  lemma OfferKeepsCells(s: State, r: Request)
    requires Inv(s) && MayOffer(s, r)
    ensures Shape(DoOffer(s, r)) && AvailCells(DoOffer(s, r)) && UsedCells(DoOffer(s, r))
  {
    hide InFlight, Conserved, Locks, NoLostWakeup, Idx, Next, Cell;
    Room(s, r);
    var s', num, n := DoOffer(s, r), Num(s), |s.offered|;
    NextIdx(n);
    forall k | s'.popped <= k < n + 1 ensures s'.cells.avail[SlotOf(k, num)] == s'.offered[k].index {
      if k < n { OtherSlot(s, k, n); }
    }
  }

  lemma OtherSlot(s: State, j: nat, k: nat)
    requires Shape(s) && j < k < j + Num(s)
    ensures SlotOf(j, Num(s)) != SlotOf(k, Num(s))
  {
    SlotsDiffer(j, k, Num(s));
  }

  lemma OfferKeeps(s: State, r: Request)
    requires Inv(s) && MayOffer(s, r)
    ensures Inv(DoOffer(s, r))
  {
    hide AvailCells, UsedCells, Idx, Next, Cell;
    NextIdx(|s.offered|);
    Room(s, r);
    OfferKeepsCells(s, r);
    assert DoOffer(s, r).offered[..s.popped] == s.offered[..s.popped];
  }

  /** The head read from the ring is the head offered. */
  lemma HeadIsNext(s: State)
    requires Inv(s) && s.cpu == Head
    ensures s.popped < |s.offered| && s.cells.avail[Cell(s.lastAvail, Num(s))] == s.offered[s.popped].index
    ensures CpuStep(s).Some? && CpuStep(s).value.cpu == Chain(s.offered[s.popped].index)
  {
    hide Idx, Next, Cell;
    assert Cell(s.lastAvail, Num(s)) == SlotOf(s.popped, Num(s));
  }

  lemma CpuConserves(s: State)
    requires Inv(s) && CpuStep(s).Some?
    ensures Conserved(CpuStep(s).value)
  {
    hide AvailCells, UsedCells, Idx, Next, Cell;
    var p := s.popped;
    if s.cpu == Head {
      HeadIsNext(s);
      var s' := CpuStep(s).value;
      assert s.offered[..p + 1] == s.offered[..p] + [s.offered[p]];
      assert InCpu(s') == [s.offered[p]] && InCpu(s) == [];
      assert InWorker(s') == InWorker(s);
      calc {
        s'.offered[..s'.popped];
        s.done + InWorker(s) + InMailbox(s) + [] + InCpu(s');
        s'.done + InWorker(s') + InMailbox(s') + InCpu(s');
      }
    } else if s.cpu.Signal? {
      assert InWorker(CpuStep(s).value) == InWorker(s);
    }
  }

  lemma CpuKeepsCells(s: State)
    requires Inv(s) && CpuStep(s).Some?
    ensures Shape(CpuStep(s).value) && AvailCells(CpuStep(s).value) && UsedCells(CpuStep(s).value)
    ensures InFlight(CpuStep(s).value)
  {
    hide Conserved, Locks, NoLostWakeup, Idx, Next, Cell;
    if s.cpu == Head { HeadIsNext(s); }
    var s' := CpuStep(s).value;
    assert s'.cells == s.cells && s'.done == s.done && s'.reaped == s.reaped && s'.offered == s.offered;
  }

  lemma CpuKeepsCounts(s: State)
    requires Inv(s) && CpuStep(s).Some?
    ensures Counts(CpuStep(s).value) && Locks(CpuStep(s).value) && NoLostWakeup(CpuStep(s).value)
  {
    hide Conserved, UsedCells, AvailCells, InFlight, Idx, Next, Cell;
    NextIdx(s.popped);
    SameIdx(s.popped, |s.offered|);
    if s.cpu == Head { HeadIsNext(s); }
  }

  lemma CpuKeeps(s: State)
    requires Inv(s) && CpuStep(s).Some?
    ensures Inv(CpuStep(s).value)
  {
    hide CpuStep, Counts, InFlight, AvailCells, UsedCells, Conserved, Locks, NoLostWakeup;
    CpuConserves(s);
    CpuKeepsCells(s);
    CpuKeepsCounts(s);
  }

  /** The worker writes a slot no unread entry uses. */
  lemma WorkerKeepsCells(s: State)
    requires Inv(s) && WorkerStep(s).Some?
    ensures Shape(WorkerStep(s).value) && AvailCells(WorkerStep(s).value) && UsedCells(WorkerStep(s).value)
  {
    hide InFlight, InMailbox, InCpu, Locks, NoLostWakeup, Idx, Next, Cell;
    NextIdx(|s.done|);
    var num, n := Num(s), |s.done|;
    if s.worker.WriteId? || s.worker.WriteLen? {
      assert n < s.popped by { assert |s.offered[..s.popped]| == s.popped; }
      forall k | s.reaped <= k < n ensures SlotOf(k, num) != SlotOf(n, num) { SlotsDiffer(k, n, num); }
    }
  }

  lemma WorkerConserves(s: State)
    requires Inv(s) && WorkerStep(s).Some?
    ensures Conserved(WorkerStep(s).value)
  {
    hide AvailCells, UsedCells, InFlight, Counts, Idx, Next, Cell;
    var s' := WorkerStep(s).value;
    assert InCpu(s') == InCpu(s);
    assert s'.done + InWorker(s') + InMailbox(s') == s.done + InWorker(s) + InMailbox(s);
  }

  lemma WorkerKeepsCounts(s: State)
    requires Inv(s) && WorkerStep(s).Some?
    ensures Counts(WorkerStep(s).value) && Locks(WorkerStep(s).value) && NoLostWakeup(WorkerStep(s).value)
    ensures InFlight(WorkerStep(s).value)
  {
    hide AvailCells, UsedCells, Idx, Next, Cell, InMailbox, InCpu;
    NextIdx(|s.done|);
    assert |s.offered[..s.popped]| == s.popped;
  }

  lemma WorkerKeeps(s: State)
    requires Inv(s) && WorkerStep(s).Some?
    ensures Inv(WorkerStep(s).value)
  {
    hide WorkerStep, Counts, InFlight, AvailCells, UsedCells, Conserved, Locks, NoLostWakeup;
    WorkerKeepsCells(s);
    WorkerConserves(s);
    WorkerKeepsCounts(s);
  }

  lemma ReapKeeps(s: State)
    requires Inv(s) && MayReap(s)
    ensures Inv(s.(reaped := s.reaped + 1))
  {
    hide Idx, Next, Cell, Conserved, Locks, NoLostWakeup;
    SameIdx(s.reaped, |s.done|);
    ReapConserves(s);
  }

  lemma ReapConserves(s: State)
    requires Conserved(s) && Locks(s) && NoLostWakeup(s)
    ensures var t := s.(reaped := s.reaped + 1); Conserved(t) && Locks(t) && NoLostWakeup(t)
  {
    var t := s.(reaped := s.reaped + 1);
    assert InWorker(t) == InWorker(s) && InCpu(t) == InCpu(s) && InMailbox(t) == InMailbox(s);
  }

  lemma NotifyKeeps(s: State)
    requires Inv(s) && s.cpu == Guest
    ensures Inv(s.(cpu := Empty))
  {
    hide Idx, Next, Cell;
  }

  lemma WakeKeeps(s: State)
    requires Inv(s) && s.worker == Asleep
    ensures Inv(s.(worker := Woken))
  {
    hide Idx, Next, Cell;
  }

  lemma StepKeeps(s: State, a: Action)
    requires Inv(s) && Step(s, a).Some?
    ensures Inv(Step(s, a).value)
  {
    hide Inv, CpuStep, WorkerStep, DoOffer, MayOffer, MayReap;
    match a
    case Offer(r) => OfferKeeps(s, r);
    case CpuMoves => CpuKeeps(s);
    case WorkerMoves => WorkerKeeps(s);
    case Reap => ReapKeeps(s);
    case Notify => NotifyKeeps(s);
    case SpuriousWake => WakeKeeps(s);
  }

  lemma {:induction false} RunKeeps(s: State, acts: seq<Action>)
    requires Inv(s) && Run(s, acts).Some?
    ensures Inv(Run(s, acts).value)
    decreases acts
  {
    hide Inv, Step;
    if acts == [] {
    } else {
      StepKeeps(s, acts[0]);
      RunKeeps(Step(s, acts[0]).value, acts[1..]);
    }
  }

  // ------------------------------------------------------------- main results

  /** In every interleaving, across index wrap: what was popped is published,
      held by the worker, in the mailbox or being deposited, in the order offered,
      so the used ring gets the offered requests in order, each exactly once, and
      at most one ring's worth is in flight. */
  lemma ExactlyOnceInOrder(num: nat, acts: seq<Action>)
    requires GoodSize(num) && Run(InitState(num), acts).Some?
    ensures var s := Run(InitState(num), acts).value;
            && Conserved(s) && s.done <= s.offered && |s.offered| - s.reaped <= Num(s)
  {
    InitInv(num);
    RunKeeps(InitState(num), acts);
    var s := Run(InitState(num), acts).value;
    DonePrefix(s);
  }

  /** The driver finds a new used entry exactly when one was published that it has
      not read, and the entry names the next request it offered, in whole. */
  lemma DriverReadsBack(num: nat, acts: seq<Action>)
    requires GoodSize(num) && Run(InitState(num), acts).Some? && Run(InitState(num), acts).value.cpu == Guest
    ensures var s := Run(InitState(num), acts).value;
            && (MayReap(s) <==> s.reaped < |s.done|)
            && (MayReap(s) ==>
                  && |s.cells.used| > 0 && s.reaped < |s.offered|
                  && s.cells.used[Cell(Idx(s.reaped), |s.cells.used|)] == ElemOf(s.offered[s.reaped]))
  {
    hide Idx, Cell;
    InitInv(num);
    RunKeeps(InitState(num), acts);
    ExactlyOnceInOrder(num, acts);
    var s := Run(InitState(num), acts).value;
    SameIdx(s.reaped, |s.done|);
    if s.reaped < |s.done| { assert s.cells.used[SlotOf(s.reaped, Num(s))] == ElemOf(s.done[s.reaped]); }
  }

  /** vqueue_pop never meets a head outside the ring. */
  lemma NeverPanics(num: nat, acts: seq<Action>)
    requires GoodSize(num) && Run(InitState(num), acts).Some?
    ensures var s := Run(InitState(num), acts).value;
            s.cpu.Head? || s.cpu.Chain? ==> CpuStep(s).Some?
  {
    InitInv(num);
    RunKeeps(InitState(num), acts);
    var s := Run(InitState(num), acts).value;
    if s.cpu.Head? { HeadIsNext(s); }
  }

  /** How far the oldest pending request is from being published. */
  function Distance(s: State): nat {
    match s.worker
    case Publish(_) => 1
    case Advance(_) => 2
    case WriteLen(_) => 3
    case WriteId(_) => 4
    case Busy(_) => 5
    case Taken(_) => 6
    case WSlot => if s.mailbox.Some? then 7 else 16
    case WLock | Woken =>
      if s.mutex == None then (if s.mailbox.Some? then 8 else 17)
      else if s.cpu.Unlock? then (if s.mailbox.Some? then 9 else 18)
      else if s.mailbox.Some? then 9 else 10
    case Asleep =>
      if s.cpu.Signal? then 11 else if s.cpu.Unlock? then 12
      else if s.cpu.Slot? then 13 else if s.cpu.Chain? then 15 else 14
  }

  lemma Lengths(s: State)
    requires Inv(s)
    ensures s.popped == |s.done| + |InWorker(s)| + |InMailbox(s)| + |InCpu(s)|
  {
    assert |s.offered[..s.popped]| == s.popped;
  }

  /** The move that brings publication nearer. */
  function Move(s: State): Action {
    if s.worker.Asleep? || ((s.worker.WLock? || s.worker.Woken?) && s.mutex != None) then CpuMoves else WorkerMoves
  }

  predicate Nears(s: State, t: State) {
    && t.popped == s.popped && t.offered == s.offered
    && if s.worker.Publish? then |t.done| == |s.done| + 1 else t.done == s.done && Distance(t) < Distance(s)
  }

  lemma Owners(m: Option<Thread>)
    ensures m == None || m == Some(Cpu) || m == Some(Worker)
  {
    if m.Some? { assert m.value.Cpu? || m.value.Worker?; }
  }

  lemma CpuNears(s: State)
    requires Inv(s) && |s.done| < s.popped && Move(s) == CpuMoves
    ensures CpuStep(s).Some? && Nears(s, CpuStep(s).value)
  {
    hide Counts, AvailCells, UsedCells, Conserved;
    Lengths(s);
    Owners(s.mutex);
  }

  lemma WorkerNears(s: State)
    requires Inv(s) && |s.done| < s.popped && Move(s) == WorkerMoves
    ensures WorkerStep(s).Some? && Nears(s, WorkerStep(s).value)
  {
    hide Counts, AvailCells, UsedCells, Conserved, InFlight;
    Lengths(s);
  }

  /** One step nearer: some thread can move without a spurious wakeup. */
  lemma Nearer(s: State)
    requires Inv(s) && |s.done| < s.popped
    ensures Step(s, Move(s)).Some?
    ensures Inv(Step(s, Move(s)).value) && Nears(s, Step(s, Move(s)).value)
  {
    hide Inv, CpuStep, WorkerStep, Nears;
    if Move(s) == CpuMoves { CpuNears(s); } else { WorkerNears(s); }
    StepKeeps(s, Move(s));
  }

  /** No request is ever lost or stuck: from every reachable state with a request
      popped and not published, the two threads can publish the oldest one within
      18 steps, with no spurious wakeup. */
  lemma {:induction false} NeverStuck(s: State) returns (acts: seq<Action>)
    requires Inv(s) && |s.done| < s.popped
    ensures |acts| <= Distance(s) <= 18 && forall a :: a in acts ==> a == CpuMoves || a == WorkerMoves
    ensures Run(s, acts).Some? && Run(s, acts).value.done == s.done + [s.offered[|s.done|]]
    decreases Distance(s)
  {
    hide Inv, Step, Conserved;
    Nearer(s);
    var a := Move(s);
    var t := Step(s, a).value;
    var rest := [];
    if s.worker.Publish? { PublishesNext(s, t); } else { rest := NeverStuck(t); }
    acts := [a] + rest;
    assert acts[1..] == rest;
  }

  lemma DonePrefix(s: State)
    requires Inv(s)
    ensures |s.done| <= |s.offered| && s.done == s.offered[..|s.done|]
  {
    hide Shape, Counts, InFlight, AvailCells, UsedCells, Locks, InWorker, InMailbox, InCpu;
    assert s.offered[..s.popped] == s.done + (InWorker(s) + InMailbox(s) + InCpu(s));
  }

  lemma PublishesNext(s: State, t: State)
    requires Inv(s) && Inv(t) && t.offered == s.offered && |t.done| == |s.done| + 1
    ensures |s.done| < |s.offered| && t.done == s.done + [s.offered[|s.done|]]
  {
    hide Inv;
    DonePrefix(s);
    DonePrefix(t);
  }
}

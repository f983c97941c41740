/** The two threads of the disk on guest RAM itself: the CPU thread reads the rings
    and descriptors from RAM and the worker's steps store into RAM and the file.
    Each step is one of VirtioProtocol's, so its results hold of what RAM contains,
    as long as the guest's driver keeps its tables and buffers apart. */
module VirtioMemory {
  import opened Wrappers
  import opened Words
  import opened Memory
  import opened AddressSpace
  import opened VirtioRing
  import opened BlockDevice
  import opened BlockRequests
  import opened P = VirtioProtocol

  /** Guest RAM, the disk file, and the variables of the two threads. */
  datatype Machine = Machine(
    ram: Ram, disk: Disk, cpu: CpuAt, worker: WorkerAt,
    lastAvail: u16, usedIdx: u16, mailbox: Option<Request>, mutex: Option<Thread>)

  // ------------------------------------------------------------- the CPU thread

  /** Where the main descriptor table holds the descriptor of a head. */
  function PlaceOf(v: Vring, head: nat): u64 { Wrap(v.desc + head * DESC_SIZE) }

  /** The request that a head's descriptors describe. */
  function Described(ram: Ram, v: Vring, head: u32): Outcome<Request> {
    var d :- DescAt(ram, PlaceOf(v, head));
    if !d.Indirect() then Stop(Panic) else ReadIndirect(ram, head, d.addr, d.len)
  }

  /** The head read from the ring, and RAM after the event index is published. */
  function HeadRead(ram: Ram, v: Vring, last: u16, event: bool): Outcome<(Ram, u32)> {
    if v.num == 0 then Stop(Undefined)
    else
      var head :- AvailRing(ram, v, Cell(last, v.num));
      if head >= v.num then Stop(Panic)
      else
        var ram' :- EventStored(ram, v, Next(last), event);
        Ok((ram', head))
  }

  /** The CPU thread's next step; None while it waits for the mutex, or when the
      emulator stops. */
  function CpuMove(m: Machine, v: Vring, event: bool): Option<Machine> {
    match m.cpu
    case Guest => None
    case Empty =>
      (match AvailIdx(m.ram, v)
       case Ok(idx) => Some(m.(cpu := if idx == m.lastAvail then Guest else Head))
       case Stop(_) => None)
    case Head =>
      (match HeadRead(m.ram, v, m.lastAvail, event)
       case Ok((ram', head)) => Some(m.(ram := ram', cpu := Chain(head), lastAvail := Next(m.lastAvail)))
       case Stop(_) => None)
    case Chain(head) =>
      (match Described(m.ram, v, head)
       case Ok(r) => Some(m.(cpu := Lock(r)))
       case Stop(_) => None)
    case Lock(r) => if m.mutex == None then Some(m.(cpu := Slot(r), mutex := Some(Cpu))) else None
    case Slot(r) =>
      if m.mailbox.Some? then Some(m.(cpu := Timed(r), mutex := None))
      else Some(m.(cpu := Unlock, mailbox := Some(r)))
    case Timed(r) => if m.mutex == None then Some(m.(cpu := Slot(r), mutex := Some(Cpu))) else None
    case Unlock => Some(m.(cpu := Signal, mutex := None))
    case Signal => Some(m.(cpu := Empty, worker := if m.worker == Asleep then Woken else m.worker))
  }

  // ----------------------------------------------------------------- the worker

  /** _complete's first store. */
  function Status(ram: Ram, req: Request): Outcome<Ram>
    requires |req.iov| > 0
  {
    WritePhys(ram, req.iov[|req.iov| - 1].base, 1, 0)
  }

  /** _do_request up to the status byte: what it leaves in RAM and in the file. */
  function Body(ram: Ram, disk: Disk, req: Request): Outcome<(Ram, Disk)> {
    var h :- HeaderAt(ram, req);
    if h.Plain() == 4 then
      if |req.iov| != 2 then Stop(Panic)
      else
        var ram' :- Status(ram, req);
        Ok((ram', disk))
    else if h.Plain() != 0 then Stop(Panic)
    else if h.Out() then
      if |req.iov| != 3 then Stop(Panic)
      else
        var data :- ReadBlob(ram, req.iov[1].base, req.iov[1].len);
        var pos :- FilePos(h.sector);
        var ram' :- Status(ram, req);
        Ok((ram', FileWrite(disk, pos, data)))
    else if |req.iov| < 3 then Stop(Panic)
    else
      var pos :- FilePos(h.sector);
      var ram1 :- Scatter(ram, disk, pos, DataBufs(req));
      var ram' :- Status(ram1, req);
      Ok((ram', disk))
  }

  /** The used-ring cell of the worker's index. */
  function UsedCell(v: Vring, usedIdx: u16): u64
    requires v.num > 0
  {
    Wrap(SlotAt(v, Cell(usedIdx, v.num)))
  }

  /** The store of one of the worker's steps into the used ring. */
  function UsedStore(m: Machine, v: Vring): Outcome<Ram> {
    if v.num == 0 then Stop(Undefined)
    else
      match m.worker
      case WriteId(r) => WritePhys(m.ram, UsedCell(v, m.usedIdx), 4, r.index)
      case WriteLen(r) => WritePhys(m.ram, Wrap(UsedCell(v, m.usedIdx) + 4), 4, r.inLen)
      case Publish(_) => WritePhys(m.ram, Wrap(v.used + 2), 2, m.usedIdx)
      case _ => Ok(m.ram)
  }

  function Stored(m: Machine, v: Vring, worker: WorkerAt): Option<Machine> {
    match UsedStore(m, v)
    case Ok(ram') => Some(m.(ram := ram', worker := worker))
    case Stop(_) => None
  }

  /** The worker's next step; None while it waits, or when the emulator stops. */
  function WorkerMove(m: Machine, v: Vring): Option<Machine> {
    match m.worker
    case WLock | Woken => if m.mutex == None then Some(m.(worker := WSlot, mutex := Some(Worker))) else None
    case WSlot =>
      (match m.mailbox
       case None => Some(m.(worker := Asleep, mutex := None))
       case Some(r) => Some(m.(worker := Taken(r), mailbox := None)))
    case Asleep => None
    case Taken(r) => Some(m.(worker := Busy(r), mutex := None))
    case Busy(r) =>
      (match Body(m.ram, m.disk, r)
       case Ok((ram', disk')) => Some(m.(ram := ram', disk := disk', worker := WriteId(r)))
       case Stop(_) => None)
    case WriteId(r) => Stored(m, v, WriteLen(r))
    case WriteLen(r) => Stored(m, v, Advance(r))
    case Advance(r) => Some(m.(usedIdx := Next(m.usedIdx), worker := Publish(r)))
    case Publish(_) => Stored(m, v, WLock)
  }

  // ------------------------------------ the steps make up the code's operations

  function Then(m: Option<Machine>, v: Vring): Option<Machine> {
    match m
    case None => None
    case Some(n) => WorkerMove(n, v)
  }

  /** Served alone, a request takes five steps of the worker, and they amount to
      _do_request. */
  lemma ServeIsMoves(m: Machine, v: Vring, r: Request)
    requires m.worker == Busy(r)
    ensures Then(Then(Then(Then(WorkerMove(m, v), v), v), v), v)
         == match Serve(m.ram, m.disk, v, m.usedIdx, r)
            case Ok(s) => Some(m.(ram := s.ram, disk := s.disk, usedIdx := s.usedIdx, worker := WLock))
            case Stop(_) => None
  {
    hide HeaderAt, WritePhys, ReadBlob, FilePos, Scatter, FileWrite, UsedWrite, Body, Serve, Wrap;
    ServeIsBody(m.ram, m.disk, v, m.usedIdx, r);
    var b := Body(m.ram, m.disk, r);
    if b.Ok? {
      PublishIsMoves(m.(ram := b.value.0, disk := b.value.1, worker := WriteId(r)), v, r);
    }
  }

  lemma ServeIsBody(ram: Ram, disk: Disk, v: Vring, usedIdx: u16, r: Request)
    ensures var s, b := Serve(ram, disk, v, usedIdx, r), Body(ram, disk, r);
            if b.Stop? then s.Stop?
            else
              var u := UsedWrite(b.value.0, v, usedIdx, r);
              if u.Stop? then s.Stop? else s == Ok(Served(u.value.0, b.value.1, u.value.1))
  {
    hide HeaderAt, WritePhys, ReadBlob, FilePos, Scatter, FileWrite, UsedWrite;
  }

  lemma PublishIsMoves(m: Machine, v: Vring, r: Request)
    requires m.worker == WriteId(r)
    ensures Then(Then(Then(WorkerMove(m, v), v), v), v)
         == match UsedWrite(m.ram, v, m.usedIdx, r)
            case Ok((ram', next)) => Some(m.(ram := ram', usedIdx := next, worker := WLock))
            case Stop(_) => None
  {
    hide WritePhys, Wrap;
  }

  function ThenCpu(m: Option<Machine>, v: Vring, event: bool): Option<Machine> {
    match m
    case None => None
    case Some(n) => if n.cpu.Guest? then m else CpuMove(n, v, event)
  }

  /** Alone, the CPU thread's steps from the emptiness test on amount to vqueue_pop. */
  lemma PopIsMoves(m: Machine, v: Vring, event: bool)
    requires m.cpu == Empty
    ensures ThenCpu(ThenCpu(CpuMove(m, v, event), v, event), v, event)
         == match Pop(m.ram, v, m.lastAvail, event)
            case Ok(None) => Some(m.(cpu := Guest))
            case Ok(Some((ram', next, r))) => Some(m.(ram := ram', lastAvail := next, cpu := Lock(r)))
            case Stop(_) => None
  {
    hide AvailIdx, AvailRing, EventStored, DescAt, ReadIndirect, Wrap;
  }

  // ------------------------------------------------------- what is read and kept

  /** The places where the chain loop reads descriptors. */
  function Walk(ram: Ram, table: u64, pa: u64, n: nat): seq<u64>
    decreases MAX_CHAIN - n
  {
    if n >= MAX_CHAIN then []
    else
      match DescAt(ram, pa)
      case Stop(_) => [pa]
      case Ok(d) => [pa] + if d.HasNext() then Walk(ram, table, After(table, d), n + 1) else []
  }

  /** The places read to find what a head describes. */
  function Looks(ram: Ram, v: Vring, head: u32): seq<u64> {
    var pa := PlaceOf(v, head);
    match DescAt(ram, pa)
    case Stop(_) => [pa]
    case Ok(d) => [pa] + Walk(ram, d.addr, d.addr, 0)
  }

  /** Memory changed at most in some ranges, none of which meets the places. */
  predicate Spared(ram: Ram, ram': Ram, bufs: seq<Iov>, places: seq<u64>) {
    SameOutsideBufs(ram, ram', bufs) && forall p :: p in places ==> Clear(bufs, p, DESC_SIZE)
  }

  lemma SameDesc(ram: Ram, ram': Ram, bufs: seq<Iov>, pa: u64)
    requires SameOutsideBufs(ram, ram', bufs) && Clear(bufs, pa, DESC_SIZE)
    ensures DescAt(ram', pa) == DescAt(ram, pa)
  {
    hide ReadBlob, SameOutsideBufs, Clear, ParseDesc;
    ReadsSame(ram, ram', bufs, pa, DESC_SIZE);
  }

  lemma {:induction false} SameWalk(ram: Ram, ram': Ram, bufs: seq<Iov>, table: u64, pa: u64, n: nat)
    requires Spared(ram, ram', bufs, Walk(ram, table, pa, n))
    ensures Walk(ram', table, pa, n) == Walk(ram, table, pa, n)
    ensures Follow(ram', table, pa, n) == Follow(ram, table, pa, n)
    decreases MAX_CHAIN - n
  {
    hide DescAt, After, SameOutsideBufs, Clear;
    if n >= MAX_CHAIN {
    } else {
      assert pa in Walk(ram, table, pa, n);
      SameDesc(ram, ram', bufs, pa);
      var d := DescAt(ram, pa);
      if d.Ok? && d.value.HasNext() {
        SameWalk(ram, ram', bufs, table, After(table, d.value), n + 1);
      }
    }
  }

  /** What a head describes depends on nothing but the places read for it. */
  lemma SameDescribed(ram: Ram, ram': Ram, bufs: seq<Iov>, v: Vring, head: u32)
    requires Spared(ram, ram', bufs, Looks(ram, v, head))
    ensures Described(ram', v, head) == Described(ram, v, head) && Looks(ram', v, head) == Looks(ram, v, head)
  {
    hide DescAt, Walk, Follow, SameOutsideBufs, Clear, PlaceOf;
    var pa := PlaceOf(v, head);
    assert pa in Looks(ram, v, head);
    SameDesc(ram, ram', bufs, pa);
    var d := DescAt(ram, pa);
    if d.Ok? { SameWalk(ram, ram', bufs, d.value.addr, d.value.addr, 0); }
  }

  /** Memory changed only away from both rings still holds them. */
  lemma SameRings(ram: Ram, ram': Ram, bufs: seq<Iov>, v: Vring, c: Cells)
    requires Rings(ram, v, c) && SameOutsideBufs(ram, ram', bufs)
    requires Clear(bufs, v.avail, 4 + 2 * v.num) && Clear(bufs, v.used, 6 + 8 * v.num)
    ensures Rings(ram', v, c)
  {
    hide ReadPhys, SameOutsideBufs, Clear;
    SamePhys(ram, ram', bufs, v.avail, 4 + 2 * v.num, v.avail + 2, 2);
    SamePhys(ram, ram', bufs, v.used, 6 + 8 * v.num, v.used + 2, 2);
    forall i | 0 <= i < v.num ensures AvailRing(ram', v, i) == Ok(c.avail[i]) {
      SamePhys(ram, ram', bufs, v.avail, 4 + 2 * v.num, v.avail + 4 + 2 * i, 2);
    }
    forall i | 0 <= i < v.num ensures ElemAt(ram', v, i, c.used[i]) {
      assert ElemAt(ram, v, i, c.used[i]);
      SamePhys(ram, ram', bufs, v.used, 6 + 8 * v.num, SlotAt(v, i), 4);
      SamePhys(ram, ram', bufs, v.used, 6 + 8 * v.num, SlotAt(v, i) + 4, 4);
    }
    assert |ram'| == |ram| by { SameLength(ram, ram', bufs); }
  }

  lemma SameLength(ram: Ram, ram': Ram, bufs: seq<Iov>)
    requires SameOutsideBufs(ram, ram', bufs)
    ensures |ram'| == |ram|
  {
  }

  lemma SamePhys(ram: Ram, ram': Ram, bufs: seq<Iov>, pa: nat, n: nat, pb: nat, m: nat)
    requires SameOutsideBufs(ram, ram', bufs) && Clear(bufs, pa, n)
    requires pa <= pb && pb + m <= pa + n && pb < B64
    ensures Wrap(pb) == pb && ReadPhys(ram', pb, m) == ReadPhys(ram, pb, m)
  {
    hide FromBytes;
    if InRam(ram, pb, m) {
      forall i | 0 <= i < m ensures Slice(ram', pb, m)[i] == Slice(ram, pb, m)[i] { ClearBytes(bufs, pa, n, pb + i); }
      assert Slice(ram', pb, m) == Slice(ram, pb, m);
    }
  }

  /** Where the worker stores for a request before it completes it: the data
      buffers and the status byte. */
  function Stores(req: Request): seq<Iov> {
    if |req.iov| < 2 then []
    else DataBufs(req) + [Iov(req.iov[|req.iov| - 1].base, 1, true)]
  }

  lemma {:induction false} InBothBufs(a: seq<Iov>, b: seq<Iov>, x: int)
    ensures InBufs(a + b, x) <==> InBufs(a, x) || InBufs(b, x)
  {
    if a == [] {
      assert a + b == b;
    } else {
      assert (a + b)[1..] == a[1..] + b;
      InBothBufs(a[1..], b, x);
    }
  }

  lemma InOneBuf(b: Iov, x: int)
    ensures InBufs([b], x) <==> Covers(b.base, b.len, x)
  {
    assert [b][1..] == [];
  }

  lemma StatusFrame(ram: Ram, req: Request)
    requires |req.iov| >= 2 && Status(ram, req).Ok?
    ensures SameOutsideBufs(ram, Status(ram, req).value, Stores(req))
  {
    hide InBufs, ToBytes, DataBufs;
    var pa := req.iov[|req.iov| - 1].base;
    var b := Iov(pa, 1, true);
    forall x ensures InBufs(Stores(req), x) <==> InBufs(DataBufs(req), x) || x == pa {
      InBothBufs(DataBufs(req), [b], x);
      InOneBuf(b, x);
    }
  }

  lemma ScatterSpares(ram: Ram, disk: Disk, pos: nat, req: Request)
    requires |req.iov| >= 2 && Scatter(ram, disk, pos, DataBufs(req)).Ok?
    ensures SameOutsideBufs(ram, Scatter(ram, disk, pos, DataBufs(req)).value, Stores(req))
  {
    hide InBufs, DataBufs;
    ScatterFrame(ram, disk, pos, DataBufs(req));
    forall x ensures InBufs(DataBufs(req), x) ==> InBufs(Stores(req), x) {
      InBothBufs(DataBufs(req), [Iov(req.iov[|req.iov| - 1].base, 1, true)], x);
    }
  }

  /** Before completion the worker stores only there. */
  lemma BodyFrame(ram: Ram, disk: Disk, req: Request)
    requires Body(ram, disk, req).Ok?
    ensures SameOutsideBufs(ram, Body(ram, disk, req).value.0, Stores(req))
  {
    hide HeaderAt, ReadBlob, FilePos, Scatter, FileWrite, Status, InBufs;
    var h := HeaderAt(ram, req).value;
    if h.Plain() == 0 && !h.Out() {
      var pos := FilePos(h.sector).value;
      ScatterSpares(ram, disk, pos, req);
      StatusFrame(Scatter(ram, disk, pos, DataBufs(req)).value, req);
    } else {
      StatusFrame(ram, req);
    }
  }

  // ------------------------------------------------- memory and protocol related

  /** The first offered request whose descriptors are still to be read. */
  function Unread(s: State): nat {
    if s.cpu.Chain? && s.popped > 0 then s.popped - 1 else s.popped
  }

  /** What the driver owes for request k: until it is read its descriptors describe
      it and lie away from the used ring. */
  ghost predicate Readable(ram: Ram, v: Vring, r: Request) {
    && Described(ram, v, r.index) == Ok(r)
    && forall p :: p in Looks(ram, v, r.index) ==> Disjoint(p, DESC_SIZE, v.used, 6 + 8 * v.num)
  }

  /** Until it is completed, what the device stores for it is away from the rings. */
  ghost predicate AwayFromRings(v: Vring, r: Request) {
    Clear(Stores(r), v.avail, 4 + 2 * v.num) && Clear(Stores(r), v.used, 6 + 8 * v.num)
  }

  /** What the device stores for one request is away from another's descriptors. */
  ghost predicate AwayFrom(ram: Ram, v: Vring, r: Request, other: Request) {
    forall p :: p in Looks(ram, v, other.index) ==> Clear(Stores(r), p, DESC_SIZE)
  }

  ghost predicate Tidy(ram: Ram, v: Vring, s: State) {
    && (forall k :: Unread(s) <= k < |s.offered| ==> Readable(ram, v, s.offered[k]))
    && (forall j :: |s.done| <= j < |s.offered| ==> AwayFromRings(v, s.offered[j]))
    && (forall j, k :: |s.done| <= j < |s.offered| && Unread(s) <= k < |s.offered| && j < k ==>
          AwayFrom(ram, v, s.offered[j], s.offered[k]))
  }

  /** RAM holds the rings and the unread descriptors. */
  ghost predicate InMemory(ram: Ram, v: Vring, s: State) {
    Rings(ram, v, s.cells) && Tidy(ram, v, s)
  }

  predicate SameThreads(m: Machine, s: State) {
    && m.cpu == s.cpu && m.worker == s.worker && m.lastAvail == s.lastAvail && m.usedIdx == s.usedIdx
    && m.mailbox == s.mailbox && m.mutex == s.mutex
  }

  /** The head being looked up is that of the request popped last. */
  predicate HeadNamed(s: State) {
    s.cpu.Chain? ==> 0 < s.popped <= |s.offered| && s.cpu.head == s.offered[s.popped - 1].index
  }

  ghost predicate Related(m: Machine, v: Vring, s: State) {
    SameThreads(m, s) && InMemory(m.ram, v, s) && HeadNamed(s)
  }

  /** Stores away from the unread descriptors leave them readable, and as far from
      everything as they were. */
  lemma TidyKept(ram: Ram, ram': Ram, bufs: seq<Iov>, v: Vring, s: State)
    requires Tidy(ram, v, s)
    requires forall k :: Unread(s) <= k < |s.offered| ==> Spared(ram, ram', bufs, Looks(ram, v, s.offered[k].index))
    ensures Tidy(ram', v, s)
  {
    hide Looks, Described, Unread, AwayFromRings, Spared;
    forall k | Unread(s) <= k < |s.offered|
      ensures Readable(ram', v, s.offered[k]) && Looks(ram', v, s.offered[k].index) == Looks(ram, v, s.offered[k].index)
    {
      assert Readable(ram, v, s.offered[k]);
      SameDescribed(ram, ram', bufs, v, s.offered[k].index);
    }
    forall j, k | |s.done| <= j < |s.offered| && Unread(s) <= k < |s.offered| && j < k
      ensures AwayFrom(ram', v, s.offered[j], s.offered[k])
    {
      assert AwayFrom(ram, v, s.offered[j], s.offered[k]);
    }
  }

  /** As requests are read and completed the driver owes less. */
  lemma TidyLater(ram: Ram, v: Vring, s: State, t: State)
    requires Tidy(ram, v, s) && t.offered == s.offered && |s.done| <= |t.done| && Unread(s) <= Unread(t)
    ensures Tidy(ram, v, t)
  {
    hide Readable, AwayFromRings, AwayFrom, Unread;
  }

  /** Stores into the used ring leave the descriptors readable. */
  lemma UsedRingTidy(ram: Ram, ram': Ram, v: Vring, s: State)
    requires Tidy(ram, v, s) && SameOutside(ram, ram', v.used, 6 + 8 * v.num) && v.num < B16
    ensures Tidy(ram', v, s)
  {
    hide Looks, Described, Unread, AwayFromRings, AwayFrom;
    var b := Iov(v.used, 6 + 8 * v.num, true);
    assert SameOutsideBufs(ram, ram', [b]) by {
      forall x ensures InBufs([b], x) <==> Covers(b.base, b.len, x) { InOneBuf(b, x); }
    }
    forall k | Unread(s) <= k < |s.offered| ensures Spared(ram, ram', [b], Looks(ram, v, s.offered[k].index)) {
      assert Readable(ram, v, s.offered[k]);
    }
    TidyKept(ram, ram', [b], v, s);
  }

  lemma StoreInUsed(ram: Ram, v: Vring, pa: u64, n: nat, x: u64)
    requires WritePhys(ram, pa, n, x).Ok? && v.used <= pa && pa + n <= v.used + 6 + 8 * v.num
    ensures SameOutside(ram, WritePhys(ram, pa, n, x).value, v.used, 6 + 8 * v.num)
  {
    StoreFrame(ram, pa, n, x, v.used, 6 + 8 * v.num);
  }

  // ---------------------------------------------------- every step is a step of
  //                                                      the protocol

  /** The request being looked up is the one popped last. */
  lemma ChainIsLast(s: State)
    requires Inv(s) && s.cpu.Chain? && HeadNamed(s)
    ensures CpuStep(s) == Some(s.(cpu := Lock(s.offered[s.popped - 1])))
    ensures Unread(s) == s.popped - 1 && |s.done| + |InWorker(s)| <= s.popped - 1
  {
    hide AvailCells, UsedCells, Shape, Locks, NoLostWakeup, Idx, Next, Cell, InWorker, InMailbox;
    Lengths(s);
    var r := s.tables[s.cpu.head];
    assert InCpu(s) == [r];
    assert s.offered[s.popped - 1] == r by {
      assert s.offered[..s.popped][s.popped - 1] == (s.done + InWorker(s) + InMailbox(s) + [r])[s.popped - 1];
    }
  }

  lemma HeadMoves(m: Machine, v: Vring, event: bool, s: State)
    requires Inv(s) && Related(m, v, s) && m.cpu == Head
    ensures CpuMove(m, v, event).Some? && CpuStep(s).Some?
    ensures Related(CpuMove(m, v, event).value, v, CpuStep(s).value)
  {
    hide Rings, Tidy, Idx, Next, Cell, AvailIdx, AvailRing, EventStored, UsedCells, AvailCells, Conserved;
    RingsShape(m.ram, v, s.cells);
    HeadIsNext(s);
    var i := Cell(m.lastAvail, v.num);
    assert AvailRing(m.ram, v, i) == Ok(s.cells.avail[i]);
    EventKeeps(m.ram, v, s.cells, Next(m.lastAvail), event);
    var ram' := EventStored(m.ram, v, Next(m.lastAvail), event).value;
    EventSpares(m.ram, v, s.cells, Next(m.lastAvail), event);
    UsedRingTidy(m.ram, ram', v, s);
    TidyLater(ram', v, s, CpuStep(s).value);
  }

  lemma EventSpares(ram: Ram, v: Vring, c: Cells, x: u16, event: bool)
    requires Rings(ram, v, c) && EventStored(ram, v, x, event).Ok?
    ensures SameOutside(ram, EventStored(ram, v, x, event).value, v.used, 6 + 8 * v.num)
  {
    hide WritePhys, SameOutside, AvailView, UsedView;
    if event {
      StoreInUsed(ram, v, v.used + 4 + 8 * v.num, 2, x);
    } else {
      NothingStored(ram, v);
    }
  }

  lemma NothingStored(ram: Ram, v: Vring)
    ensures SameOutside(ram, ram, v.used, 6 + 8 * v.num)
  {
  }

  lemma ChainMoves(m: Machine, v: Vring, event: bool, s: State)
    requires Inv(s) && Related(m, v, s) && m.cpu.Chain?
    ensures CpuMove(m, v, event).Some? && CpuStep(s).Some?
    ensures Related(CpuMove(m, v, event).value, v, CpuStep(s).value)
  {
    hide Inv, Rings, AwayFromRings, AwayFrom, Described;
    ChainIsLast(s);
    assert s.popped <= |s.offered| && |s.done| <= s.popped by { CountsOf(s); }
    assert Readable(m.ram, v, s.offered[s.popped - 1]);
    TidyLater(m.ram, v, s, CpuStep(s).value);
  }

  lemma CountsOf(s: State)
    requires Inv(s)
    ensures Counts(s) && Shape(s)
  {
  }

  /** A step of the CPU thread on RAM is its step of the protocol: each can be
      taken exactly when the other can. */
  lemma CpuRefines(m: Machine, v: Vring, event: bool, s: State)
    requires Inv(s) && Related(m, v, s)
    ensures CpuMove(m, v, event).Some? <==> CpuStep(s).Some?
    ensures CpuStep(s).Some? ==> Related(CpuMove(m, v, event).value, v, CpuStep(s).value)
  {
    hide Inv, Rings, Tidy, Idx, Next, Cell, AvailIdx, HeadRead, Described;
    if m.cpu.Head? {
      HeadMoves(m, v, event, s);
    } else if m.cpu.Chain? {
      ChainMoves(m, v, event, s);
    } else {
      RingsShape(m.ram, v, s.cells);
      if CpuStep(s).Some? { TidyLater(m.ram, v, s, CpuStep(s).value); }
    }
  }

  /** The worker holds the oldest request that is not published. */
  lemma WorkerHoldsNext(s: State)
    requires Inv(s) && InWorker(s) != []
    ensures |s.done| < Unread(s) <= |s.offered| && s.offered[|s.done|] == InWorker(s)[0]
  {
    hide AvailCells, UsedCells, Locks, NoLostWakeup, Idx, Next, Cell, InMailbox;
    Lengths(s);
    assert s.offered[|s.done|] == s.offered[..s.popped][|s.done|];
  }

  lemma BusyMoves(m: Machine, v: Vring, s: State)
    requires Inv(s) && Related(m, v, s) && m.worker.Busy? && Body(m.ram, m.disk, m.worker.req).Ok?
    ensures WorkerStep(s).Some? && WorkerMove(m, v).Some?
    ensures Related(WorkerMove(m, v).value, v, WorkerStep(s).value)
  {
    hide Inv, Rings, Looks, Readable, Unread, SameOutsideBufs, Clear, Body;
    var r := m.worker.req;
    var ram' := Body(m.ram, m.disk, r).value.0;
    WorkerHoldsNext(s);
    BodyFrame(m.ram, m.disk, r);
    assert AwayFromRings(v, s.offered[|s.done|]);
    SameRings(m.ram, ram', Stores(r), v, s.cells);
    forall k | Unread(s) <= k < |s.offered|
      ensures Spared(m.ram, ram', Stores(r), Looks(m.ram, v, s.offered[k].index))
    {
      assert AwayFrom(m.ram, v, s.offered[|s.done|], s.offered[k]);
    }
    TidyKept(m.ram, ram', Stores(r), v, s);
    SameUnread(s, WorkerStep(s).value);
    TidyLater(ram', v, s, WorkerStep(s).value);
  }

  lemma SameUnread(s: State, t: State)
    requires t.popped == s.popped && t.cpu == s.cpu
    ensures Unread(t) == Unread(s)
  {
  }

  /** The store of the worker's step gives the cells of the protocol's next state. */
  lemma UsedStoreView(m: Machine, v: Vring, s: State)
    requires Inv(s) && SameThreads(m, s) && Rings(m.ram, v, s.cells) && WorkerStep(s).Some? && !m.worker.Busy?
    ensures v.num > 0 && UsedStore(m, v).Ok? && Rings(UsedStore(m, v).value, v, WorkerStep(s).value.cells)
    ensures SameOutside(m.ram, UsedStore(m, v).value, v.used, 6 + 8 * v.num) && v.num < B16
  {
    hide Rings, WritePhys, Cell, SameOutside, Counts, InFlight, AvailCells, UsedCells, Conserved, Wrap;
    RingsShape(m.ram, v, s.cells);
    var i := Cell(m.usedIdx, v.num);
    match m.worker
    case WriteId(r) =>
      StoreField(m.ram, v, s.cells, i, false, r.index);
      CellSpares(m.ram, v, s.cells, i, false, r.index);
    case WriteLen(r) =>
      FieldPlace(m.ram, v, s.cells, i);
      StoreField(m.ram, v, s.cells, i, true, r.inLen);
      CellSpares(m.ram, v, s.cells, i, true, r.inLen);
    case Publish(_) =>
      StoreIdx(m.ram, v, s.cells, m.usedIdx);
      IdxSpares(m.ram, v, s.cells, m.usedIdx);
    case _ => NothingStored(m.ram, v);
  }

  lemma FieldPlace(ram: Ram, v: Vring, c: Cells, i: nat)
    requires Rings(ram, v, c) && i < v.num
    ensures Wrap(Wrap(SlotAt(v, i)) + 4) == Wrap(SlotAt(v, i) + 4)
  {
    WrapTwice(SlotAt(v, i), 4);
  }

  lemma CellSpares(ram: Ram, v: Vring, c: Cells, i: nat, second: bool, x: u32)
    requires Rings(ram, v, c) && i < v.num
    requires WritePhys(ram, Wrap(SlotAt(v, i) + if second then 4 else 0), 4, x).Ok?
    ensures SameOutside(ram, WritePhys(ram, Wrap(SlotAt(v, i) + if second then 4 else 0), 4, x).value,
                        v.used, 6 + 8 * v.num)
  {
    hide WritePhys, SameOutside, AvailView, UsedView;
    StoreInUsed(ram, v, SlotAt(v, i) + if second then 4 else 0, 4, x);
  }

  lemma IdxSpares(ram: Ram, v: Vring, c: Cells, x: u16)
    requires Rings(ram, v, c) && WritePhys(ram, Wrap(v.used + 2), 2, x).Ok?
    ensures SameOutside(ram, WritePhys(ram, Wrap(v.used + 2), 2, x).value, v.used, 6 + 8 * v.num)
  {
    hide WritePhys, SameOutside, AvailView, UsedView;
    StoreInUsed(ram, v, v.used + 2, 2, x);
  }

  /** A step of the worker on RAM and the file is its step of the protocol. Each can
      be taken exactly when the other can, but that a request which cannot be
      served stops the emulator. */
  lemma WorkerRefines(m: Machine, v: Vring, s: State)
    requires Inv(s) && Related(m, v, s)
    ensures WorkerMove(m, v).Some?
       <==> WorkerStep(s).Some? && (m.worker.Busy? ==> Body(m.ram, m.disk, m.worker.req).Ok?)
    ensures WorkerMove(m, v).Some? ==> Related(WorkerMove(m, v).value, v, WorkerStep(s).value)
  {
    hide Inv, Rings, Tidy, Idx, Next, Cell, Body, UsedStore, Unread;
    if m.worker.Busy? {
      if Body(m.ram, m.disk, m.worker.req).Ok? { BusyMoves(m, v, s); }
    } else if WorkerStep(s).Some? {
      var t := WorkerStep(s).value;
      UsedStoreView(m, v, s);
      UsedRingTidy(m.ram, UsedStore(m, v).value, v, s);
      SameUnread(s, t);
      TidyLater(UsedStore(m, v).value, v, s, t);
      TidyLater(m.ram, v, s, t);
      if !(s.worker.WriteId? || s.worker.WriteLen? || s.worker.Publish?) { assert t.cells == s.cells; }
    } else {
      CountsOf(s);
    }
  }

  // ----------------------------------------------------------------------- runs

  /** A turn of one of the parties. The guest stores what it likes, and may thereby
      offer a request, take back a used entry, or notify the device. */
  datatype Move = Drives(does: Option<Action>, ram: Ram) | CpuTurn | WorkerTurn | Wakes

  function MachineStep(m: Machine, v: Vring, event: bool, move: Move): Option<Machine> {
    match move
    case Drives(does, ram) =>
      if m.cpu == Guest then Some(m.(ram := ram, cpu := if does == Some(Notify) then Empty else Guest)) else None
    case CpuTurn => CpuMove(m, v, event)
    case WorkerTurn => WorkerMove(m, v)
    case Wakes => if m.worker == Asleep then Some(m.(worker := Woken)) else None
  }

  function MachineRun(m: Machine, v: Vring, event: bool, moves: seq<Move>): Option<Machine>
    decreases moves
  {
    if moves == [] then Some(m)
    else
      match MachineStep(m, v, event, moves[0])
      case None => None
      case Some(n) => MachineRun(n, v, event, moves[1..])
  }

  /** The protocol's actions behind a turn. */
  function ActsOf(move: Move): seq<Action> {
    match move
    case Drives(does, _) => if does.Some? then [does.value] else []
    case CpuTurn => [CpuMoves]
    case WorkerTurn => [WorkerMoves]
    case Wakes => [SpuriousWake]
  }

  function Acts(moves: seq<Move>): seq<Action> {
    if moves == [] then [] else ActsOf(moves[0]) + Acts(moves[1..])
  }

  /** The driver's part: it offers only under a free head, takes back only what is
      new, and leaves the rings and the unread descriptors in memory. */
  ghost predicate Behaves(v: Vring, s: State, move: Move) {
    move.Drives? ==>
      && (move.does.Some? ==> move.does.value.Offer? || move.does.value.Reap? || move.does.value.Notify?)
      && Run(s, ActsOf(move)).Some? && InMemory(move.ram, v, Run(s, ActsOf(move)).value)
  }

  /** It plays its part at every one of its turns. */
  ghost predicate AllBehave(m: Machine, v: Vring, event: bool, s: State, moves: seq<Move>)
    decreases moves
  {
    moves == [] ||
    (&& Behaves(v, s, moves[0])
     && match (MachineStep(m, v, event, moves[0]), Run(s, ActsOf(moves[0])))
        case (Some(n), Some(t)) => AllBehave(n, v, event, t, moves[1..])
        case _ => true)
  }

  lemma RunOne(s: State, a: Action)
    ensures Run(s, [a]) == Step(s, a)
  {
    hide Step;
    assert [a][1..] == [];
  }

  lemma {:induction false} RunsJoin(s: State, a: seq<Action>, b: seq<Action>)
    requires Run(s, a).Some?
    ensures Run(s, a + b) == Run(Run(s, a).value, b)
    decreases a
  {
    hide Step;
    if a == [] {
      assert a + b == b;
    } else {
      assert (a + b)[1..] == a[1..] + b;
      RunsJoin(Step(s, a[0]).value, a[1..], b);
    }
  }

  lemma DrivesRefines(m: Machine, v: Vring, event: bool, s: State, move: Move)
    requires Inv(s) && Related(m, v, s) && Behaves(v, s, move) && move.Drives?
    requires MachineStep(m, v, event, move).Some?
    ensures Run(s, ActsOf(move)).Some?
    ensures Related(MachineStep(m, v, event, move).value, v, Run(s, ActsOf(move)).value)
  {
    hide Inv, InMemory, MayOffer, MayReap;
    if move.does.Some? { RunOne(s, move.does.value); }
  }

  /** One turn on memory is at most one step of the protocol. */
  lemma StepRefines(m: Machine, v: Vring, event: bool, s: State, move: Move)
    requires Inv(s) && Related(m, v, s) && Behaves(v, s, move) && MachineStep(m, v, event, move).Some?
    ensures Run(s, ActsOf(move)).Some? && Inv(Run(s, ActsOf(move)).value)
    ensures Related(MachineStep(m, v, event, move).value, v, Run(s, ActsOf(move)).value)
  {
    hide Inv, CpuStep, WorkerStep, CpuMove, WorkerMove, InMemory, Behaves;
    match move {
      case Drives(_, _) => DrivesRefines(m, v, event, s, move);
      case CpuTurn =>
        CpuRefines(m, v, event, s);
        RunOne(s, CpuMoves);
      case WorkerTurn =>
        WorkerRefines(m, v, s);
        RunOne(s, WorkerMoves);
      case Wakes =>
        RunOne(s, SpuriousWake);
        WokenRelated(m, v, s);
    }
    RunKeeps(s, ActsOf(move));
  }

  lemma WokenRelated(m: Machine, v: Vring, s: State)
    requires Related(m, v, s)
    ensures Related(m.(worker := Woken), v, s.(worker := Woken))
  {
    hide Rings;
    TidyLater(m.ram, v, s, s.(worker := Woken));
  }

  /** Every run on memory in which the driver plays its part is a run of the
      protocol. */
  lemma {:induction false} RunRefines(m: Machine, v: Vring, event: bool, s: State, moves: seq<Move>)
    requires Inv(s) && Related(m, v, s) && AllBehave(m, v, event, s, moves)
    requires MachineRun(m, v, event, moves).Some?
    ensures Run(s, Acts(moves)).Some?
    ensures Inv(Run(s, Acts(moves)).value)
    ensures Related(MachineRun(m, v, event, moves).value, v, Run(s, Acts(moves)).value)
    decreases moves
  {
    hide Inv, Related, MachineStep, Behaves, ActsOf;
    if moves == [] {
    } else {
      StepRefines(m, v, event, s, moves[0]);
      var n, t := MachineStep(m, v, event, moves[0]).value, Run(s, ActsOf(moves[0])).value;
      RunRefines(n, v, event, t, moves[1..]);
      RunsJoin(s, ActsOf(moves[0]), Acts(moves[1..]));
    }
  }

  /** The machine before the driver has offered anything. */
  function InitMachine(ram: Ram, disk: Disk): Machine {
    Machine(ram, disk, Guest, WLock, 0, 0, None, None)
  }

  /** In every run from empty rings, whatever the interleaving and whatever else the
      guest stores: the used index in RAM counts the requests published, these are
      the first ones the driver offered, in its order, and every used entry the
      driver has not yet read names its request and length, in RAM. */
  lemma PublishedInRam(ram: Ram, disk: Disk, v: Vring, event: bool, num: nat, moves: seq<Move>)
    requires P.GoodSize(num) && Rings(ram, v, InitState(num).cells)
    requires AllBehave(InitMachine(ram, disk), v, event, InitState(num), moves)
    requires MachineRun(InitMachine(ram, disk), v, event, moves).Some?
    ensures Run(InitState(num), Acts(moves)).Some?
    ensures var s := Run(InitState(num), Acts(moves)).value;
            var m := MachineRun(InitMachine(ram, disk), v, event, moves).value;
            && |s.done| <= |s.offered| && s.done == s.offered[..|s.done|]
            && ReadPhys(m.ram, Wrap(v.used + 2), 2) == Ok(Idx(|s.done|)) && v.num == num
            && forall k :: s.reaped <= k < |s.done| ==> ElemAt(m.ram, v, SlotOf(k, num), ElemOf(s.offered[k]))
  {
    hide Inv, ReadPhys, Idx, Cell, ElemAt, AllBehave, MachineRun, Tidy;
    var s0 := InitState(num);
    InitInv(num);
    TidyAtStart(ram, v, num);
    RunRefines(InitMachine(ram, disk), v, event, s0, moves);
    var s, m := Run(s0, Acts(moves)).value, MachineRun(InitMachine(ram, disk), v, event, moves).value;
    DonePrefix(s);
    UsedOf(s);
    RunKeepsNum(s0, Acts(moves));
    assert UsedView(m.ram, v, s.cells);
  }

  lemma TidyAtStart(ram: Ram, v: Vring, num: nat)
    ensures Tidy(ram, v, InitState(num))
  {
  }

  lemma UsedOf(s: State)
    requires Inv(s)
    ensures Num(s) > 0 && s.cells.usedIdx == Idx(|s.done|) && |s.cells.used| == Num(s)
    ensures forall k :: s.reaped <= k < |s.done| ==> s.cells.used[SlotOf(k, Num(s))] == ElemOf(s.done[k])
  {
  }

  lemma {:induction false} RunKeepsNum(s: State, acts: seq<Action>)
    requires Run(s, acts).Some?
    ensures Num(Run(s, acts).value) == Num(s)
    decreases acts
  {
    if acts == [] {
    } else {
      RunKeepsNum(Step(s, acts[0]).value, acts[1..]);
    }
  }

  // ------------------------------------------------------------------- progress

  /** The worker has not yet served the oldest unpublished request. */
  predicate Unserved(s: State) {
    match s.worker
    case WLock | WSlot | Asleep | Woken => true
    case Taken(_) => true
    case Busy(_) => true
    case _ => false
  }

  function TurnFor(a: Action): Move { if a == CpuMoves then CpuTurn else WorkerTurn }

  /** The move that brings publication nearer leaves RAM, file and index alone until
      the request is served. */
  lemma QuietMove(m: Machine, v: Vring, event: bool, s: State)
    requires Inv(s) && SameThreads(m, s) && |s.done| < s.popped && !m.worker.Publish?
    requires MachineStep(m, v, event, TurnFor(P.Move(s))).Some? && Step(s, P.Move(s)).Some?
    ensures var n := MachineStep(m, v, event, TurnFor(P.Move(s))).value;
            Unserved(Step(s, P.Move(s)).value) ==>
              Unserved(s) && n.ram == m.ram && n.disk == m.disk && n.usedIdx == m.usedIdx
  {
    hide Counts, AvailCells, UsedCells, Conserved, InFlight, Body, UsedStore, HeadRead, Described, AvailIdx;
    Lengths(s);
    Owners(s.mutex);
  }

  lemma BodyServed(m: Machine, v: Vring, r: Request)
    requires BlockRequests.Fits(m.ram, |m.disk|, v, m.usedIdx, r)
    ensures Body(m.ram, m.disk, r).Ok?
  {
    hide BlockRequests.Fits, Serve, Body, UsedWrite;
    ServedIff(m.ram, m.disk, v, m.usedIdx, r);
    ServeIsBody(m.ram, m.disk, v, m.usedIdx, r);
  }

  /** The move can be made in memory, if the request to be served fits. */
  lemma NearerInRam(m: Machine, v: Vring, event: bool, s: State)
    requires Inv(s) && Related(m, v, s) && |s.done| < s.popped <= |s.offered|
    requires Unserved(s) ==> BlockRequests.Fits(m.ram, |m.disk|, v, m.usedIdx, s.offered[|s.done|])
    ensures var a := P.Move(s);
            var n, t := MachineStep(m, v, event, TurnFor(a)), Step(s, a);
            n.Some? && t.Some? && Inv(t.value) && Related(n.value, v, t.value) && Nears(s, t.value)
  {
    hide Inv, CpuStep, WorkerStep, CpuMove, WorkerMove, InMemory, HeadNamed, Nears, BlockRequests.Fits, Body;
    Nearer(s);
    if P.Move(s) == CpuMoves {
      CpuRefines(m, v, event, s);
    } else {
      if m.worker.Busy? {
        WorkerHoldsNext(s);
        BodyServed(m, v, m.worker.req);
      }
      WorkerRefines(m, v, s);
    }
  }

  /** No request is stuck in RAM either: from every state of memory and threads with a
      request popped and not published, which fits if it is still to be served, the two
      threads can publish it within 18 turns, and then the used index in RAM says so. */
  lemma {:induction false} NeverStuckInRam(m: Machine, v: Vring, event: bool, s: State) returns (moves: seq<Move>)
    requires Inv(s) && Related(m, v, s) && |s.done| < s.popped <= |s.offered|
    requires Unserved(s) ==> BlockRequests.Fits(m.ram, |m.disk|, v, m.usedIdx, s.offered[|s.done|])
    ensures |moves| <= Distance(s) <= 18 && forall move :: move in moves ==> move == CpuTurn || move == WorkerTurn
    ensures MachineRun(m, v, event, moves).Some? && Run(s, Acts(moves)).Some?
    ensures var n, t := MachineRun(m, v, event, moves).value, Run(s, Acts(moves)).value;
            && Related(n, v, t) && t.done == s.done + [s.offered[|s.done|]]
            && ReadPhys(n.ram, Wrap(v.used + 2), 2) == Ok(Idx(|s.done| + 1))
    decreases Distance(s)
  {
    hide Inv, Step, MachineStep, InMemory, HeadNamed, BlockRequests.Fits, Unserved, ReadPhys, Idx, P.Move, TurnFor;
    NearerInRam(m, v, event, s);
    var a := P.Move(s);
    var move := TurnFor(a);
    TurnIs(s);
    var n, t := MachineStep(m, v, event, move).value, Step(s, a).value;
    var rest := [];
    if s.worker.Publish? {
      PublishesNext(s, t);
      IndexInRam(n, v, t);
    } else {
      QuietMove(m, v, event, s);
      rest := NeverStuckInRam(n, v, event, t);
    }
    moves := [move] + rest;
    assert moves[1..] == rest;
    RunOne(s, a);
    RunsJoin(s, [a], Acts(rest));
  }

  lemma TurnIs(s: State)
    ensures var move := TurnFor(P.Move(s)); ActsOf(move) == [P.Move(s)] && (move == CpuTurn || move == WorkerTurn)
  {
  }

  lemma IndexInRam(m: Machine, v: Vring, s: State)
    requires Inv(s) && Related(m, v, s)
    ensures ReadPhys(m.ram, Wrap(v.used + 2), 2) == Ok(Idx(|s.done|))
  {
    hide Inv, Tidy, ReadPhys, Idx;
    UsedOf(s);
    assert UsedView(m.ram, v, s.cells);
  }
}

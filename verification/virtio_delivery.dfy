/** What the disk's two threads deliver, over whole interleaved runs on guest RAM:
    a read's bytes reach the driver, a write's bytes reach the file, and the file is
    what serving the requests one after the other makes of it. */
module VirtioDelivery {
  import opened Wrappers
  import opened Words
  import opened Memory
  import opened AddressSpace
  import opened VirtioRing
  import opened BlockDevice
  import opened BlockRequests
  import opened P = VirtioProtocol
  import opened VirtioMemory

  // ------------------------------------------- what was read reaches the driver

  /** None of the stores meets a buffer. */
  predicate Misses(stores: seq<Iov>, bufs: seq<Iov>) {
    forall i :: 0 <= i < |bufs| ==> Clear(stores, bufs[i].base, bufs[i].len)
  }

  lemma {:induction false} SameGather(ram: Ram, ram': Ram, stores: seq<Iov>, bufs: seq<Iov>)
    requires SameOutsideBufs(ram, ram', stores) && Misses(stores, bufs)
    ensures Gather(ram', bufs) == Gather(ram, bufs)
  {
    hide SameOutsideBufs, ReadBlob, Clear;
    if bufs == [] {
    } else {
      ReadsSame(ram, ram', stores, bufs[0].base, bufs[0].len);
      assert Misses(stores, bufs[1..]) by {
        forall i | 0 <= i < |bufs[1..]| ensures Clear(stores, bufs[1..][i].base, bufs[1..][i].len) {
          assert bufs[1..][i] == bufs[i + 1];
        }
      }
      SameGather(ram, ram', stores, bufs[1..]);
    }
  }

  lemma UsedGather(ram: Ram, ram': Ram, v: Vring, bufs: seq<Iov>)
    requires SameOutside(ram, ram', v.used, 6 + 8 * v.num) && v.num < B16 && Clear(bufs, v.used, 6 + 8 * v.num)
    ensures Gather(ram', bufs) == Gather(ram, bufs)
  {
    var b := Iov(v.used, 6 + 8 * v.num, true);
    assert SameOutsideBufs(ram, ram', [b]) by {
      forall x ensures InBufs([b], x) <==> Covers(b.base, b.len, x) { InOneBuf(b, x); }
    }
    SameGather(ram, ram', [b], bufs);
  }

  /** The status byte is away from the data buffers, and these from each other. */
  predicate BuffersApart(req: Request) {
    |req.iov| >= 2 && Apart(DataBufs(req)) && Clear(DataBufs(req), req.iov[|req.iov| - 1].base, 1)
  }

  /** The worker's step on a read leaves the file's bytes in the buffers. */
  lemma BodyReads(ram: Ram, disk: Disk, req: Request, kind: u32, sector: u64)
    requires Asks(ram, req, kind, sector) && ReadKind(kind) && BuffersApart(req) && Body(ram, disk, req).Ok?
    ensures var (ram', disk') := Body(ram, disk, req).value;
            && disk' == disk && Gather(ram', DataBufs(req)).Ok?
            && Gather(ram', DataBufs(req)) == FileRead(disk, 512 * sector, Total(DataBufs(req)))
  {
    hide ReadBlob, WriteBlob, FileRead, WritePhys, Gather, FilePos, HeaderAt, Asks, Clear;
    AsksIff(ram, req, kind, sector);
    KindIs(HeaderAt(ram, req).value);
    FilePosIff(sector);
    var bufs, last := DataBufs(req), req.iov[|req.iov| - 1].base;
    var pos := FilePos(sector).value;
    var ram1 := Scatter(ram, disk, pos, bufs).value;
    ScatterGather(ram, disk, pos, bufs);
    var b := Iov(last, 1, true);
    StatusOnly(ram1, req);
    assert Misses([b], bufs) by { ClearBoth(bufs, last); }
    SameGather(ram1, Status(ram1, req).value, [b], bufs);
  }

  lemma ClearBoth(bufs: seq<Iov>, pa: u64)
    requires Clear(bufs, pa, 1)
    ensures Misses([Iov(pa, 1, true)], bufs)
  {
  }

  lemma StatusOnly(ram: Ram, req: Request)
    requires |req.iov| >= 2 && Status(ram, req).Ok?
    ensures SameOutsideBufs(ram, Status(ram, req).value, [Iov(req.iov[|req.iov| - 1].base, 1, true)])
  {
    hide ToBytes;
    var b := Iov(req.iov[|req.iov| - 1].base, 1, true);
    forall x ensures InBufs([b], x) <==> Covers(b.base, b.len, x) { InOneBuf(b, x); }
  }

  /** Nobody writes these buffers: the guest does not, and no request served
      meanwhile has them. */
  ghost predicate Leaves(m: Machine, v: Vring, event: bool, moves: seq<Move>, bufs: seq<Iov>)
    decreases moves
  {
    moves == [] ||
    (&& (moves[0].Drives? ==> Gather(moves[0].ram, bufs) == Gather(m.ram, bufs))
     && (moves[0].WorkerTurn? && m.worker.Busy? ==> Misses(Stores(m.worker.req), bufs))
     && var n := MachineStep(m, v, event, moves[0]);
        n.Some? ==> Leaves(n.value, v, event, moves[1..], bufs))
  }

  /** One turn changes no buffer that nobody writes. */
  lemma StepLeaves(m: Machine, v: Vring, event: bool, s: State, move: Move, bufs: seq<Iov>)
    requires Inv(s) && Related(m, v, s) && MachineStep(m, v, event, move).Some?
    requires Clear(bufs, v.used, 6 + 8 * v.num)
    requires move.Drives? ==> Gather(move.ram, bufs) == Gather(m.ram, bufs)
    requires move.WorkerTurn? && m.worker.Busy? ==> Misses(Stores(m.worker.req), bufs)
    ensures Gather(MachineStep(m, v, event, move).value.ram, bufs) == Gather(m.ram, bufs)
  {
    hide Inv, Rings, Tidy, Gather, Body, UsedStore, Clear, Misses, SameOutside, SameOutsideBufs, EventStored;
    RingsShape(m.ram, v, s.cells);
    assert v.num < B16 by { CountsOf(s); }
    if move.CpuTurn? && m.cpu.Head? {
      EventSpares(m.ram, v, s.cells, Next(m.lastAvail), event);
      UsedGather(m.ram, MachineStep(m, v, event, move).value.ram, v, bufs);
    } else if move.WorkerTurn? && m.worker.Busy? {
      BodyFrame(m.ram, m.disk, m.worker.req);
      SameGather(m.ram, MachineStep(m, v, event, move).value.ram, Stores(m.worker.req), bufs);
    } else if move.WorkerTurn? {
      WorkerRefines(m, v, s);
      UsedStoreView(m, v, s);
      UsedGather(m.ram, UsedStore(m, v).value, v, bufs);
    }
  }

  lemma {:induction false} RunLeaves(m: Machine, v: Vring, event: bool, s: State, moves: seq<Move>, bufs: seq<Iov>)
    requires Inv(s) && Related(m, v, s) && AllBehave(m, v, event, s, moves)
    requires MachineRun(m, v, event, moves).Some? && Leaves(m, v, event, moves, bufs)
    requires Clear(bufs, v.used, 6 + 8 * v.num)
    ensures Gather(MachineRun(m, v, event, moves).value.ram, bufs) == Gather(m.ram, bufs)
    decreases moves
  {
    hide Inv, Related, MachineStep, Behaves, ActsOf, Gather, Clear, Misses;
    if moves == [] {
    } else {
      StepRefines(m, v, event, s, moves[0]);
      StepLeaves(m, v, event, s, moves[0], bufs);
      var n, t := MachineStep(m, v, event, moves[0]).value, Run(s, ActsOf(moves[0])).value;
      RunLeaves(n, v, event, t, moves[1..], bufs);
    }
  }

  /** From the step that serves a read on, in every run that leaves its buffers
      alone, they hold the file's bytes, in order: so the driver finds them there
      when it takes back the used entry. */
  lemma ReadReachesDriver(m: Machine, v: Vring, event: bool, s: State, moves: seq<Move>, kind: u32, sector: u64)
    requires Inv(s) && Related(m, v, s) && m.worker.Busy? && WorkerMove(m, v).Some?
    requires Asks(m.ram, m.worker.req, kind, sector) && ReadKind(kind) && BuffersApart(m.worker.req)
    requires Clear(DataBufs(m.worker.req), v.used, 6 + 8 * v.num)
    requires Run(s, [WorkerMoves]).Some?
    requires AllBehave(WorkerMove(m, v).value, v, event, Run(s, [WorkerMoves]).value, moves)
    requires MachineRun(WorkerMove(m, v).value, v, event, moves).Some?
    requires Leaves(WorkerMove(m, v).value, v, event, moves, DataBufs(m.worker.req))
    ensures var bufs := DataBufs(m.worker.req);
            && Gather(MachineRun(WorkerMove(m, v).value, v, event, moves).value.ram, bufs)
               == FileRead(m.disk, 512 * sector, Total(bufs))
            && FileRead(m.disk, 512 * sector, Total(bufs)).Ok?
  {
    hide Inv, Related, Gather, FileRead, Asks, Apart, Clear, AllBehave, MachineRun, Leaves, Body, Misses;
    var n := WorkerMove(m, v).value;
    StepRefines(m, v, event, s, WorkerTurn);
    BodyReads(m.ram, m.disk, m.worker.req, kind, sector);
    RunLeaves(n, v, event, Run(s, [WorkerMoves]).value, moves, DataBufs(m.worker.req));
  }

  // ---------------------------------------------- what was written reaches the file

  /** The worker's step on a write puts the buffer's bytes in the file. */
  lemma BodyWrites(ram: Ram, disk: Disk, req: Request, kind: u32, sector: u64)
    requires Asks(ram, req, kind, sector) && WriteKind(kind) && Body(ram, disk, req).Ok?
    ensures |req.iov| == 3 && ReadBlob(ram, req.iov[1].base, req.iov[1].len).Ok?
    ensures var data := ReadBlob(ram, req.iov[1].base, req.iov[1].len).value;
            Body(ram, disk, req).value.1 == FileWrite(disk, 512 * sector, data)
  {
    hide ReadBlob, FileWrite, WritePhys, FilePos, HeaderAt, Asks;
    AsksIff(ram, req, kind, sector);
    KindIs(HeaderAt(ram, req).value);
    FilePosIff(sector);
  }

  lemma OneBuffer(ram: Ram, b: Iov)
    ensures Gather(ram, [b]) == ReadBlob(ram, b.base, b.len)
  {
    hide ReadBlob;
    assert [b][1..] == [] && Gather(ram, []) == Ok([]);
    var r := ReadBlob(ram, b.base, b.len);
    if r.Ok? { assert r.value + [] == r.value; }
  }

  lemma SameHeader(ram: Ram, ram': Ram, req: Request)
    requires |req.iov| > 0 && Gather(ram', [req.iov[0]]) == Gather(ram, [req.iov[0]])
    ensures HeaderAt(ram', req) == HeaderAt(ram, req)
  {
    hide ReadBlob, ParseHeader, Gather;
    OneBuffer(ram, req.iov[0]);
    OneBuffer(ram', req.iov[0]);
  }

  /** What the driver put in a write's header and buffer, and everyone leaves there
      until the write is served, is then in the file at that sector; no other byte of
      the file changes in that step. */
  lemma WriteReachesFile(m: Machine, v: Vring, event: bool, s: State, moves: seq<Move>, req: Request, kind: u32,
                         sector: u64)
    requires Inv(s) && Related(m, v, s) && AllBehave(m, v, event, s, moves) && MachineRun(m, v, event, moves).Some?
    requires Asks(m.ram, req, kind, sector) && WriteKind(kind) && |req.iov| == 3
    requires Clear(req.iov[..2], v.used, 6 + 8 * v.num)
    requires Leaves(m, v, event, moves, [req.iov[0]]) && Leaves(m, v, event, moves, [req.iov[1]])
    requires MachineRun(m, v, event, moves).value.worker == Busy(req)
    requires WorkerMove(MachineRun(m, v, event, moves).value, v).Some?
    ensures var before := MachineRun(m, v, event, moves).value.disk;
            var after := WorkerMove(MachineRun(m, v, event, moves).value, v).value.disk;
            var data := ReadBlob(m.ram, req.iov[1].base, req.iov[1].len);
            && data.Ok? && FileRead(after, 512 * sector, req.iov[1].len) == data && |after| >= |before|
            && forall k :: 0 <= k < |before| && !Covers(512 * sector, req.iov[1].len, k) ==>
                 after[k] == before[k]
  {
    hide Inv, Related, Gather, ReadBlob, FileRead, FileWrite, Body, AllBehave, MachineRun, Leaves, HeaderAt, Asks;
    var n := MachineRun(m, v, event, moves).value;
    ClearPart(req, v);
    RunLeaves(m, v, event, s, moves, [req.iov[0]]);
    RunLeaves(m, v, event, s, moves, [req.iov[1]]);
    SameHeader(m.ram, n.ram, req);
    AsksIff(m.ram, req, kind, sector);
    AsksIff(n.ram, req, kind, sector);
    OneBuffer(m.ram, req.iov[1]);
    OneBuffer(n.ram, req.iov[1]);
    BodyWrites(n.ram, n.disk, req, kind, sector);
    FileRoundTrip(n.disk, 512 * sector, ReadBlob(n.ram, req.iov[1].base, req.iov[1].len).value);
  }

  lemma ClearPart(req: Request, v: Vring)
    requires |req.iov| == 3 && Clear(req.iov[..2], v.used, 6 + 8 * v.num)
    ensures Clear([req.iov[0]], v.used, 6 + 8 * v.num) && Clear([req.iov[1]], v.used, 6 + 8 * v.num)
  {
    assert req.iov[..2][0] == req.iov[0] && req.iov[..2][1] == req.iov[1];
  }

  // ------------------------------------------- the file over interleaved runs

  /** The request a turn serves, in the memory of that moment. */
  function ServedBy(m: Machine, v: Vring, move: Move): seq<Event> {
    if move.WorkerTurn? && m.worker.Busy? then [Event(m.ram, v, m.usedIdx, m.worker.req)] else []
  }

  /** The requests a run serves, in order. */
  function ServedIn(m: Machine, v: Vring, event: bool, moves: seq<Move>): seq<Event>
    decreases moves
  {
    if moves == [] then []
    else
      ServedBy(m, v, moves[0]) + match MachineStep(m, v, event, moves[0])
                                 case None => []
                                 case Some(n) => ServedIn(n, v, event, moves[1..])
  }

  /** The worker's step on a request changes the file as serving it does. */
  lemma BusyServes(m: Machine, v: Vring, s: State)
    requires Inv(s) && Related(m, v, s) && m.worker.Busy? && WorkerMove(m, v).Some?
    ensures var served := Serve(m.ram, m.disk, v, m.usedIdx, m.worker.req);
            served.Ok? && served.value.disk == WorkerMove(m, v).value.disk
  {
    hide Inv, Tidy, Rings, Serve, Body, UsedWrite;
    ServeIsBody(m.ram, m.disk, v, m.usedIdx, m.worker.req);
    WorkerRefines(m, v, s);
    var n := WorkerMove(m, v).value;
    UsedWriteView(n.ram, v, WorkerStep(s).value.cells, m.usedIdx, m.worker.req);
  }

  lemma FileKept(m: Machine, v: Vring, event: bool, move: Move)
    requires MachineStep(m, v, event, move).Some? && ServedBy(m, v, move) == []
    ensures MachineStep(m, v, event, move).value.disk == m.disk
  {
    hide Body, UsedStore, HeadRead, Described, AvailIdx;
  }

  /** After every interleaved run the file is what serving its requests one after the
      other makes of it. */
  lemma {:induction false} FileIsServed(m: Machine, v: Vring, event: bool, s: State, moves: seq<Move>)
    requires Inv(s) && Related(m, v, s) && AllBehave(m, v, event, s, moves) && MachineRun(m, v, event, moves).Some?
    ensures DiskAfter(m.disk, ServedIn(m, v, event, moves)) == Ok(MachineRun(m, v, event, moves).value.disk)
    decreases moves
  {
    hide Inv, Related, MachineStep, Behaves, ActsOf, Serve, WorkerMove;
    if moves == [] {
    } else {
      StepRefines(m, v, event, s, moves[0]);
      var n, t := MachineStep(m, v, event, moves[0]).value, Run(s, ActsOf(moves[0])).value;
      FileIsServed(n, v, event, t, moves[1..]);
      var rest := ServedIn(n, v, event, moves[1..]);
      if ServedBy(m, v, moves[0]) == [] {
        FileKept(m, v, event, moves[0]);
        assert [] + rest == rest;
      } else {
        WorkerTurnIs(m, v, event);
        BusyServes(m, v, s);
        assert (ServedBy(m, v, moves[0]) + rest)[1..] == rest;
      }
    }
  }

  lemma WorkerTurnIs(m: Machine, v: Vring, event: bool)
    ensures MachineStep(m, v, event, WorkerTurn) == WorkerMove(m, v)
  {
  }

  function Requests(events: seq<Event>): seq<Request> {
    if events == [] then [] else [events[0].req] + Requests(events[1..])
  }

  /** How many of the offered requests have been served. */
  function Begun(s: State): nat {
    |s.done| + match s.worker
               case WriteId(_) => 1
               case WriteLen(_) => 1
               case Advance(_) => 1
               case Publish(_) => 1
               case _ => 0
  }

  /** A turn serves the next offered request, or none. */
  lemma StepServes(m: Machine, v: Vring, event: bool, s: State, move: Move)
    requires Inv(s) && Related(m, v, s) && Behaves(v, s, move) && MachineStep(m, v, event, move).Some?
    requires Run(s, ActsOf(move)).Some?
    ensures var t := Run(s, ActsOf(move)).value;
            && Begun(s) <= |s.offered| && s.offered <= t.offered
            && Begun(t) == Begun(s) + |ServedBy(m, v, move)| && |ServedBy(m, v, move)| <= 1
            && (ServedBy(m, v, move) != [] ==>
                  Begun(s) < |s.offered| && Requests(ServedBy(m, v, move)) == [s.offered[Begun(s)]])
  {
    hide InMemory, HeadNamed, MachineStep, CpuStep, WorkerStep, Inv, MayOffer, MayReap;
    BegunOffered(s);
    var acts := ActsOf(move);
    if acts != [] { RunOne(s, acts[0]); }
    match move {
      case Drives(does, _) => if does.Some? { DriverBegins(s, does.value); }
      case CpuTurn => CpuBegins(s);
      case WorkerTurn =>
        WorkerBegins(s);
        if m.worker.Busy? { assert ServedBy(m, v, move)[1..] == []; }
      case Wakes =>
    }
  }

  lemma BegunOffered(s: State)
    requires Inv(s)
    ensures Begun(s) <= |s.offered|
  {
    Lengths(s);
  }

  lemma DriverBegins(s: State, a: Action)
    requires Step(s, a).Some? && (a.Offer? || a.Reap? || a.Notify?)
    ensures Begun(Step(s, a).value) == Begun(s) && s.offered <= Step(s, a).value.offered
  {
    hide MayOffer, MayReap, Idx, Cell, Next;
  }

  lemma CpuBegins(s: State)
    requires CpuStep(s).Some?
    ensures Begun(CpuStep(s).value) == Begun(s) && CpuStep(s).value.offered == s.offered
  {
    hide Idx, Cell, Next;
  }

  lemma WorkerBegins(s: State)
    requires Inv(s) && WorkerStep(s).Some?
    ensures var t := WorkerStep(s).value;
            && t.offered == s.offered && Begun(t) == Begun(s) + (if s.worker.Busy? then 1 else 0)
            && (s.worker.Busy? ==> Begun(s) < |s.offered| && s.offered[Begun(s)] == s.worker.req)
  {
    hide Inv, Idx, Cell, Next;
    if s.worker.Busy? { WorkerHoldsNext(s); }
  }

  /** Every interleaved run serves the offered requests in the driver's order, each
      once. */
  lemma {:induction false} ServedInOrder(m: Machine, v: Vring, event: bool, s: State, moves: seq<Move>)
    requires Inv(s) && Related(m, v, s) && AllBehave(m, v, event, s, moves) && MachineRun(m, v, event, moves).Some?
    ensures Run(s, Acts(moves)).Some?
    ensures var t := Run(s, Acts(moves)).value;
            && s.offered <= t.offered && Begun(s) <= Begun(t) <= |t.offered|
            && Requests(ServedIn(m, v, event, moves)) == t.offered[Begun(s)..Begun(t)]
    decreases moves
  {
    hide Inv, Related, MachineStep, Behaves, ActsOf, Begun, ServedBy;
    if moves == [] {
      BegunOffered(s);
    } else {
      StepRefines(m, v, event, s, moves[0]);
      StepServes(m, v, event, s, moves[0]);
      var n, u := MachineStep(m, v, event, moves[0]).value, Run(s, ActsOf(moves[0])).value;
      ServedInOrder(n, v, event, u, moves[1..]);
      RunsJoin(s, ActsOf(moves[0]), Acts(moves[1..]));
      var now, rest := ServedBy(m, v, moves[0]), ServedIn(n, v, event, moves[1..]);
      RequestsJoin(now, rest);
      SlicesJoin(s.offered, u.offered, Run(s, Acts(moves)).value.offered, Begun(s), Begun(u),
                 Begun(Run(s, Acts(moves)).value), Requests(now), Requests(rest));
    }
  }

  lemma SlicesJoin(before: seq<Request>, mid: seq<Request>, end: seq<Request>, i: nat, j: nat, k: nat,
                   now: seq<Request>, rest: seq<Request>)
    requires i <= |before| && before <= mid <= end && j == i + |now| && j <= k <= |end| && rest == end[j..k]
    requires |now| <= 1 && (now != [] ==> i < |before| && now == [before[i]])
    ensures before <= end && i <= k && now + rest == end[i..k]
  {
    if now == [] {
      assert now + rest == rest;
    } else {
      assert end[i] == before[i] && end[i..k] == [end[i]] + end[j..k];
    }
  }

  lemma {:induction false} RequestsJoin(a: seq<Event>, b: seq<Event>)
    ensures Requests(a + b) == Requests(a) + Requests(b)
    ensures |Requests(a)| == |a|
  {
    if a == [] {
      assert a + b == b;
    } else {
      assert (a + b)[1..] == a[1..] + b;
      RequestsJoin(a[1..], b);
    }
  }

  lemma {:induction false} ServedRing(m: Machine, v: Vring, event: bool, moves: seq<Move>)
    ensures forall e :: e in ServedIn(m, v, event, moves) ==> e.v == v
    decreases moves
  {
    hide MachineStep;
    if moves == [] {
    } else {
      var n := MachineStep(m, v, event, moves[0]);
      if n.Some? { ServedRing(n.value, v, event, moves[1..]); }
    }
  }

  /** Over every interleaved run of the two threads and the driver: a read of n bytes at
      a sector leaves in its buffers, however scattered, the bytes of the last write of
      n bytes served there, when all served in between spare them. */
  lemma InterleavedReadGetsLastWrite(m: Machine, v: Vring, event: bool, s: State, moves: seq<Move>,
                                     first: seq<Event>, w: Event, between: seq<Event>, wkind: u32, rkind: u32,
                                     sector: u64)
    requires Inv(s) && Related(m, v, s) && AllBehave(m, v, event, s, moves) && MachineRun(m, v, event, moves).Some?
    requires ServedIn(m, v, event, moves) == first + [w] + between
    requires Asks(w.ram, w.req, wkind, sector) && WriteKind(wkind) && |w.req.iov| == 3 && ReadKind(rkind)
    requires forall i :: 0 <= i < |between| ==> Spares(between[i], 512 * sector, w.req.iov[1].len)
    requires var n := MachineRun(m, v, event, moves).value;
             && n.worker.Busy? && WorkerMove(n, v).Some? && Asks(n.ram, n.worker.req, rkind, sector)
             && BuffersApart(n.worker.req) && Total(DataBufs(n.worker.req)) == w.req.iov[1].len
    ensures var n := MachineRun(m, v, event, moves).value;
            Gather(WorkerMove(n, v).value.ram, DataBufs(n.worker.req))
            == ReadBlob(w.ram, w.req.iov[1].base, w.req.iov[1].len)
  {
    hide Inv, Rings, Tidy, HeadNamed, AllBehave, MachineRun, ServedIn, Serve, Body, Gather, ReadBlob, FileRead;
    hide BlockRequests.Fits, Asks, Spares, DiskAfter;
    var n := MachineRun(m, v, event, moves).value;
    var pos, size := 512 * sector, w.req.iov[1].len;
    FileIsServed(m, v, event, s, moves);
    ServedRing(m, v, event, moves);
    assert w in first + [w] + between;
    RingsShape(m.ram, v, s.cells);
    assert first + [w] + between == first + ([w] + between);
    RunJoins(m.disk, first, [w] + between);
    var disk0 := DiskAfter(m.disk, first).value;
    AfterOne(disk0, w, between);
    var disk1 := Serve(w.ram, disk0, w.v, w.usedIdx, w.req).value.disk;
    WriteStores(w.ram, disk0, w.v, w.usedIdx, w.req, wkind, sector);
    if size > 0 {
      InFile(disk1, pos, size);
      RunSpares(disk1, between, pos, size);
    } else {
      NoBytes(disk1, n.disk, pos);
    }
    BodyReads(n.ram, n.disk, n.worker.req, rkind, sector);
  }

  lemma AfterOne(disk: Disk, e: Event, rest: seq<Event>)
    requires DiskAfter(disk, [e] + rest).Ok?
    ensures Serve(e.ram, disk, e.v, e.usedIdx, e.req).Ok?
    ensures DiskAfter(disk, [e] + rest) == DiskAfter(Serve(e.ram, disk, e.v, e.usedIdx, e.req).value.disk, rest)
  {
    hide Serve;
    assert ([e] + rest)[1..] == rest;
  }
}

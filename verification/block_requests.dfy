/** When the block device serves a request, what it then leaves in guest memory
    and in the file, and what whole runs of requests do (virtio_blk.c). */
module BlockRequests {
  import opened Wrappers
  import opened Words
  import opened Memory
  import opened AddressSpace
  import opened VirtioRing
  import opened BlockDevice

  // -------------------------------------------------- when a request is served

  const SECTORS := 0x40_0000_0000_0000   // the byte offset fits a signed 64-bit word

  /** The sectors fseek can reach. */
  lemma FilePosIff(sector: u64)
    ensures FilePos(sector).Ok? <==> sector < SECTORS
    ensures FilePos(sector).Ok? ==> FilePos(sector).value == 512 * sector
  {
  }

  /** A buffer the device can copy: its address is a multiple of eight and it lies
      in RAM, if it has any bytes. */
  predicate Reachable(ram: Ram, b: Iov) {
    b.base % 8 == 0 && (b.len == 0 || InRam(ram, b.base, b.len))
  }

  predicate AllReachable(ram: Ram, bufs: seq<Iov>) {
    forall i :: 0 <= i < |bufs| ==> Reachable(ram, bufs[i])
  }

  /** Data is scattered exactly when every buffer can be reached and the file holds
      as many bytes from there on. */
  lemma {:induction false} ScatterOkIff(ram: Ram, disk: Disk, pos: nat, bufs: seq<Iov>)
    ensures Scatter(ram, disk, pos, bufs).Ok?
       <==> AllReachable(ram, bufs) && (Total(bufs) == 0 || pos + Total(bufs) <= |disk|)
    decreases bufs
  {
    if bufs == [] {
    } else {
      var b, rest := bufs[0], bufs[1..];
      FirstReachable(ram, bufs);
      if Reachable(ram, b) && FileRead(disk, pos, b.len).Ok? {
        var ram' := WriteBlob(ram, b.base, FileRead(disk, pos, b.len).value).value;
        BlobRoundTrip(ram, b.base, FileRead(disk, pos, b.len).value);
        ScatterOkIff(ram', disk, pos + b.len, rest);
        SameSizeReaches(ram, ram', rest);
      }
    }
  }

  lemma FirstReachable(ram: Ram, bufs: seq<Iov>)
    requires bufs != []
    ensures AllReachable(ram, bufs) <==> Reachable(ram, bufs[0]) && AllReachable(ram, bufs[1..])
  {
    hide Reachable;
    if Reachable(ram, bufs[0]) && AllReachable(ram, bufs[1..]) {
      forall i | 0 <= i < |bufs| ensures Reachable(ram, bufs[i]) { if i > 0 { assert bufs[i] == bufs[1..][i - 1]; } }
    }
  }

  lemma SameSizeReaches(ram: Ram, ram': Ram, bufs: seq<Iov>)
    requires |ram'| == |ram|
    ensures AllReachable(ram', bufs) <==> AllReachable(ram, bufs)
  {
    assert forall b: Iov :: Reachable(ram', b) <==> Reachable(ram, b);
  }

  /** The request's status byte and the used-ring cells of its completion lie in RAM. */
  predicate Completes(ram: Ram, v: Vring, usedIdx: u16, req: Request)
    requires |req.iov| > 0
  {
    && InRam(ram, req.iov[|req.iov| - 1].base, 1) && v.num > 0
    && var pa := Wrap(v.used + 4 + 8 * (usedIdx % v.num));
       InRam(ram, pa, 4) && InRam(ram, Wrap(pa + 4), 4) && InRam(ram, Wrap(v.used + 2), 2)
  }

  lemma CompleteOkIff(ram: Ram, v: Vring, usedIdx: u16, req: Request)
    requires |req.iov| > 0
    ensures Complete(ram, v, usedIdx, req).Ok? <==> Completes(ram, v, usedIdx, req)
  {
    hide Splice, ToBytes, Wrap;
  }

  /** A ring that lies in RAM can take every completion. */
  lemma PlacedCompletes(ram: Ram, v: Vring, usedIdx: u16, req: Request)
    requires Placed(ram, v) && |req.iov| > 0
    ensures Completes(ram, v, usedIdx, req) <==> InRam(ram, req.iov[|req.iov| - 1].base, 1)
  {
    assert usedIdx % v.num < v.num;
  }

  // The request types (virtio_blk.c:42-62), with and without the barrier bit; a flush
  // may have the OUT bit too.
  predicate ReadKind(kind: u32) { kind == 0 || kind == 0x8000_0000 }
  predicate WriteKind(kind: u32) { kind == 1 || kind == 0x8000_0001 }
  predicate FlushKind(kind: u32) { kind == 4 || kind == 5 || kind == 0x8000_0004 || kind == 0x8000_0005 }

  lemma KindIs(h: Header)
    ensures ReadKind(h.kind) <==> h.Plain() == 0 && !h.Out()
    ensures WriteKind(h.kind) <==> h.Plain() == 0 && h.Out()
    ensures FlushKind(h.kind) <==> h.Plain() == 4
  {
    var low := h.kind % 0x8000_0000;
    assert h.kind == low || h.kind == low + 0x8000_0000;
    assert low / 2 * 2 + low % 2 == low && h.kind % 2 == low % 2;
  }

  /** A request header in memory: type, priority and sector, little-endian. */
  function HeaderBytes(kind: u32, ioprio: u32, sector: u64): (b: seq<u8>)
    ensures |b| == 16
  {
    ToBytes(kind, 4) + ToBytes(ioprio, 4) + ToBytes(sector, 8)
  }

  /** The first buffer is one of 16 bytes for the device to read, and holds a header of
      this type and sector. */
  ghost predicate Asks(ram: Ram, req: Request, kind: u32, sector: u64) {
    && |req.iov| > 0 && req.iov[0].len == 16 && !req.iov[0].write
    && exists ioprio: u32 :: ReadBlob(ram, req.iov[0].base, 16) == Ok(HeaderBytes(kind, ioprio, sector))
  }

  lemma ParsesBack(kind: u32, ioprio: u32, sector: u64)
    ensures ParseHeader(HeaderBytes(kind, ioprio, sector)) == Header(kind, ioprio, sector)
  {
    hide FromBytes, ToBytes;
    var b := HeaderBytes(kind, ioprio, sector);
    assert b[..4] == ToBytes(kind, 4) && b[4..8] == ToBytes(ioprio, 4) && b[8..] == ToBytes(sector, 8);
    Pow256Small(4);
    Pow256Small(8);
    FromToBytes(kind, 4);
    FromToBytes(ioprio, 4);
    FromToBytes(sector, 8);
  }

  lemma BytesBack(b: seq<u8>)
    requires |b| == 16
    ensures var h := ParseHeader(b); b == HeaderBytes(h.kind, h.ioprio, h.sector)
  {
    hide FromBytes, ToBytes;
    ToFromBytes(b[..4]);
    ToFromBytes(b[4..8]);
    ToFromBytes(b[8..]);
    assert b == b[..4] + b[4..8] + b[8..];
  }

  /** The device finds just the header that lies there. */
  lemma AsksIff(ram: Ram, req: Request, kind: u32, sector: u64)
    ensures Asks(ram, req, kind, sector)
       <==> HeaderAt(ram, req).Ok? && HeaderAt(ram, req).value.kind == kind && HeaderAt(ram, req).value.sector == sector
  {
    hide ParseHeader, HeaderBytes, ReadBlob;
    if |req.iov| > 0 && req.iov[0].len == 16 && !req.iov[0].write && ReadBlob(ram, req.iov[0].base, 16).Ok? {
      var b := ReadBlob(ram, req.iov[0].base, 16).value;
      BytesBack(b);
      var h := ParseHeader(b);
      forall ioprio: u32 | b == HeaderBytes(kind, ioprio, sector) ensures h == Header(kind, ioprio, sector) {
        ParsesBack(kind, ioprio, sector);
      }
    }
  }

  /** The first buffer is a header the device can read. */
  predicate HasHeader(ram: Ram, req: Request) {
    |req.iov| > 0 && req.iov[0].len == HEADER_SIZE && !req.iov[0].write && Reachable(ram, req.iov[0])
  }

  /** What a caller has to provide for the request its header asks for, with a file
      of `size` bytes. */
  predicate Fits(ram: Ram, size: nat, v: Vring, usedIdx: u16, req: Request) {
    && HasHeader(ram, req) && HeaderAt(ram, req).Ok? && Completes(ram, v, usedIdx, req)
    && var h := HeaderAt(ram, req).value;
       if FlushKind(h.kind) then |req.iov| == 2
       else if WriteKind(h.kind) then h.sector < SECTORS && |req.iov| == 3 && Reachable(ram, req.iov[1])
       else
         && ReadKind(h.kind) && h.sector < SECTORS && |req.iov| >= 3 && AllReachable(ram, DataBufs(req))
         && (Total(DataBufs(req)) == 0 || 512 * h.sector + Total(DataBufs(req)) <= size)
  }

  lemma HeaderOkIff(ram: Ram, req: Request)
    ensures HeaderAt(ram, req).Ok? <==> HasHeader(ram, req)
  {
    hide ParseHeader;
  }

  /** A request is served exactly when it fits. */
  lemma ServedIff(ram: Ram, disk: Disk, v: Vring, usedIdx: u16, req: Request)
    ensures Serve(ram, disk, v, usedIdx, req).Ok? <==> Fits(ram, |disk|, v, usedIdx, req)
  {
    hide Scatter, Complete, Completes, HeaderAt, HasHeader, FilePos, AllReachable, FileWrite;
    HeaderOkIff(ram, req);
    if HeaderAt(ram, req).Ok? {
      assert HasHeader(ram, req) && |req.iov| > 0 by { HeaderHasBuffer(ram, req); }
      var h := HeaderAt(ram, req).value;
      KindIs(h);
      FilePosIff(h.sector);
      CompleteOkIff(ram, v, usedIdx, req);
      if h.Plain() == 0 && !h.Out() && |req.iov| >= 3 && FilePos(h.sector).Ok? {
        ReadServed(ram, disk, v, usedIdx, req, FilePos(h.sector).value);
      }
    }
  }

  lemma HeaderHasBuffer(ram: Ram, req: Request)
    ensures HeaderAt(ram, req).Ok? || HasHeader(ram, req) ==> |req.iov| > 0
  {
  }

  lemma ReadServed(ram: Ram, disk: Disk, v: Vring, usedIdx: u16, req: Request, pos: nat)
    requires |req.iov| >= 3
    ensures var s := Scatter(ram, disk, pos, DataBufs(req));
            (s.Ok? && Complete(s.value, v, usedIdx, req).Ok?)
            <==> && Completes(ram, v, usedIdx, req) && AllReachable(ram, DataBufs(req))
                 && (Total(DataBufs(req)) == 0 || pos + Total(DataBufs(req)) <= |disk|)
  {
    hide Scatter, Complete, Reachable, Wrap;
    var bufs := DataBufs(req);
    ScatterOkIff(ram, disk, pos, bufs);
    if Scatter(ram, disk, pos, bufs).Ok? {
      ScatterFrame(ram, disk, pos, bufs);
      CompleteOkIff(Scatter(ram, disk, pos, bufs).value, v, usedIdx, req);
    }
  }

  // ------------------------------------------------- what a served request does

  /** The request's data buffers are disjoint, and clear of its status byte and
      of the used ring. */
  predicate Separate(v: Vring, req: Request)
    requires |req.iov| >= 2
  {
    && Apart(DataBufs(req)) && v.used + 4 + 8 * v.num <= B64
    && Clear(DataBufs(req), req.iov[|req.iov| - 1].base, 1) && Clear(DataBufs(req), v.used, 4 + 8 * v.num)
  }

  /** What completion and the data buffers may touch. */
  predicate Touched(v: Vring, req: Request, bufs: seq<Iov>, a: int)
    requires |req.iov| > 0
  {
    InBufs(bufs, a) || a == req.iov[|req.iov| - 1].base || InUsed(v, a)
  }

  predicate SameUntouched(ram: Ram, ram': Ram, v: Vring, req: Request, bufs: seq<Iov>)
    requires |req.iov| > 0
  {
    && |ram'| == |ram|
    && forall k :: 0 <= k < |ram| && !Touched(v, req, bufs, RAM_START + k) ==> ram'[k] == ram[k]
  }

  /** Completion stores 0, for success, in the status byte. */
  lemma StatusIsOk(ram: Ram, v: Vring, usedIdx: u16, req: Request)
    requires |req.iov| > 0 && Complete(ram, v, usedIdx, req).Ok? && v.used + 4 + 8 * v.num <= B64
    requires !InUsed(v, StatusAt(req))
    ensures ReadPhys(Complete(ram, v, usedIdx, req).value.0, StatusAt(req), 1) == Ok(0)
  {
    hide WritePhys, UsedWrite, FromBytes;
    var ram1 := WritePhys(ram, StatusAt(req), 1, 0).value;
    assert Pow256(1) == 256;
    ReadAfterWrite(ram, StatusAt(req), 1, 0, StatusAt(req), 1);
    UsedWriteFrame(ram1, v, usedIdx, req);
    BlobSkips(ram1, UsedWrite(ram1, v, usedIdx, req).value.0, v.used, 4 + 8 * v.num, StatusAt(req), 1);
  }

  /** The status byte: the last buffer. */
  function StatusAt(req: Request): u64
    requires |req.iov| > 0
  {
    req.iov[|req.iov| - 1].base
  }

  lemma {:induction false} GatherAfter(ram: Ram, ram': Ram, v: Vring, req: Request, bufs: seq<Iov>)
    requires |req.iov| > 0 && SameUntouched(ram, ram', v, req, []) && v.used + 4 + 8 * v.num <= B64
    requires Clear(bufs, req.iov[|req.iov| - 1].base, 1) && Clear(bufs, v.used, 4 + 8 * v.num)
    ensures Gather(ram', bufs) == Gather(ram, bufs)
  {
    if bufs == [] {
    } else {
      var b := bufs[0];
      assert Disjoint(b.base, b.len, req.iov[|req.iov| - 1].base, 1) && Disjoint(b.base, b.len, v.used, 4 + 8 * v.num);
      if InRam(ram, b.base, b.len) { assert Slice(ram', b.base, b.len) == Slice(ram, b.base, b.len); }
      GatherAfter(ram, ram', v, req, bufs[1..]);
    }
  }

  /** The file's size after n bytes are written at pos. */
  function Grown(size: nat, pos: nat, n: nat): nat {
    if n > 0 && pos + n > size then pos + n else size
  }

  /** A read is served exactly when it fits, and then leaves in its data buffers, in
      order, the file's bytes from its sector on, however they are scattered; it
      changes neither the file nor any guest byte outside the buffers, the status
      byte and the used ring. */
  lemma ReadDelivers(ram: Ram, disk: Disk, v: Vring, usedIdx: u16, req: Request, kind: u32, sector: u64)
    requires Asks(ram, req, kind, sector) && (kind == 0 || kind == 0x8000_0000)
    ensures Serve(ram, disk, v, usedIdx, req).Ok? <==> Fits(ram, |disk|, v, usedIdx, req)
    ensures Fits(ram, |disk|, v, usedIdx, req) && |req.iov| >= 2 && Separate(v, req) ==>
              var s := Serve(ram, disk, v, usedIdx, req).value;
              && Gather(s.ram, DataBufs(req)) == FileRead(disk, 512 * sector, Total(DataBufs(req)))
              && Gather(s.ram, DataBufs(req)).Ok?
              && s.disk == disk && s.usedIdx == (usedIdx + 1) % B16
              && SameUntouched(ram, s.ram, v, req, DataBufs(req))
              && (!InUsed(v, StatusAt(req)) ==> ReadPhys(s.ram, StatusAt(req), 1) == Ok(0))
  {
    hide ReadBlob, WriteBlob, FileRead, ReadPhys, WritePhys, Gather, UsedWrite, Fits, FilePos, Asks, HeaderAt;
    ServedIff(ram, disk, v, usedIdx, req);
    AsksIff(ram, req, kind, sector);
    KindIs(HeaderAt(ram, req).value);
    FilePosIff(sector);
    if Serve(ram, disk, v, usedIdx, req).Ok? && |req.iov| >= 2 && Separate(v, req) {
      var pos, bufs := FilePos(sector).value, DataBufs(req);
      var ram1 := Scatter(ram, disk, pos, bufs).value;
      ScatterGather(ram, disk, pos, bufs);
      ScatterFrame(ram, disk, pos, bufs);
      CompleteFrame(ram1, v, usedIdx, req);
      GatherAfter(ram1, Complete(ram1, v, usedIdx, req).value.0, v, req, bufs);
      if !InUsed(v, StatusAt(req)) { StatusIsOk(ram1, v, usedIdx, req); }
    }
  }

  /** A write is served exactly when it fits, and then puts its buffer's bytes in the
      file at its sector and changes no other file byte; in guest memory it touches
      only the status byte and the used ring. */
  lemma WriteStores(ram: Ram, disk: Disk, v: Vring, usedIdx: u16, req: Request, kind: u32, sector: u64)
    requires Asks(ram, req, kind, sector) && (kind == 1 || kind == 0x8000_0001)
    ensures Serve(ram, disk, v, usedIdx, req).Ok? <==> Fits(ram, |disk|, v, usedIdx, req)
    ensures Fits(ram, |disk|, v, usedIdx, req) && v.used + 4 + 8 * v.num <= B64 ==>
              var s := Serve(ram, disk, v, usedIdx, req).value;
              var pos := 512 * sector;
              && |req.iov| == 3 && s.usedIdx == (usedIdx + 1) % B16
              && var data := ReadBlob(ram, req.iov[1].base, req.iov[1].len);
                 data.Ok? && |data.value| == req.iov[1].len
                 && FileRead(s.disk, pos, |data.value|) == data
                 && |s.disk| == Grown(|disk|, pos, |data.value|)
                 && (forall k :: 0 <= k < |disk| && !Covers(pos, |data.value|, k) ==> s.disk[k] == disk[k])
                 && SameUntouched(ram, s.ram, v, req, [])
                 && (!InUsed(v, StatusAt(req)) ==> ReadPhys(s.ram, StatusAt(req), 1) == Ok(0))
  {
    hide ReadPhys, WritePhys, UsedWrite, Fits, FilePos, Asks, HeaderAt;
    ServedIff(ram, disk, v, usedIdx, req);
    AsksIff(ram, req, kind, sector);
    KindIs(HeaderAt(ram, req).value);
    FilePosIff(sector);
    if Serve(ram, disk, v, usedIdx, req).Ok? && v.used + 4 + 8 * v.num <= B64 {
      var data := ReadBlob(ram, req.iov[1].base, req.iov[1].len);
      FileRoundTrip(disk, FilePos(sector).value, data.value);
      CompleteFrame(ram, v, usedIdx, req);
      if !InUsed(v, StatusAt(req)) { StatusIsOk(ram, v, usedIdx, req); }
    }
  }

  /** A flush is served exactly when it fits; it changes neither the file nor any
      guest byte but the status byte and the used ring. */
  lemma FlushCompletes(ram: Ram, disk: Disk, v: Vring, usedIdx: u16, req: Request, kind: u32, sector: u64)
    requires Asks(ram, req, kind, sector) && (kind == 4 || kind == 5 || kind == 0x8000_0004 || kind == 0x8000_0005)
    ensures Serve(ram, disk, v, usedIdx, req).Ok? <==> Fits(ram, |disk|, v, usedIdx, req)
    ensures Fits(ram, |disk|, v, usedIdx, req) && v.used + 4 + 8 * v.num <= B64 ==>
              var s := Serve(ram, disk, v, usedIdx, req).value;
              && |req.iov| == 2 && s.disk == disk && s.usedIdx == (usedIdx + 1) % B16
              && SameUntouched(ram, s.ram, v, req, [])
              && (!InUsed(v, StatusAt(req)) ==> ReadPhys(s.ram, StatusAt(req), 1) == Ok(0))
  {
    hide ReadPhys, WritePhys, UsedWrite, Fits, Asks, HeaderAt;
    ServedIff(ram, disk, v, usedIdx, req);
    AsksIff(ram, req, kind, sector);
    KindIs(HeaderAt(ram, req).value);
    if Serve(ram, disk, v, usedIdx, req).Ok? && v.used + 4 + 8 * v.num <= B64 {
      CompleteFrame(ram, v, usedIdx, req);
      if !InUsed(v, StatusAt(req)) { StatusIsOk(ram, v, usedIdx, req); }
    }
  }

  // ------------------------------------------------------- runs of the device

  /** One request served, in whatever memory the guest has by then. */
  datatype Event = Event(ram: Ram, v: Vring, usedIdx: u16, req: Request)

  /** The file after a run of requests. */
  function DiskAfter(disk: Disk, events: seq<Event>): Outcome<Disk>
    decreases events
  {
    if events == [] then Ok(disk)
    else
      var e := events[0];
      var s :- Serve(e.ram, disk, e.v, e.usedIdx, e.req);
      DiskAfter(s.disk, events[1..])
  }

  /** The file's size after the request, which only a write can change. */
  function SizeAfter(size: nat, e: Event): nat {
    var h := HeaderAt(e.ram, e.req);
    if h.Ok? && WriteKind(h.value.kind) && |e.req.iov| == 3
    then Grown(size, 512 * h.value.sector, e.req.iov[1].len)
    else size
  }

  predicate FitsIn(size: nat, e: Event) { Fits(e.ram, size, e.v, e.usedIdx, e.req) }

  /** Each request fits the file as the earlier ones have left its size. */
  predicate AllFit(size: nat, events: seq<Event>)
    decreases events
  {
    events == [] || (FitsIn(size, events[0]) && AllFit(SizeAfter(size, events[0]), events[1..]))
  }

  lemma ServedSize(disk: Disk, e: Event)
    requires Serve(e.ram, disk, e.v, e.usedIdx, e.req).Ok?
    ensures |Serve(e.ram, disk, e.v, e.usedIdx, e.req).value.disk| == SizeAfter(|disk|, e)
  {
    hide ReadPhys, WritePhys, UsedWrite, FileRead, Scatter, Complete, FilePos, ReadBlob;
    var h := HeaderAt(e.ram, e.req).value;
    KindIs(h);
    FilePosIff(h.sector);
  }

  /** A whole run is served exactly when every request fits in its turn. */
  lemma {:induction false} RunServedIff(disk: Disk, events: seq<Event>)
    ensures DiskAfter(disk, events).Ok? <==> AllFit(|disk|, events)
    ensures DiskAfter(disk, events).Ok? ==> |DiskAfter(disk, events).value| >= |disk|
    decreases events
  {
    hide Serve, Fits, SizeAfter;
    if events == [] {
    } else {
      var e := events[0];
      ServedIff(e.ram, disk, e.v, e.usedIdx, e.req);
      if FitsIn(|disk|, e) {
        var disk1 := Serve(e.ram, disk, e.v, e.usedIdx, e.req).value.disk;
        ServedSize(disk, e);
        NeverShrinks(|disk|, e);
        RunServedIff(disk1, events[1..]);
      }
    }
  }

  lemma NeverShrinks(size: nat, e: Event)
    ensures SizeAfter(size, e) >= size
  {
  }

  /** It is enough that each request fits the file as it was at the start. */
  lemma {:induction false} EachFits(size: nat, size': nat, events: seq<Event>)
    requires size <= size' && forall i :: 0 <= i < |events| ==> FitsIn(size, events[i])
    ensures AllFit(size', events)
    decreases events
  {
    hide SizeAfter, HeaderAt, HasHeader, Completes, AllReachable;
    if events == [] {
    } else {
      NeverShrinks(size', events[0]);
      assert FitsIn(size, events[0]);
      EachFits(size, SizeAfter(size', events[0]), events[1..]);
    }
  }

  /** The request does not write file bytes pos..pos+n. */
  predicate Spares(e: Event, pos: nat, n: nat) {
    var h := HeaderAt(e.ram, e.req);
    h.Ok? && WriteKind(h.value.kind) && |e.req.iov| == 3 ==>
      Disjoint(512 * h.value.sector, e.req.iov[1].len, pos, n)
  }

  lemma {:induction false} RunSpares(disk: Disk, events: seq<Event>, pos: nat, n: nat)
    requires DiskAfter(disk, events).Ok? && pos + n <= |disk|
    requires forall i :: 0 <= i < |events| ==> Spares(events[i], pos, n)
    ensures |DiskAfter(disk, events).value| >= |disk|
    ensures FileRead(DiskAfter(disk, events).value, pos, n) == FileRead(disk, pos, n)
    decreases events
  {
    if events == [] {
    } else {
      var e := events[0];
      assert Spares(e, pos, n);
      StepSpares(disk, e, pos, n);
      RunSpares(Serve(e.ram, disk, e.v, e.usedIdx, e.req).value.disk, events[1..], pos, n);
    }
  }

  lemma StepSpares(disk: Disk, e: Event, pos: nat, n: nat)
    requires Serve(e.ram, disk, e.v, e.usedIdx, e.req).Ok? && pos + n <= |disk| && Spares(e, pos, n)
    ensures var d := Serve(e.ram, disk, e.v, e.usedIdx, e.req).value.disk;
            |d| >= |disk| && FileRead(d, pos, n) == FileRead(disk, pos, n)
  {
    hide ReadPhys, WritePhys, UsedWrite, FileRead, FileWrite, Scatter, Complete, FilePos;
    var h := HeaderAt(e.ram, e.req).value;
    KindIs(h);
    FilePosIff(h.sector);
    if h.Plain() == 0 && h.Out() {
      var p, data := FilePos(h.sector).value, ReadBlob(e.ram, e.req.iov[1].base, e.req.iov[1].len).value;
      FileRoundTrip(disk, p, data);
      OtherSectors(disk, p, data, pos, n);
    }
  }

  /** In every run whose requests fit in their turn: a read of n bytes at a sector
      gets the bytes of the last write of n bytes there, however the read is
      scattered, whatever other requests that spare the range come between, and
      whatever the guest does to its memory in the meantime. */
  lemma ReadGetsLastWrite(disk: Disk, w: Event, between: seq<Event>, r: Event, wkind: u32, rkind: u32, sector: u64)
    requires AllFit(|disk|, [w] + between + [r])
    requires Asks(w.ram, w.req, wkind, sector) && WriteKind(wkind) && |w.req.iov| == 3
    requires w.v.used + 4 + 8 * w.v.num <= B64
    requires Asks(r.ram, r.req, rkind, sector) && ReadKind(rkind) && |r.req.iov| >= 2 && Separate(r.v, r.req)
    requires Total(DataBufs(r.req)) == w.req.iov[1].len
    requires forall i :: 0 <= i < |between| ==> Spares(between[i], 512 * sector, w.req.iov[1].len)
    ensures var before := DiskAfter(disk, [w] + between);
            before.Ok?
            && Serve(r.ram, before.value, r.v, r.usedIdx, r.req).Ok?
            && Gather(Serve(r.ram, before.value, r.v, r.usedIdx, r.req).value.ram, DataBufs(r.req))
               == ReadBlob(w.ram, w.req.iov[1].base, w.req.iov[1].len)
  {
    hide Serve, FileRead, Gather, ReadBlob, ReadPhys, FilePos, Separate, Fits, AllFit, Asks, Spares, SameUntouched;
    hide InUsed;
    RunServedIff(disk, [w] + between + [r]);
    assert [w] + between + [r] == [w] + (between + [r]);
    var pos, n := 512 * sector, w.req.iov[1].len;
    RunJoins(disk, [w] + between, [r]);
    var disk1 := Serve(w.ram, disk, w.v, w.usedIdx, w.req).value.disk;
    assert ([w] + between)[1..] == between;
    WriteStores(w.ram, disk, w.v, w.usedIdx, w.req, wkind, sector);
    if n > 0 {
      InFile(disk1, pos, n);
      RunSpares(disk1, between, pos, n);
    } else {
      NoBytes(disk1, DiskAfter(disk1, between).value, pos);
    }
    ReadDelivers(r.ram, DiskAfter(disk1, between).value, r.v, r.usedIdx, r.req, rkind, sector);
  }

  lemma NoBytes(disk: Disk, disk': Disk, pos: nat)
    ensures FileRead(disk, pos, 0) == FileRead(disk', pos, 0)
  {
  }

  lemma InFile(disk: Disk, pos: nat, n: nat)
    requires FileRead(disk, pos, n).Ok? && n > 0
    ensures pos + n <= |disk|
  {
  }

  lemma {:induction false} RunJoins(disk: Disk, a: seq<Event>, b: seq<Event>)
    requires DiskAfter(disk, a + b).Ok?
    ensures DiskAfter(disk, a).Ok? && DiskAfter(disk, a + b) == DiskAfter(DiskAfter(disk, a).value, b)
    ensures b != [] ==> Serve(b[0].ram, DiskAfter(disk, a).value, b[0].v, b[0].usedIdx, b[0].req).Ok?
    decreases a
  {
    hide Serve;
    if a == [] {
      assert a + b == b;
    } else {
      assert (a + b)[1..] == a[1..] + b;
      RunJoins(Serve(a[0].ram, disk, a[0].v, a[0].usedIdx, a[0].req).value.disk, a[1..], b);
    }
  }
}

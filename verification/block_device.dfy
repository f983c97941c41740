/** The virtio block device's requests (virtio_blk.c): scatter and gather between
    guest RAM and the disk file, completion, and what a later read gets back. */
module BlockDevice {
  import opened Wrappers
  import opened Words
  import opened Memory
  import opened AddressSpace
  import opened VirtioRing

  const SECTOR_SIZE := 512
  const HEADER_SIZE := 16

  type Disk = seq<u8>

  datatype Header = Header(kind: u32, ioprio: u32, sector: u64) {
    /** The type without its OUT and BARRIER bits. */
    function Plain(): nat { kind % 0x8000_0000 / 2 * 2 }
    predicate Out() { kind % 2 == 1 }
  }

  function ParseHeader(b: seq<u8>): Header
    requires |b| == HEADER_SIZE
  {
    FromBytesFits(b[8..]);
    Pow256Small(4);
    Header(FromBytes(b[..4]), FromBytes(b[4..8]), FromBytes(b[8..]))
  }

  // ------------------------------------------------------------------ the file

  /** fseek to a sector: the offset is a signed 64-bit product. */
  function FilePos(sector: u64): Outcome<nat> {
    var pos := Signed64(sector) * SECTOR_SIZE;
    if !(-SIGN64 <= pos < SIGN64) then Stop(Undefined) else if pos < 0 then Stop(Panic) else Ok(pos)
  }

  /** fread of exactly n bytes; a short read panics. */
  function FileRead(disk: Disk, pos: nat, n: nat): (b: Outcome<seq<u8>>)
    ensures b.Ok? ==> |b.value| == n
  {
    if n == 0 then Ok([]) else if pos + n <= |disk| then Ok(disk[pos..pos + n]) else Stop(Panic)
  }

  /** fwrite, which fills a gap past the end of the file with zeros. */
  function FileWrite(disk: Disk, pos: nat, data: seq<u8>): Disk {
    if data == [] then disk
    else
      var d := if |disk| < pos then disk + seq(pos - |disk|, _ => 0) else disk;
      d[..pos] + data + if pos + |data| <= |d| then d[pos + |data|..] else []
  }

  // ------------------------------------------------------------- the operations

  /** The loop of _handle_read over the data buffers. */
  function Scatter(ram: Ram, disk: Disk, pos: nat, bufs: seq<Iov>): Outcome<Ram>
    decreases bufs
  {
    if bufs == [] then Ok(ram)
    else
      var data :- FileRead(disk, pos, bufs[0].len);
      var ram' :- WriteBlob(ram, bufs[0].base, data);
      Scatter(ram', disk, pos + bufs[0].len, bufs[1..])
  }

  /** _complete: the status byte, then the used ring. */
  function Complete(ram: Ram, v: Vring, usedIdx: u16, req: Request): Outcome<(Ram, u16)>
    requires |req.iov| > 0
  {
    var ram' :- WritePhys(ram, req.iov[|req.iov| - 1].base, 1, 0);
    UsedWrite(ram', v, usedIdx, req)
  }

  /** The buffers between the header and the status byte. */
  function DataBufs(req: Request): seq<Iov>
    requires |req.iov| >= 2
  {
    req.iov[1..|req.iov| - 1]
  }

  datatype Served = Served(ram: Ram, disk: Disk, usedIdx: u16)

  function HandleRead(ram: Ram, disk: Disk, v: Vring, usedIdx: u16, req: Request, sector: u64): Outcome<Served> {
    if |req.iov| < 3 then Stop(Panic)
    else
      var pos :- FilePos(sector);
      var ram' :- Scatter(ram, disk, pos, DataBufs(req));
      var c :- Complete(ram', v, usedIdx, req);
      Ok(Served(c.0, disk, c.1))
  }

  function HandleWrite(ram: Ram, disk: Disk, v: Vring, usedIdx: u16, req: Request, sector: u64): Outcome<Served> {
    if |req.iov| != 3 then Stop(Panic)
    else
      var data :- ReadBlob(ram, req.iov[1].base, req.iov[1].len);
      var pos :- FilePos(sector);
      var c :- Complete(ram, v, usedIdx, req);
      Ok(Served(c.0, FileWrite(disk, pos, data), c.1))
  }

  function HandleFlush(ram: Ram, disk: Disk, v: Vring, usedIdx: u16, req: Request): Outcome<Served> {
    if |req.iov| != 2 then Stop(Panic)
    else
      var c :- Complete(ram, v, usedIdx, req);
      Ok(Served(c.0, disk, c.1))
  }

  function HeaderAt(ram: Ram, req: Request): Outcome<Header> {
    if |req.iov| == 0 then Stop(Undefined)
    else if req.iov[0].len != HEADER_SIZE || req.iov[0].write then Stop(Panic)
    else
      var b :- ReadBlob(ram, req.iov[0].base, HEADER_SIZE);
      Ok(ParseHeader(b))
  }

  /** _do_request */
  function Serve(ram: Ram, disk: Disk, v: Vring, usedIdx: u16, req: Request): Outcome<Served> {
    var h :- HeaderAt(ram, req);
    if h.Plain() == 0 then
      if h.Out() then HandleWrite(ram, disk, v, usedIdx, req, h.sector)
      else HandleRead(ram, disk, v, usedIdx, req, h.sector)
    else if h.Plain() == 4 then HandleFlush(ram, disk, v, usedIdx, req)
    else Stop(Panic)
  }

  // --------------------------------------------------- what is where afterwards

  predicate InBufs(bufs: seq<Iov>, a: int) {
    bufs != [] && (Covers(bufs[0].base, bufs[0].len, a) || InBufs(bufs[1..], a))
  }

  function Total(bufs: seq<Iov>): nat {
    if bufs == [] then 0 else bufs[0].len + Total(bufs[1..])
  }

  /** Guest memory in the buffers, in order. */
  function Gather(ram: Ram, bufs: seq<Iov>): Outcome<seq<u8>> {
    if bufs == [] then Ok([])
    else
      var b :- ReadBlob(ram, bufs[0].base, bufs[0].len);
      var rest :- Gather(ram, bufs[1..]);
      Ok(b + rest)
  }

  predicate Apart(bufs: seq<Iov>) {
    forall i, j :: 0 <= i < j < |bufs| ==> Disjoint(bufs[i].base, bufs[i].len, bufs[j].base, bufs[j].len)
  }

  /** No buffer meets the range. */
  predicate Clear(bufs: seq<Iov>, pa: int, n: nat) {
    forall i :: 0 <= i < |bufs| ==> Disjoint(bufs[i].base, bufs[i].len, pa, n)
  }

  predicate SameOutsideBufs(ram: Ram, ram': Ram, bufs: seq<Iov>) {
    |ram'| == |ram| && forall k :: 0 <= k < |ram| && !InBufs(bufs, RAM_START + k) ==> ram'[k] == ram[k]
  }

  lemma {:induction false} ScatterFrame(ram: Ram, disk: Disk, pos: nat, bufs: seq<Iov>)
    requires Scatter(ram, disk, pos, bufs).Ok?
    ensures SameOutsideBufs(ram, Scatter(ram, disk, pos, bufs).value, bufs)
    decreases bufs
  {
    if bufs == [] {
    } else {
      var data := FileRead(disk, pos, bufs[0].len).value;
      BlobRoundTrip(ram, bufs[0].base, data);
      ScatterFrame(WriteBlob(ram, bufs[0].base, data).value, disk, pos + bufs[0].len, bufs[1..]);
    }
  }

  lemma {:induction false} ClearBytes(bufs: seq<Iov>, pa: int, n: nat, a: int)
    requires Clear(bufs, pa, n) && Covers(pa, n, a)
    ensures !InBufs(bufs, a)
  {
    if bufs == [] {
    } else {
      assert Disjoint(bufs[0].base, bufs[0].len, pa, n);
      ClearBytes(bufs[1..], pa, n, a);
    }
  }

  lemma ReadsSame(ram: Ram, ram': Ram, bufs: seq<Iov>, pa: u64, n: nat)
    requires SameOutsideBufs(ram, ram', bufs) && Clear(bufs, pa, n)
    ensures ReadBlob(ram', pa, n) == ReadBlob(ram, pa, n)
  {
    if InRam(ram, pa, n) {
      forall i | 0 <= i < n ensures Slice(ram', pa, n)[i] == Slice(ram, pa, n)[i] { ClearBytes(bufs, pa, n, pa + i); }
      assert Slice(ram', pa, n) == Slice(ram, pa, n);
    }
  }

  /** A buffer filled first keeps its bytes while the others are filled. */
  lemma FirstBufferStays(ram: Ram, disk: Disk, pos: nat, bufs: seq<Iov>)
    requires bufs != [] && Scatter(ram, disk, pos, bufs).Ok? && Apart(bufs)
    ensures ReadBlob(Scatter(ram, disk, pos, bufs).value, bufs[0].base, bufs[0].len)
         == FileRead(disk, pos, bufs[0].len)
  {
    hide ReadBlob, WriteBlob, FileRead;
    var b, rest := bufs[0], bufs[1..];
    var data := FileRead(disk, pos, b.len).value;
    var ram1 := WriteBlob(ram, b.base, data).value;
    BlobRoundTrip(ram, b.base, data);
    ScatterFrame(ram1, disk, pos + b.len, rest);
    assert Clear(rest, b.base, b.len);
    ReadsSame(ram1, Scatter(ram1, disk, pos + b.len, rest).value, rest, b.base, b.len);
  }

  /** Scattering then gathering disjoint buffers delivers the file's bytes. */
  lemma {:induction false} ScatterGather(ram: Ram, disk: Disk, pos: nat, bufs: seq<Iov>)
    requires Scatter(ram, disk, pos, bufs).Ok? && Apart(bufs)
    ensures FileRead(disk, pos, Total(bufs)).Ok?
    ensures Gather(Scatter(ram, disk, pos, bufs).value, bufs) == FileRead(disk, pos, Total(bufs))
    decreases bufs
  {
    hide ReadBlob, WriteBlob;
    if bufs == [] {
    } else {
      var b, rest := bufs[0], bufs[1..];
      var ram1 := WriteBlob(ram, b.base, FileRead(disk, pos, b.len).value).value;
      FirstBufferStays(ram, disk, pos, bufs);
      ScatterGather(ram1, disk, pos + b.len, rest);
      JoinReads(disk, pos, b.len, Total(rest));
    }
  }

  lemma JoinReads(disk: Disk, pos: nat, n: nat, m: nat)
    requires FileRead(disk, pos, n).Ok? && FileRead(disk, pos + n, m).Ok?
    ensures FileRead(disk, pos, n + m) == Ok(FileRead(disk, pos, n).value + FileRead(disk, pos + n, m).value)
  {
    var x, y := FileRead(disk, pos, n).value, FileRead(disk, pos + n, m).value;
    assert [] + y == y && x + [] == x;
    if n > 0 && m > 0 { assert disk[pos..pos + (n + m)] == x + y; }
  }

  /** Bytes written at a place in the file read back there; the rest of the file
      keeps its bytes, and a gap before them is filled with zeros. */
  lemma FileRoundTrip(disk: Disk, pos: nat, data: seq<u8>)
    ensures FileRead(FileWrite(disk, pos, data), pos, |data|) == Ok(data)
    ensures |FileWrite(disk, pos, data)| == if data != [] && pos + |data| > |disk| then pos + |data| else |disk|
    ensures forall k :: 0 <= k < |disk| && !Covers(pos, |data|, k) ==> FileWrite(disk, pos, data)[k] == disk[k]
    ensures forall k :: |disk| <= k < |FileWrite(disk, pos, data)| && !Covers(pos, |data|, k) ==>
              FileWrite(disk, pos, data)[k] == 0
  {
  }

  lemma OtherSectors(disk: Disk, pos: nat, data: seq<u8>, q: nat, n: nat)
    requires q + n <= |disk| && Disjoint(pos, |data|, q, n)
    ensures FileRead(FileWrite(disk, pos, data), q, n) == FileRead(disk, q, n)
  {
    FileRoundTrip(disk, pos, data);
    if n > 0 { assert FileWrite(disk, pos, data)[q..q + n] == disk[q..q + n]; }
  }

  /** The used ring, without avail_event. */
  predicate InUsed(v: Vring, a: int) { Covers(v.used, 4 + 8 * v.num, a) }

  /** Completion stores nothing but the status byte and used-ring cells. */
  lemma CompleteFrame(ram: Ram, v: Vring, usedIdx: u16, req: Request)
    requires |req.iov| > 0 && Complete(ram, v, usedIdx, req).Ok? && v.used + 4 + 8 * v.num <= B64
    ensures var ram' := Complete(ram, v, usedIdx, req).value.0;
            && |ram'| == |ram|
            && forall k :: 0 <= k < |ram| && RAM_START + k != req.iov[|req.iov| - 1].base && !InUsed(v, RAM_START + k)
                 ==> ram'[k] == ram[k]
  {
    var ram1 := WritePhys(ram, req.iov[|req.iov| - 1].base, 1, 0).value;
    UsedWriteFrame(ram1, v, usedIdx, req);
  }

  lemma UsedWriteFrame(ram: Ram, v: Vring, usedIdx: u16, req: Request)
    requires UsedWrite(ram, v, usedIdx, req).Ok? && v.used + 4 + 8 * v.num <= B64
    ensures SameOutside(ram, UsedWrite(ram, v, usedIdx, req).value.0, v.used, 4 + 8 * v.num)
  {
    hide WritePhys, SameOutside, Wrap;
    var pa := v.used + 4 + 8 * (usedIdx % v.num);
    var next := (usedIdx + 1) % B16;
    assert usedIdx % v.num < v.num && pa + 8 <= v.used + 4 + 8 * v.num;
    Fits(pa);
    Fits(pa + 4);
    Fits(v.used + 2);
    var ram1 := WritePhys(ram, pa, 4, req.index).value;
    var ram2 := WritePhys(ram1, pa + 4, 4, req.inLen).value;
    StoreFrame(ram, pa, 4, req.index, v.used, 4 + 8 * v.num);
    StoreFrame(ram1, pa + 4, 4, req.inLen, v.used, 4 + 8 * v.num);
    StoreFrame(ram2, v.used + 2, 2, next, v.used, 4 + 8 * v.num);
    FramesJoin(ram, ram1, ram2, v.used, 4 + 8 * v.num);
    FramesJoin(ram, ram2, WritePhys(ram2, v.used + 2, 2, next).value, v.used, 4 + 8 * v.num);
  }

  lemma FramesJoin(ram: Ram, ram1: Ram, ram2: Ram, pa: int, n: nat)
    requires SameOutside(ram, ram1, pa, n) && SameOutside(ram1, ram2, pa, n)
    ensures SameOutside(ram, ram2, pa, n)
  {
  }

  lemma StoreFrame(ram: Ram, pa: u64, n: nat, data: u64, pb: int, m: nat)
    requires WritePhys(ram, pa, n, data).Ok? && pb <= pa && pa + n <= pb + m
    ensures SameOutside(ram, WritePhys(ram, pa, n, data).value, pb, m)
  {
    hide ToBytes;
  }
}

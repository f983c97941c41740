/** What lies where in guest memory for the device: each field of a descriptor, of a
    request read from a table, and of the two rings, by its address and its bits
    (virtio.h:173-200), independent of the functions that read them. */
module VirtioLayout {
  import opened Wrappers
  import opened Words
  import opened Memory
  import opened AddressSpace
  import opened VirtioRing

  // -------------------------------------------------------------- descriptors

  /** The four fields of a descriptor, little-endian, in 16 aligned bytes. */
  predicate DescIn(ram: Ram, pa: u64, d: Desc) {
    && pa % 8 == 0 && ReadPhys(ram, pa, 8) == Ok(d.addr) && ReadPhys(ram, Wrap(pa + 8), 4) == Ok(d.len)
    && ReadPhys(ram, Wrap(pa + 12), 2) == Ok(d.flags) && ReadPhys(ram, Wrap(pa + 14), 2) == Ok(d.next)
  }

  lemma PartOfBlob(ram: Ram, pa: u64, n: nat, i: nat, m: nat)
    requires InRam(ram, pa, n) && i + m <= n && GoodSize(m) && |ram| <= 0x8000_0000
    ensures Wrap(pa + i) == pa + i && ReadPhys(ram, Wrap(pa + i), m) == Ok(FromBytes(Slice(ram, pa, n)[i..i + m]))
  {
    hide FromBytes;
    SliceOfSlice(ram, pa - RAM_START, n, i, m);
  }

  lemma SliceOfSlice(s: seq<u8>, a: nat, n: nat, i: nat, m: nat)
    requires a + n <= |s| && i + m <= n
    ensures s[a..a + n][i..i + m] == s[a + i..a + i + m]
  {
    var x, y := s[a..a + n][i..i + m], s[a + i..a + i + m];
    forall k | 0 <= k < m ensures x[k] == y[k] { assert x[k] == s[a..a + n][i + k]; }
  }

  /** A descriptor is read exactly when its fields lie there. */
  lemma DescIff(ram: Ram, pa: u64, d: Desc)
    requires |ram| <= 0x8000_0000
    ensures DescAt(ram, pa) == Ok(d) <==> DescIn(ram, pa, d)
  {
    hide FromBytes, Slice, Wrap;
    if InRam(ram, pa, 16) {
      PartOfBlob(ram, pa, 16, 0, 8);
      PartOfBlob(ram, pa, 16, 8, 4);
      PartOfBlob(ram, pa, 16, 12, 2);
      PartOfBlob(ram, pa, 16, 14, 2);
      Quarters(Slice(ram, pa, 16));
    } else {
      EndsInRam(ram, pa);
    }
  }

  lemma Quarters(b: seq<u8>)
    requires |b| == 16
    ensures b[..8] == b[0..8] && b[14..] == b[14..16]
  {
  }

  /** First and last field in RAM: then all 16 bytes are. */
  lemma EndsInRam(ram: Ram, pa: u64)
    requires |ram| <= 0x8000_0000
    ensures ReadPhys(ram, pa, 8).Ok? && ReadPhys(ram, Wrap(pa + 14), 2).Ok? ==> InRam(ram, pa, 16)
  {
    hide FromBytes, Slice;
  }

  function DescBytes(d: Desc): (b: seq<u8>)
    ensures |b| == 16
  {
    ToBytes(d.addr, 8) + ToBytes(d.len, 4) + ToBytes(d.flags, 2) + ToBytes(d.next, 2)
  }

  /** A descriptor laid out in memory reads back. */
  lemma DescReadsBack(ram: Ram, pa: u64, d: Desc)
    requires ReadBlob(ram, pa, 16) == Ok(DescBytes(d))
    ensures DescAt(ram, pa) == Ok(d)
  {
    hide FromBytes, ToBytes;
    var b := DescBytes(d);
    assert b[..8] == ToBytes(d.addr, 8) && b[8..12] == ToBytes(d.len, 4);
    assert b[12..14] == ToBytes(d.flags, 2) && b[14..] == ToBytes(d.next, 2);
    Pow256Small(4);
    Pow256Small(8);
    assert Pow256(2) == B16;
    FromToBytes(d.addr, 8);
    FromToBytes(d.len, 4);
    FromToBytes(d.flags, 2);
    FromToBytes(d.next, 2);
  }

  /** NEXT, WRITE and INDIRECT are the three low bits of the flags. */
  lemma FlagBits(d: Desc)
    ensures d.flags % 8 == (if d.HasNext() then 1 else 0) + (if d.Writable() then 2 else 0)
                           + (if d.Indirect() then 4 else 0)
  {
    LowThree(d.flags, d.flags / 2, d.flags / 4, d.flags / 8);
  }

  lemma LowThree(x: nat, h: nat, q: nat, e: nat)
    requires h == x / 2 && q == x / 4 && e == x / 8
    ensures x == 8 * e + 4 * (q % 2) + 2 * (h % 2) + x % 2 && x % 8 == 4 * (q % 2) + 2 * (h % 2) + x % 2
  {
    assert q == h / 2 && e == q / 2;
    assert x == 2 * h + x % 2 && h == 2 * q + h % 2 && q == 2 * e + q % 2;
  }

  // ----------------------------------------------------------------- requests

  /** The descriptors of a table from its first one on, linked by NEXT. */
  ghost predicate TableIn(ram: Ram, addr: u64, ds: seq<Desc>) {
    && |ds| > 0 && DescIn(ram, addr, ds[0]) && ds[|ds| - 1].flags % 2 == 0
    && forall i :: 1 <= i < |ds| ==> Continues(ram, addr, ds[i - 1], ds[i])
  }

  predicate Continues(ram: Ram, addr: u64, d: Desc, e: Desc) {
    d.flags % 2 == 1 && DescIn(ram, Wrap(addr + 16 * d.next), e)
  }

  function DeviceWrites(d: Desc): bool { d.flags / 2 % 2 == 1 }

  /** The bytes the device may write, in order of the buffers. */
  function WriteTotal(ds: seq<Desc>): nat {
    if ds == [] then 0 else (if DeviceWrites(ds[0]) then ds[0].len else 0) + WriteTotal(ds[1..])
  }

  /** One buffer for each descriptor, and the total of those the device writes. */
  predicate RequestIn(ds: seq<Desc>, head: u32, req: Request) {
    && req.index == head && req.inLen == WriteTotal(ds) % B32 && |req.iov| == |ds|
    && forall i :: 0 <= i < |ds| ==> req.iov[i] == Iov(ds[i].addr, ds[i].len, DeviceWrites(ds[i]))
  }

  lemma {:induction false} WriteTotalIs(ds: seq<Desc>)
    ensures WritableBytes(ds) == WriteTotal(ds)
    decreases |ds|
  {
    if ds == [] {
    } else {
      var n := |ds| - 1;
      WriteTotalIs(ds[..n]);
      WriteTotalSum(ds[..n], ds[n]);
      assert ds[..n] + [ds[n]] == ds;
    }
  }

  lemma {:induction false} WriteTotalSum(ds: seq<Desc>, d: Desc)
    ensures WriteTotal(ds + [d]) == WriteTotal(ds) + if DeviceWrites(d) then d.len else 0
  {
    if ds == [] {
      assert ([] + [d])[1..] == [];
    } else {
      assert (ds + [d])[1..] == ds[1..] + [d];
      WriteTotalSum(ds[1..], d);
    }
  }

  lemma ChainIff(ram: Ram, addr: u64, ds: seq<Desc>)
    requires |ram| <= 0x8000_0000
    ensures IsChain(ram, addr, ds) <==> TableIn(ram, addr, ds)
  {
    hide DescAt, DescIn, Wrap;
    if |ds| > 0 {
      DescIff(ram, addr, ds[0]);
      forall i | 1 <= i < |ds|
        ensures Linked(ram, addr, ds[i - 1], ds[i]) <==> Continues(ram, addr, ds[i - 1], ds[i])
      {
        DescIff(ram, Wrap(addr + 16 * ds[i - 1].next), ds[i]);
        assert After(addr, ds[i - 1]) == Wrap(addr + 16 * ds[i - 1].next);
      }
      hide Linked, Continues;
    }
  }

  /** A request is read from a table exactly when the table's memory holds linked
      descriptors, at most 1024, and it is then theirs, buffer by buffer. */
  lemma IndirectIff(ram: Ram, head: u32, addr: u64, len: u32, req: Request)
    requires |ram| <= 0x8000_0000
    ensures ReadIndirect(ram, head, addr, len) == Ok(req)
       <==> len > 0 && len % 16 == 0
            && exists ds: seq<Desc> :: TableIn(ram, addr, ds) && |ds| <= 1024 && RequestIn(ds, head, req)
  {
    hide TableIn, IsChain, ReadIndirect;
    IndirectIsChain(ram, head, addr, len, req);
    forall ds: seq<Desc> ensures IsChain(ram, addr, ds) <==> TableIn(ram, addr, ds) { ChainIff(ram, addr, ds); }
    if ds: seq<Desc> :| RequestOf(ram, addr, head, ds, req) {
      WriteTotalIs(ds);
      assert TableIn(ram, addr, ds) && RequestIn(ds, head, req);
    }
    if ds: seq<Desc> :| TableIn(ram, addr, ds) && |ds| <= 1024 && RequestIn(ds, head, req) {
      WriteTotalIs(ds);
      assert req.iov == Iovs(ds);
      assert RequestOf(ram, addr, head, ds, req);
    }
  }

  // -------------------------------------------------------------------- rings

  /** Where the ring addresses lie from the queue's base: the descriptors, 16 bytes
      each, the available ring after them, and the used ring at the next multiple of
      the alignment after that. */
  lemma LaidOutIs(v: Vring, desc: u64)
    requires v.align > 0 && desc + 18 * v.num + 4 + v.align < B64
    ensures var w := LaidOut(v, desc);
            && w.num == v.num && w.align == v.align && w.desc == desc && w.avail == desc + 16 * v.num
            && w.used % v.align == 0 && w.avail + 4 + 2 * v.num <= w.used < w.avail + 4 + 2 * v.num + v.align
  {
    hide Wrap, AlignUp, AlignUpWord;
    UsedAligned(v, desc);
    RoundsUp(desc + 18 * v.num + 4, v.align);
    Fits(desc + 16 * v.num);
  }

  /** Each cell of the rings by its address: flags and index first, then the cells, of
      2 and of 4 + 4 bytes. */
  lemma RingsIff(ram: Ram, v: Vring, c: Cells)
    requires Placed(ram, v)
    ensures Rings(ram, v, c)
       <==> && |c.avail| == |c.used| == v.num
            && ReadPhys(ram, v.avail + 2, 2) == Ok(c.availIdx) && ReadPhys(ram, v.used + 2, 2) == Ok(c.usedIdx)
            && (forall i :: 0 <= i < v.num ==> ReadPhys(ram, v.avail + (4 + 2 * i), 2) == Ok(c.avail[i]))
            && (forall i :: 0 <= i < v.num ==> ReadPhys(ram, v.used + (4 + 8 * i), 4) == Ok(c.used[i].id))
            && (forall i :: 0 <= i < v.num ==> ReadPhys(ram, v.used + (8 + 8 * i), 4) == Ok(c.used[i].len))
  {
    hide ReadPhys;
    assert Wrap(v.avail + 2) == v.avail + 2 && Wrap(v.used + 2) == v.used + 2;
    forall i | 0 <= i < v.num
      ensures AvailRing(ram, v, i) == ReadPhys(ram, v.avail + (4 + 2 * i), 2)
      ensures |c.used| == v.num ==>
                (ElemAt(ram, v, i, c.used[i])
                 <==> ReadPhys(ram, v.used + (4 + 8 * i), 4) == Ok(c.used[i].id)
                      && ReadPhys(ram, v.used + (8 + 8 * i), 4) == Ok(c.used[i].len))
    {
      assert Wrap(v.avail + 4 + 2 * i) == v.avail + (4 + 2 * i);
      assert Wrap(SlotAt(v, i)) == v.used + (4 + 8 * i) && Wrap(SlotAt(v, i) + 4) == v.used + (8 + 8 * i);
    }
  }

  /** After vring_used_write the entry names the request and its length, and the index
      is the next one. */
  lemma UsedWriteReads(ram: Ram, v: Vring, c: Cells, usedIdx: u16, req: Request)
    requires Rings(ram, v, c)
    ensures var w := UsedWrite(ram, v, usedIdx, req);
            var cell := v.used + 4 + 8 * (usedIdx % v.num);
            && v.num > 0 && w.Ok? && cell + 8 < B64
            && ReadPhys(w.value.0, cell, 4) == Ok(req.index) && ReadPhys(w.value.0, cell + 4, 4) == Ok(req.inLen)
            && ReadPhys(w.value.0, v.used + 2, 2) == Ok((usedIdx + 1) % B16)
  {
    hide ReadPhys, UsedWrite, Rings;
    RingsShape(ram, v, c);
    UsedWriteView(ram, v, c, usedIdx, req);
    var ram' := UsedWrite(ram, v, usedIdx, req).value.0;
    PlacedOf(ram', v, WithUsed(c, usedIdx, req));
    RingsIff(ram', v, WithUsed(c, usedIdx, req));
    var i := usedIdx % v.num;
    assert ReadPhys(ram', v.used + (4 + 8 * i), 4) == Ok(WithUsed(c, usedIdx, req).used[i].id);
    assert ReadPhys(ram', v.used + (8 + 8 * i), 4) == Ok(WithUsed(c, usedIdx, req).used[i].len);
  }

  lemma PlacedOf(ram: Ram, v: Vring, c: Cells)
    requires Rings(ram, v, c)
    ensures Placed(ram, v)
  {
  }

  /** With event indices the next index to pop is published behind the used ring. */
  lemma EventReads(ram: Ram, v: Vring, last: u16)
    requires Placed(ram, v) && Pop(ram, v, last, true).Ok? && Pop(ram, v, last, true).value.Some?
    ensures var (ram', next, _) := Pop(ram, v, last, true).value.value;
            next == (last + 1) % B16 && ReadPhys(ram', v.used + (4 + 8 * v.num), 2) == Ok(next)
  {
    hide ReadPhys, WritePhys, AvailIdx, AvailRing, DescAt, ReadIndirect;
    var next := (last + 1) % B16;
    var pa := v.used + 4 + 8 * v.num;
    assert Wrap(pa) == pa;
    assert Pow256(2) == B16;
    var ram' := StoreInRam(ram, pa, 2, next);
    assert EventStored(ram, v, next, true) == Ok(ram');
  }
}

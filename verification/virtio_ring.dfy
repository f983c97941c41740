/** The split virtqueue in guest RAM (virtio.c): layout, popping a request with
    its indirect descriptor chain, and writing the used ring. */
module VirtioRing {
  import opened Wrappers
  import opened Words
  import opened Fields
  import opened Memory
  import opened AddressSpace

  const DESC_SIZE := 16
  const MAX_CHAIN := 1024   // VIRTQUEUE_MAX_SIZE

  datatype Vring = Vring(num: u32, align: u32, desc: u64, avail: u64, used: u64)

  // ---------------------------------------------------------------- the layout

  /** ALIGN_UP */
  function AlignUp(n: nat, m: nat): nat
    requires m > 0
  {
    (n + m - 1) / m * m
  }

  /** ALIGN_UP on 64-bit words */
  function AlignUpWord(n: u64, m: u32): u64
    requires m > 0
  {
    Wrap(Wrap(n + m - 1) / m * m)
  }

  /** The ring addresses vring_init derives from the queue base. */
  function LaidOut(v: Vring, desc: u64): Vring
    requires v.align > 0
  {
    var avail := Wrap(desc + DESC_SIZE * v.num);
    var end := Wrap(avail + 4 + 2 * v.num);
    v.(desc := desc, avail := avail, used := AlignUpWord(end, v.align))
  }

  function InitRing(v: Vring, pfn: u64, shift: nat): Outcome<Vring> {
    var desc := Wrap(pfn * Pow2(shift));
    if v.num == 0 || desc == 0 || v.align == 0 then Stop(Panic) else Ok(LaidOut(v, desc))
  }

  lemma RoundsUp(n: nat, m: nat)
    requires m > 0
    ensures n <= AlignUp(n, m) < n + m && AlignUp(n, m) % m == 0
  {
    var q, r := (n + m - 1) / m, (n + m - 1) % m;
    assert n + m - 1 == m * q + r;
    AddMultiple(m * q, m, q, 0);
  }

  /** The least multiple of m from n up. */
  lemma RoundsUpUnique(n: nat, m: nat, a: nat)
    requires m > 0 && n <= a < n + m && a % m == 0
    ensures AlignUp(n, m) == a
  {
    RoundsUp(n, m);
    var b, q, p := AlignUp(n, m), a / m, AlignUp(n, m) / m;
    assert a == m * q && b == m * p;
    if q < p { MulLe(q + 1, p, m); Dist(m, q, 1); assert false; }
    if p < q { MulLe(p + 1, q, m); Dist(m, p, 1); assert false; }
  }

  /** The used ring's place in the legacy layout (section 2.6.2 of VIRTIO 1.1):
      the available ring there also ends with the used_event field. */
  function LegacyUsed(v: Vring, desc: nat): nat
    requires v.align > 0
  {
    AlignUp(desc + DESC_SIZE * v.num + 6 + 2 * v.num, v.align)
  }

  /** Leaving out used_event moves the used ring exactly when the shorter
      available ring ends just at, or one byte before, a multiple of the
      alignment. */
  lemma LayoutIsLegacyIff(v: Vring, desc: nat)
    requires v.align > 0 && desc + 18 * v.num + 4 + v.align < B64
    ensures var end := desc + 18 * v.num + 4;
            LaidOut(v, desc).used == LegacyUsed(v, desc)
            <==> end % v.align != 0 && (end + 1) % v.align != 0
  {
    var end := desc + 18 * v.num + 4;
    hide AlignUp, LaidOut;
    UsedAligned(v, desc);
    TwoMore(end, v.align);
  }

  /** One descriptor at 4096 with an alignment of 2: the used ring is at 4118, and the
      standard puts it at 4120. */
  lemma LayoutCanMove() returns (v: Vring)
    ensures v.num == 1 && v.align == 2 && LaidOut(v, 4096).used == 4118 && LegacyUsed(v, 4096) == 4120
  {
    v := Vring(1, 2, 0, 0, 0);
    UsedAligned(v, 4096);
  }

  lemma UsedAligned(v: Vring, desc: nat)
    requires v.align > 0 && desc + 18 * v.num + 4 + v.align < B64
    ensures LaidOut(v, desc).used == AlignUp(desc + 18 * v.num + 4, v.align)
  {
    hide Wrap, AlignUp, AlignUpWord;
    Fits(desc + DESC_SIZE * v.num);
    Fits(desc + 18 * v.num + 4);
    NoWrap(desc + 18 * v.num + 4, v.align);
  }

  lemma NoWrap(n: u64, m: u32)
    requires m > 0 && n + m < B64
    ensures AlignUpWord(n, m) == AlignUp(n, m)
  {
    hide Wrap;
    RoundsUp(n, m);
    Fits(n + m - 1);
    Fits(AlignUp(n, m));
  }

  lemma Fits(x: nat)
    requires x < B64
    ensures Wrap(x) == x
  {
  }

  lemma TwoMore(n: nat, m: nat)
    requires m > 0
    ensures AlignUp(n, m) == AlignUp(n + 2, m) <==> n % m != 0 && (n + 1) % m != 0
  {
    hide AlignUp;
    var q, r := n / m, n % m;
    RoundsUp(n, m);
    RoundsUp(n + 2, m);
    if r == 0 {
      RoundsUpUnique(n, m, n);
    } else {
      var up := n + (m - r);
      AddMultiple(up, m, q + 1, 0) by { Dist(m, q, 1); }
      RoundsUpUnique(n, m, up);
      if r < m - 1 {
        RoundsUpUnique(n + 2, m, up);
        DivUnique(n + 1, m, q, r + 1);
      }
    }
  }

  /** Rings of a power-of-two size on a base and alignment of at least 16 bytes
      are laid out as the standard says. */
  lemma PowerOfTwoIsLegacy(v: Vring, desc: nat, k: nat, e: nat)
    requires v.num == Pow2(k) && e > 0 && v.align == 16 * e && desc % v.align == 0
    requires desc + 18 * v.num + 4 + v.align < B64
    ensures LaidOut(v, desc).used == LegacyUsed(v, desc)
  {
    hide LaidOut, LegacyUsed;
    var end := desc + 18 * v.num + 4;
    EndNotAligned(desc, v.num, k, e);
    NotMultiple(end, e, v.align);
    NotMultiple(end + 1, e, v.align);
    LayoutIsLegacyIff(v, desc);
  }

  lemma EndNotAligned(desc: nat, num: nat, k: nat, e: nat)
    requires num == Pow2(k) && e > 0 && desc % (16 * e) == 0
    ensures (desc + 18 * num + 4) % 16 != 0 && (desc + 18 * num + 5) % 16 != 0
  {
    var b := e * (desc / (16 * e));
    assert desc == 16 * b by { Assoc(16, e, desc / (16 * e)); }
    Pow2Low(k);
    if k >= 3 {
      var c := num / 8;
      AddMultiple(desc + 18 * num + 4, 16, b + 9 * c, 4);
      AddMultiple(desc + 18 * num + 5, 16, b + 9 * c, 5);
    } else {
      AddMultiple(desc + 18 * num + 4, 16, b, 18 * num + 4);
      AddMultiple(desc + 18 * num + 5, 16, b, 18 * num + 5);
    }
  }

  lemma Pow2Low(k: nat)
    ensures k < 3 || Pow2(k) % 8 == 0
    ensures k == 0 ==> Pow2(k) == 1
    ensures k == 1 ==> Pow2(k) == 2
    ensures k == 2 ==> Pow2(k) == 4
  {
    if k >= 3 {
      assert Pow2(k) == 2 * Pow2(k - 1) && Pow2(k - 1) == 2 * Pow2(k - 2) && Pow2(k - 2) == 2 * Pow2(k - 3);
    }
  }

  lemma Mod16(x: nat, e: nat, q: nat, r: nat)
    requires x == 16 * e * q + r
    ensures x % 16 == r % 16
  {
    AddProduct(x, 16, e, q, r);
  }

  lemma NotMultiple(x: nat, e: nat, m: nat)
    requires e > 0 && m == 16 * e && x % 16 != 0
    ensures x % m != 0
  {
    var q, r := DivMod(x, m);
    Mod16(x, e, q, r);
  }

  // -------------------------------------------------------------- descriptors

  datatype Desc = Desc(addr: u64, len: u32, flags: u16, next: u16) {
    predicate HasNext() { flags % 2 == 1 }
    predicate Writable() { flags / 2 % 2 == 1 }
    predicate Indirect() { flags / 4 % 2 == 1 }
  }

  datatype Iov = Iov(base: u64, len: u32, write: bool)

  datatype Request = Request(index: u32, inLen: u32, iov: seq<Iov>)

  function ParseDesc(b: seq<u8>): Desc
    requires |b| == DESC_SIZE
  {
    FromBytesFits(b[..8]);
    Pow256Small(4);
    assert Pow256(2) == B16;
    Desc(FromBytes(b[..8]), FromBytes(b[8..12]), FromBytes(b[12..14]), FromBytes(b[14..]))
  }

  function DescAt(ram: Ram, pa: u64): Outcome<Desc> {
    var b :- ReadBlob(ram, pa, DESC_SIZE);
    Ok(ParseDesc(b))
  }

  function IovOf(d: Desc): Iov { Iov(d.addr, d.len, d.Writable()) }

  function Iovs(ds: seq<Desc>): (iov: seq<Iov>)
    ensures |iov| == |ds| && forall i :: 0 <= i < |ds| ==> iov[i] == IovOf(ds[i])
  {
    seq(|ds|, i requires 0 <= i < |ds| => IovOf(ds[i]))
  }

  /** Bytes the device may write: the sum over the device-writable descriptors. */
  function WritableBytes(ds: seq<Desc>): nat {
    if ds == [] then 0
    else WritableBytes(ds[..|ds| - 1]) + if ds[|ds| - 1].Writable() then ds[|ds| - 1].len else 0
  }

  /** Where the table at addr continues after d. */
  function After(addr: u64, d: Desc): u64 { Wrap(addr + d.next * DESC_SIZE) }

  /** What the loop of vring_desc_read_indirect has left to collect, with n
      descriptors in its array of 1024. */
  function Follow(ram: Ram, table: u64, pa: u64, n: nat): Outcome<seq<Desc>>
    decreases MAX_CHAIN - n
  {
    if n >= MAX_CHAIN then Stop(Undefined)
    else
      var d :- DescAt(ram, pa);
      if !d.HasNext() then Ok([d])
      else
        var rest :- Follow(ram, table, After(table, d), n + 1);
        Ok([d] + rest)
  }

  function ReadIndirect(ram: Ram, head: u32, addr: u64, len: u32): Outcome<Request> {
    if len == 0 || len % DESC_SIZE != 0 then Stop(Panic)
    else
      var ds :- Follow(ram, addr, addr, 0);
      Ok(Request(head, WritableBytes(ds) % B32, Iovs(ds)))
  }

  /** Descriptor d continues at e, in the table. */
  predicate Linked(ram: Ram, table: u64, d: Desc, e: Desc) {
    d.HasNext() && DescAt(ram, After(table, d)) == Ok(e)
  }

  /** `ds` is the chain from pa on, its links into the table. */
  ghost predicate ChainFrom(ram: Ram, table: u64, pa: u64, ds: seq<Desc>) {
    && |ds| > 0 && DescAt(ram, pa) == Ok(ds[0]) && !ds[|ds| - 1].HasNext()
    && forall i :: 1 <= i < |ds| ==> Linked(ram, table, ds[i - 1], ds[i])
  }

  /** `ds` is the descriptor chain of the table at addr. */
  ghost predicate IsChain(ram: Ram, addr: u64, ds: seq<Desc>) { ChainFrom(ram, addr, addr, ds) }

  lemma ChainTail(ram: Ram, table: u64, pa: u64, ds: seq<Desc>)
    requires |ds| > 1
    ensures ChainFrom(ram, table, pa, ds)
       <==> DescAt(ram, pa) == Ok(ds[0]) && ds[0].HasNext() && ChainFrom(ram, table, After(table, ds[0]), ds[1..])
  {
    var rest := ds[1..];
    assert ds[|ds| - 1] == rest[|rest| - 1] && ds[1] == rest[0];
    LinksTail(ram, table, ds);
    assert Linked(ram, table, ds[0], ds[1]) <==> ds[0].HasNext() && DescAt(ram, After(table, ds[0])) == Ok(rest[0]);
  }

  lemma LinksTail(ram: Ram, table: u64, ds: seq<Desc>)
    requires |ds| > 1
    ensures (forall i :: 1 <= i < |ds| ==> Linked(ram, table, ds[i - 1], ds[i]))
       <==> && Linked(ram, table, ds[0], ds[1])
            && forall i :: 1 <= i < |ds[1..]| ==> Linked(ram, table, ds[1..][i - 1], ds[1..][i])
  {
    hide Linked;
    var rest := ds[1..];
    if forall i :: 1 <= i < |rest| ==> Linked(ram, table, rest[i - 1], rest[i]) {
      forall i | 2 <= i < |ds| ensures Linked(ram, table, ds[i - 1], ds[i]) {
        assert Linked(ram, table, rest[i - 2], rest[i - 1]);
      }
    }
    if forall i :: 1 <= i < |ds| ==> Linked(ram, table, ds[i - 1], ds[i]) {
      assert Linked(ram, table, ds[1 - 1], ds[1]);
      forall i | 1 <= i < |rest| ensures Linked(ram, table, rest[i - 1], rest[i]) {
        assert Linked(ram, table, ds[i], ds[i + 1]);
      }
    }
  }

  /** The loop collects the chain, exactly when there is one that fits. */
  lemma {:induction false} FollowIsChain(ram: Ram, table: u64, pa: u64, n: nat, ds: seq<Desc>)
    requires n <= MAX_CHAIN
    ensures Follow(ram, table, pa, n) == Ok(ds) <==> ChainFrom(ram, table, pa, ds) && n + |ds| <= MAX_CHAIN
    decreases MAX_CHAIN - n
  {
    hide DescAt, After, Linked;
    if n < MAX_CHAIN && |ds| > 0 && DescAt(ram, pa) == Ok(ds[0]) {
      var d := ds[0];
      assert ds == [d] + ds[1..];
      if d.HasNext() {
        FollowIsChain(ram, table, After(table, d), n + 1, ds[1..]);
        var rest := Follow(ram, table, After(table, d), n + 1);
        if rest.Ok? { assert ([d] + rest.value)[1..] == rest.value; }
        if |ds| > 1 { ChainTail(ram, table, pa, ds); }
      } else if |ds| > 1 {
        ChainTail(ram, table, pa, ds);
      } else {
        assert ds == [d];
      }
    }
  }

  /** The request for a chain: its buffers in order, each with its own
      direction, and the device-writable bytes modulo 2^32. */
  ghost predicate RequestOf(ram: Ram, addr: u64, head: u32, ds: seq<Desc>, req: Request) {
    IsChain(ram, addr, ds) && |ds| <= MAX_CHAIN && req == Request(head, WritableBytes(ds) % B32, Iovs(ds))
  }

  /** A request is read exactly when the table holds a chain of at most 1024
      descriptors, and it is then the request for that chain. */
  lemma IndirectIsChain(ram: Ram, head: u32, addr: u64, len: u32, req: Request)
    ensures ReadIndirect(ram, head, addr, len) == Ok(req)
       <==> len > 0 && len % DESC_SIZE == 0 && exists ds: seq<Desc> :: RequestOf(ram, addr, head, ds, req)
  {
    var r := Follow(ram, addr, addr, 0);
    if r.Ok? { FollowIsChain(ram, addr, addr, 0, r.value); }
    if ReadIndirect(ram, head, addr, len) == Ok(req) {
      assert RequestOf(ram, addr, head, r.value, req);
    }
    if exists ds: seq<Desc> :: RequestOf(ram, addr, head, ds, req) {
      var ds: seq<Desc> :| RequestOf(ram, addr, head, ds, req);
      FollowIsChain(ram, addr, addr, 0, ds);
    }
  }

  // ------------------------------------------------------------- the two rings

  function AvailIdx(ram: Ram, v: Vring): Outcome<u64> { ReadPhys(ram, Wrap(v.avail + 2), 2) }
  function AvailRing(ram: Ram, v: Vring, i: nat): Outcome<u64> { ReadPhys(ram, Wrap(v.avail + 4 + 2 * i), 2) }

  /** vring_set_avail_event, if event indices were negotiated. */
  function EventStored(ram: Ram, v: Vring, next: u16, event: bool): Outcome<Ram> {
    if event then WritePhys(ram, Wrap(v.used + 4 + 8 * v.num), 2, next) else Ok(ram)
  }

  /** vqueue_pop: the memory left, the next index to pop and the request, or
      None when the ring is empty. `event` says the guest negotiated event
      indices, so that the next index is published after the used ring. */
  function Pop(ram: Ram, v: Vring, last: u16, event: bool): Outcome<Option<(Ram, u16, Request)>> {
    var idx :- AvailIdx(ram, v);
    if idx == last then Ok(None)
    else if v.num == 0 then Stop(Undefined)
    else
      var head :- AvailRing(ram, v, last % v.num);
      if head >= v.num then Stop(Panic)
      else
        var next := (last + 1) % B16;
        var ram' :- EventStored(ram, v, next, event);
        var d :- DescAt(ram', Wrap(v.desc + head * DESC_SIZE));
        if !d.Indirect() then Stop(Panic)
        else
          var req :- ReadIndirect(ram', head, d.addr, d.len);
          Ok(Some((ram', next, req)))
  }

  /** vring_used_write: the memory left and the next used index. */
  function UsedWrite(ram: Ram, v: Vring, usedIdx: u16, req: Request): (r: Outcome<(Ram, u16)>)
    ensures r.Ok? ==> r.value.1 == (usedIdx + 1) % B16
  {
    if v.num == 0 then Stop(Undefined)
    else
      var pa := Wrap(v.used + 4 + 8 * (usedIdx % v.num));
      var ram1 :- WritePhys(ram, pa, 4, req.index);
      var ram2 :- WritePhys(ram1, Wrap(pa + 4), 4, req.inLen);
      var next := (usedIdx + 1) % B16;
      var ram3 :- WritePhys(ram2, Wrap(v.used + 2), 2, next);
      Ok((ram3, next))
  }

  datatype Elem = Elem(id: u32, len: u32)

  /** What the two rings hold, cell by cell. */
  datatype Cells = Cells(availIdx: u16, avail: seq<u16>, usedIdx: u16, used: seq<Elem>)

  /** The rings lie in RAM, the used ring (with avail_event) after the available one. */
  predicate Placed(ram: Ram, v: Vring) {
    && v.num > 0 && |ram| <= 0x8000_0000
    && RAM_START <= v.avail && v.avail + 4 + 2 * v.num <= v.used && InRam(ram, v.used, 6 + 8 * v.num)
  }

  function SlotAt(v: Vring, i: nat): nat { v.used + 4 + 8 * i }

  ghost predicate AvailView(ram: Ram, v: Vring, c: Cells) {
    && AvailIdx(ram, v) == Ok(c.availIdx) && |c.avail| == v.num
    && forall i :: 0 <= i < v.num ==> AvailRing(ram, v, i) == Ok(c.avail[i])
  }

  ghost predicate UsedView(ram: Ram, v: Vring, c: Cells) {
    && |c.used| == v.num && ReadPhys(ram, Wrap(v.used + 2), 2) == Ok(c.usedIdx)
    && forall i :: 0 <= i < v.num ==> ElemAt(ram, v, i, c.used[i])
  }

  predicate ElemAt(ram: Ram, v: Vring, i: nat, e: Elem) {
    ReadPhys(ram, Wrap(SlotAt(v, i)), 4) == Ok(e.id) && ReadPhys(ram, Wrap(SlotAt(v, i) + 4), 4) == Ok(e.len)
  }

  /** RAM holds the rings, with these cells. */
  ghost predicate Rings(ram: Ram, v: Vring, c: Cells) {
    Placed(ram, v) && AvailView(ram, v, c) && UsedView(ram, v, c)
  }

  lemma RingsShape(ram: Ram, v: Vring, c: Cells)
    requires Rings(ram, v, c)
    ensures v.num == |c.avail| == |c.used| && v.num > 0 && v.avail + 4 + 2 * v.num < B64
    ensures v.used + 6 + 8 * v.num < B64 && AvailIdx(ram, v) == Ok(c.availIdx)
    ensures forall i :: 0 <= i < v.num ==> AvailRing(ram, v, i) == Ok(c.avail[i])
  {
  }

  /** The cells after one more used entry. */
  function WithUsed(c: Cells, usedIdx: u16, req: Request): Cells
    requires |c.used| > 0
  {
    c.(used := c.used[usedIdx % |c.used| := Elem(req.index, req.inLen)], usedIdx := (usedIdx + 1) % B16)
  }

  /** Storing one field of a used entry changes that field of that entry only. */
  lemma StoreField(ram: Ram, v: Vring, c: Cells, i: nat, second: bool, x: u32)
    requires Rings(ram, v, c) && i < v.num
    ensures var w := WritePhys(ram, Wrap(SlotAt(v, i) + if second then 4 else 0), 4, x);
            var e := c.used[i];
            var c' := c.(used := c.used[i := if second then Elem(e.id, x) else Elem(x, e.len)]);
            w.Ok? && Rings(w.value, v, c')
  {
    hide ReadPhys, WritePhys;
    var pa := SlotAt(v, i) + if second then 4 else 0;
    var ram' := StoreAt(ram, v, c, pa, 4, x);
    var e := c.used[i];
    var c' := c.(used := c.used[i := if second then Elem(e.id, x) else Elem(x, e.len)]);
    forall j | 0 <= j < v.num ensures ElemAt(ram', v, j, c'.used[j]) {
      assert ElemAt(ram, v, j, c.used[j]);
      Kept(ram, ram', pa, 4, SlotAt(v, j), 4);
      Kept(ram, ram', pa, 4, SlotAt(v, j) + 4, 4);
    }
    Kept(ram, ram', pa, 4, v.used + 2, 2);
  }

  lemma StoreIdx(ram: Ram, v: Vring, c: Cells, x: u16)
    requires Rings(ram, v, c)
    ensures var w := WritePhys(ram, Wrap(v.used + 2), 2, x);
            w.Ok? && Rings(w.value, v, c.(usedIdx := x))
  {
    hide ReadPhys, WritePhys;
    var ram' := StoreAt(ram, v, c, v.used + 2, 2, x);
    forall j | 0 <= j < v.num ensures ElemAt(ram', v, j, c.used[j]) {
      assert ElemAt(ram, v, j, c.used[j]);
      Kept(ram, ram', v.used + 2, 2, SlotAt(v, j), 4);
      Kept(ram, ram', v.used + 2, 2, SlotAt(v, j) + 4, 4);
    }
  }

  /** A store in the used ring leaves the available ring as it was. */
  lemma StoreAt(ram: Ram, v: Vring, c: Cells, pa: nat, n: nat, x: u32) returns (ram': Ram)
    requires Placed(ram, v) && AvailView(ram, v, c) && (n == 2 || n == 4) && x < Pow256(n)
    requires v.used <= pa && pa + n <= v.used + 6 + 8 * v.num
    ensures pa < B64 && WritePhys(ram, pa, n, x) == Ok(ram') && Wrap(pa) == pa
    ensures Placed(ram', v) && AvailView(ram', v, c) && ReadPhys(ram', pa, n) == Ok(x)
    ensures SameOutside(ram, ram', pa, n)
  {
    hide ReadPhys, WritePhys, SameOutside, Pow256;
    ram' := StoreInRam(ram, pa, n, x);
    forall i | 0 <= i < v.num ensures AvailRing(ram', v, i) == Ok(c.avail[i]) {
      Kept(ram, ram', pa, n, v.avail + 4 + 2 * i, 2);
    }
    Kept(ram, ram', pa, n, v.avail + 2, 2);
  }

  lemma StoreInRam(ram: Ram, pa: nat, n: nat, x: u32) returns (ram': Ram)
    requires (n == 2 || n == 4) && x < Pow256(n) && InRam(ram, pa, n) && pa < B64
    ensures WritePhys(ram, pa, n, x) == Ok(ram') && SameOutside(ram, ram', pa, n) && ReadPhys(ram', pa, n) == Ok(x)
  {
    ram' := WritePhys(ram, pa, n, x).value;
    ReadAfterWrite(ram, pa, n, x, pa, n);
  }

  lemma Kept(ram: Ram, ram': Ram, pa: nat, n: nat, pb: nat, m: nat)
    requires SameOutside(ram, ram', pa, n) && pa < B64 && pb < B64
    ensures Disjoint(pa, n, pb, m) ==> ReadPhys(ram', pb, m) == ReadPhys(ram, pb, m)
    ensures Wrap(pb) == pb
  {
    if Disjoint(pa, n, pb, m) { BlobSkips(ram, ram', pa, n, pb, m); }
  }

  lemma WrapTwice(x: nat, k: nat)
    ensures Wrap(Wrap(x) + k) == Wrap(x + k)
  {
  }

  /** vring_used_write fills the entry of its index modulo the ring size, then
      publishes the next index, and touches no other cell. */
  lemma UsedWriteView(ram: Ram, v: Vring, c: Cells, usedIdx: u16, req: Request)
    requires Rings(ram, v, c)
    ensures var w := UsedWrite(ram, v, usedIdx, req);
            && w.Ok? && w.value.1 == (usedIdx + 1) % B16 && |c.used| > 0
            && Rings(w.value.0, v, WithUsed(c, usedIdx, req))
  {
    hide ReadPhys, WritePhys, Rings, Wrap;
    RingsShape(ram, v, c);
    var i := usedIdx % v.num;
    WrapTwice(SlotAt(v, i), 4);
    StoreField(ram, v, c, i, false, req.index);
    var ram1 := WritePhys(ram, Wrap(SlotAt(v, i)), 4, req.index).value;
    var c1 := c.(used := c.used[i := Elem(req.index, c.used[i].len)]);
    StoreField(ram1, v, c1, i, true, req.inLen);
    var ram2 := WritePhys(ram1, Wrap(SlotAt(v, i) + 4), 4, req.inLen).value;
    StoreIdx(ram2, v, c1.(used := c1.used[i := Elem(req.index, req.inLen)]), (usedIdx + 1) % B16);
    assert c1.used[i := Elem(req.index, req.inLen)] == c.used[i := Elem(req.index, req.inLen)];
  }

  /** vqueue_pop takes nothing exactly when the available index is the one it
      stopped at; otherwise its head is the cell of that index modulo the size. */
  lemma PopView(ram: Ram, v: Vring, c: Cells, last: u16, event: bool)
    requires Rings(ram, v, c)
    ensures Pop(ram, v, last, event) == Ok(None) <==> c.availIdx == last
    ensures var p := Pop(ram, v, last, event);
            p.Ok? && p.value.Some? ==>
              var (ram', next, req) := p.value.value;
              && v.num == |c.avail| > 0 && req.index == c.avail[last % v.num] && next == (last + 1) % B16
              && Rings(ram', v, c)
  {
    hide ReadPhys, WritePhys, DescAt, ReadIndirect, Rings, AvailIdx, AvailRing, EventStored;
    RingsShape(ram, v, c);
    assert AvailRing(ram, v, last % v.num) == Ok(c.avail[last % v.num]);
    EventKeeps(ram, v, c, (last + 1) % B16, event);
    IndirectHead(ram, v, last, event);
  }

  lemma IndirectHead(ram: Ram, v: Vring, last: u16, event: bool)
    ensures var p := Pop(ram, v, last, event);
            p.Ok? && p.value.Some? ==> v.num > 0 && AvailRing(ram, v, last % v.num) == Ok(p.value.value.2.index)
  {
    hide ReadPhys, WritePhys, DescAt, Follow, AvailRing, EventStored;
  }

  lemma StoreEvent(ram: Ram, v: Vring, c: Cells, x: u16)
    requires Rings(ram, v, c)
    ensures var w := WritePhys(ram, Wrap(v.used + 4 + 8 * v.num), 2, x);
            w.Ok? && Rings(w.value, v, c)
  {
    hide ReadPhys, WritePhys;
    var pa := v.used + 4 + 8 * v.num;
    var ram' := StoreAt(ram, v, c, pa, 2, x);
    forall j | 0 <= j < v.num ensures ElemAt(ram', v, j, c.used[j]) {
      assert ElemAt(ram, v, j, c.used[j]);
      Kept(ram, ram', pa, 2, SlotAt(v, j), 4);
      Kept(ram, ram', pa, 2, SlotAt(v, j) + 4, 4);
    }
    Kept(ram, ram', pa, 2, v.used + 2, 2);
  }

  lemma EventKeeps(ram: Ram, v: Vring, c: Cells, x: u16, event: bool)
    requires Rings(ram, v, c)
    ensures EventStored(ram, v, x, event).Ok? && Rings(EventStored(ram, v, x, event).value, v, c)
  {
    hide Rings;
    if event { StoreEvent(ram, v, c, x); }
  }

  /** The event index is one cell: the last store to it is what remains. */
  lemma EventTwice(ram: Ram, v: Vring, x: u16, y: u16, event: bool)
    requires EventStored(ram, v, x, event).Ok?
    ensures EventStored(EventStored(ram, v, x, event).value, v, y, event) == EventStored(ram, v, y, event)
  {
    hide ToBytes;
    if event {
      var pa := Wrap(v.used + 4 + 8 * v.num);
      var ram1 := WritePhys(ram, pa, 2, x).value;
      assert Splice(ram1, pa, ToBytes(y, 2)) == Splice(ram, pa, ToBytes(y, 2));
    }
  }

  /** The head is in the ring, and its descriptor names a table that holds a chain
      of at most 1024 descriptors. */
  ghost predicate Poppable(ram: Ram, v: Vring, head: nat) {
    && head < v.num
    && var d := DescAt(ram, Wrap(v.desc + head * DESC_SIZE));
       d.Ok? && d.value.Indirect() && d.value.len > 0 && d.value.len % DESC_SIZE == 0
       && exists ds: seq<Desc> :: IsChain(ram, d.value.addr, ds) && |ds| <= MAX_CHAIN
  }

  lemma IndirectOkIff(ram: Ram, head: u32, addr: u64, len: u32)
    ensures ReadIndirect(ram, head, addr, len).Ok?
       <==> len > 0 && len % DESC_SIZE == 0 && exists ds: seq<Desc> :: IsChain(ram, addr, ds) && |ds| <= MAX_CHAIN
  {
    var r := Follow(ram, addr, addr, 0);
    if r.Ok? {
      FollowIsChain(ram, addr, addr, 0, r.value);
      assert IsChain(ram, addr, r.value);
    }
    if ds: seq<Desc> :| IsChain(ram, addr, ds) && |ds| <= MAX_CHAIN {
      FollowIsChain(ram, addr, addr, 0, ds);
    }
  }

  /** A pop at unequal indices succeeds exactly when the waiting head is poppable,
      in RAM as the event store leaves it. */
  lemma PopOkIff(ram: Ram, v: Vring, c: Cells, last: u16, event: bool)
    requires Rings(ram, v, c) && c.availIdx != last
    ensures var e := EventStored(ram, v, (last + 1) % B16, event);
            && e.Ok? && v.num == |c.avail| > 0
            && (Pop(ram, v, last, event).Ok? <==> Poppable(e.value, v, c.avail[last % v.num]))
  {
    hide ReadPhys, WritePhys, DescAt, ReadIndirect, Rings, AvailIdx, AvailRing, EventStored, IsChain;
    RingsShape(ram, v, c);
    var head := c.avail[last % v.num];
    assert AvailRing(ram, v, last % v.num) == Ok(head);
    EventKeeps(ram, v, c, (last + 1) % B16, event);
    var ram' := EventStored(ram, v, (last + 1) % B16, event).value;
    var d := DescAt(ram', Wrap(v.desc + head * DESC_SIZE));
    if d.Ok? { IndirectOkIff(ram', head, d.value.addr, d.value.len); }
  }
}

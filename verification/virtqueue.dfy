/** The device side of a virtqueue (virtio.c), working on guest RAM in place. */
module Virtqueue {
  import opened Wrappers
  import opened Words
  import opened Memory
  import opened AddressSpace
  import opened Decode
  import opened VirtioRing

  class VQueue {
    const bus: Bus
    var num: u32
    var align: u32
    var desc: u64
    var avail: u64
    var used: u64
    var lastAvailIdx: u16
    var usedIdx: u16

    constructor (bus: Bus)
      ensures this.bus == bus && Ring() == Vring(0, 0, 0, 0, 0) && lastAvailIdx == 0 && usedIdx == 0
    {
      this.bus := bus;
      num, align, desc, avail, used, lastAvailIdx, usedIdx := 0, 0, 0, 0, 0, 0, 0;
    }

    function Ring(): Vring
      reads this
    {
      Vring(num, align, desc, avail, used)
    }

    /** vring_init */
    method InitVring(pfn: u64, pageShift: nat) returns (r: Outcome<()>)
      modifies this
      ensures match InitRing(old(Ring()), pfn, pageShift)
              case Ok(v) => r.Ok? && Ring() == v
              case Stop(why) => r == Stop(why)
      ensures lastAvailIdx == old(lastAvailIdx) && usedIdx == old(usedIdx)
    {
      desc := Wrap(pfn * Pow2(pageShift));
      if num == 0 || desc == 0 || align == 0 { return Stop(Panic); }
      avail := Wrap(desc + num * DESC_SIZE);
      used := AlignUpWord(Wrap(avail + 4 + 2 * num), align);
      return Ok(());
    }

    /** One descriptor, copied out of guest RAM. */
    method DescRead(pa: u64) returns (r: Outcome<Desc>)
      requires bus.Valid()
      ensures r == DescAt(bus.mem[..], pa)
    {
      var b := new u8[DESC_SIZE];
      var ok := bus.ReadBlobInto(pa, DESC_SIZE, b);
      if ok.Stop? { return Stop(ok.reason); }
      assert b[..] == ReadBlob(bus.mem[..], pa, DESC_SIZE).value;
      return Ok(ParseDesc(b[..]));
    }

    /** vring_desc_read_indirect */
    method DescReadIndirect(head: u32, addr: u64, len: u32) returns (r: Outcome<Request>)
      requires bus.Valid()
      ensures r == ReadIndirect(bus.mem[..], head, addr, len)
    {
      hide DescAt, Iovs, WritableBytes;
      if len == 0 || len % DESC_SIZE != 0 { return Stop(Panic); }
      ghost var ram := bus.mem[..];
      ghost var ds: seq<Desc> := [];
      OneMore(ds, Desc(0, 0, 0, 0));
      var pa, inLen: u32, iov: seq<Iov>, more := addr, 0, [], true;
      while more
        invariant |ds| <= MAX_CHAIN && iov == Iovs(ds) && inLen == WritableBytes(ds) % B32
        invariant if more then Follow(ram, addr, addr, 0) == Prepend(ds, Follow(ram, addr, pa, |ds|))
                  else Follow(ram, addr, addr, 0) == Ok(ds)
        decreases more, MAX_CHAIN - |ds|
      {
        if |iov| >= MAX_CHAIN { return Stop(Undefined); }
        var d := DescRead(pa);
        if d.Stop? { return Stop(d.reason); }
        if d.value.Writable() {
          inLen := (inLen + d.value.len) % B32;
        }
        OneMore(ds, d.value);
        assert Follow(ram, addr, pa, |ds|) == if !d.value.HasNext() then Ok([d.value])
               else Prepend([d.value], Follow(ram, addr, After(addr, d.value), |ds| + 1));
        iov := iov + [Iov(d.value.addr, d.value.len, d.value.Writable())];
        ds := ds + [d.value];
        more := d.value.HasNext();
        pa := Wrap(addr + d.value.next * DESC_SIZE);
      }
      return Ok(Request(head, inLen, iov));
    }

    /** vqueue_pop */
    method Pop(event: bool) returns (r: Outcome<Option<Request>>)
      requires bus.Valid()
      modifies this`lastAvailIdx, bus.mem
      ensures match VirtioRing.Pop(old(bus.mem[..]), Ring(), old(lastAvailIdx), event)
              case Ok(None) => r == Ok(None) && bus.mem[..] == old(bus.mem[..]) && lastAvailIdx == old(lastAvailIdx)
              case Ok(Some((ram', next, req))) =>
                r == Ok(Some(req)) && bus.mem[..] == ram' && lastAvailIdx == next
              case Stop(why) => r == Stop(why)
    {
      hide ReadPhys, WritePhys, RamWrite, DescAt, ReadIndirect;
      var idx := bus.ReadNommu(Wrap(avail + 2), 2);
      if idx.Stop? { return Stop(idx.reason); }
      if idx.value == lastAvailIdx { return Ok(None); }
      if num == 0 { return Stop(Undefined); }
      var head := bus.ReadNommu(Wrap(avail + 4 + 2 * (lastAvailIdx % num)), 2);
      if head.Stop? { return Stop(head.reason); }
      if head.value >= num { return Stop(Panic); }
      lastAvailIdx := (lastAvailIdx + 1) % B16;
      if event {
        PlainWrite(bus.mem[..], Wrap(used + 4 + 8 * num), 2, lastAvailIdx);
        var w := bus.WriteNommu(Wrap(used + 4 + 8 * num), 2, lastAvailIdx, Plain);
        if w.Stop? { return Stop(w.reason); }
      }
      var d := DescRead(Wrap(desc + head.value * DESC_SIZE));
      if d.Stop? { return Stop(d.reason); }
      if !d.value.Indirect() { return Stop(Panic); }
      var req := DescReadIndirect(head.value, d.value.addr, d.value.len);
      if req.Stop? { return Stop(req.reason); }
      return Ok(Some(req.value));
    }

    /** vring_used_write */
    method UsedWrite(req: Request) returns (r: Outcome<()>)
      modifies this`usedIdx, bus.mem
      ensures match VirtioRing.UsedWrite(old(bus.mem[..]), Ring(), old(usedIdx), req)
              case Ok((ram', next)) => r.Ok? && bus.mem[..] == ram' && usedIdx == next
              case Stop(why) => r == Stop(why)
    {
      hide ReadPhys, WritePhys, RamWrite;
      if num == 0 { return Stop(Undefined); }
      var pa: int := Wrap(used + 4 + 8 * (usedIdx % num));
      PlainWrite(bus.mem[..], pa, 4, req.index);
      var w := bus.WriteNommu(pa, 4, req.index, Plain);
      if w.Stop? { return Stop(w.reason); }
      PlainWrite(bus.mem[..], Wrap(pa + 4), 4, req.inLen);
      w := bus.WriteNommu(Wrap(pa + 4), 4, req.inLen, Plain);
      if w.Stop? { return Stop(w.reason); }
      usedIdx := (usedIdx + 1) % B16;
      PlainWrite(bus.mem[..], Wrap(used + 2), 2, usedIdx);
      w := bus.WriteNommu(Wrap(used + 2), 2, usedIdx, Plain);
      if w.Stop? { return Stop(w.reason); }
      return Ok(());
    }
  }

  function Prepend(ds: seq<Desc>, rest: Outcome<seq<Desc>>): Outcome<seq<Desc>> {
    match rest
    case Ok(es) => Ok(ds + es)
    case Stop(why) => Stop(why)
  }

  lemma OneMore(ds: seq<Desc>, d: Desc)
    ensures Iovs(ds + [d]) == Iovs(ds) + [IovOf(d)]
    ensures WritableBytes(ds + [d]) == WritableBytes(ds) + if d.Writable() then d.len else 0
    ensures Prepend(ds, Ok([d])) == Ok(ds + [d]) && Iovs([]) == [] && WritableBytes([]) == 0
    ensures forall rest :: Prepend([], rest) == rest
    ensures forall rest :: Prepend(ds, Prepend([d], rest)) == Prepend(ds + [d], rest)
  {
    assert (ds + [d])[..|ds|] == ds;
    forall rest: Outcome<seq<Desc>> ensures Prepend([], rest) == rest {
      if rest.Ok? { assert [] + rest.value == rest.value; }
    }
    forall rest ensures Prepend(ds, Prepend([d], rest)) == Prepend(ds + [d], rest) {
      if rest.Ok? { assert ds + ([d] + rest.value) == ds + [d] + rest.value; }
    }
  }
}

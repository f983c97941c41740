/** The worker's side of a block request (virtio_blk.c), in place on guest RAM and
    the disk file. */
module BlockWorker {
  import opened Wrappers
  import opened Words
  import opened Memory
  import opened AddressSpace
  import opened Decode
  import opened VirtioRing
  import opened Virtqueue
  import opened BlockDevice

  class BlkDevice {
    const bus: Bus
    const vq: VQueue
    var disk: Disk
    var isr: u8
    var signalled: bool   // plic_signal was called

    predicate Valid()
      reads this
    {
      vq.bus == bus && bus.Valid()
    }

    constructor (vq: VQueue, disk: Disk)
      requires vq.bus.Valid()
      ensures Valid() && this.vq == vq && this.disk == disk && isr == 0 && !signalled
    {
      this.bus, this.vq, this.disk, isr, signalled := vq.bus, vq, disk, 0, false;
    }

    /** The device after serving what `s` says, with its interrupt raised. */
    ghost predicate After(s: Served)
      reads this, bus.mem, vq
    {
      bus.mem[..] == s.ram && disk == s.disk && vq.usedIdx == s.usedIdx && signalled && isr % 2 == 1
    }

    /** _complete */
    method Complete(req: Request) returns (r: Outcome<()>)
      requires Valid() && |req.iov| > 0
      modifies this`isr, this`signalled, bus.mem, vq`usedIdx
      ensures match BlockDevice.Complete(old(bus.mem[..]), vq.Ring(), old(vq.usedIdx), req)
              case Ok((ram', next)) => r.Ok? && After(Served(ram', disk, next)) && isr / 2 == old(isr) / 2
              case Stop(why) => r == Stop(why)
    {
      hide ReadPhys, WritePhys, RamWrite, VirtioRing.UsedWrite;
      PlainWrite(bus.mem[..], req.iov[|req.iov| - 1].base, 1, 0);
      var w := bus.WriteNommu(req.iov[|req.iov| - 1].base, 1, 0, Plain);
      if w.Stop? { return Stop(w.reason); }
      r := vq.UsedWrite(req);
      if r.Stop? { return; }
      isr := isr / 2 * 2 + 1;
      signalled := true;
    }

    /** _handle_read */
    method HandleRead(req: Request, sector: u64) returns (r: Outcome<()>)
      requires Valid()
      modifies this`isr, this`signalled, bus.mem, vq`usedIdx
      ensures match BlockDevice.HandleRead(old(bus.mem[..]), disk, vq.Ring(), old(vq.usedIdx), req, sector)
              case Ok(s) => r.Ok? && After(s)
              case Stop(why) => r == Stop(why)
    {
      hide FileRead, WriteBlob, BlockDevice.Complete, FilePos;
      if |req.iov| < 3 { return Stop(Panic); }
      var fp := FilePos(sector);
      if fp.Stop? { return Stop(fp.reason); }
      var pos: nat, i: nat := fp.value, 1;
      ghost var ram, start := bus.mem[..], fp.value;
      while i < |req.iov| - 1
        invariant 1 <= i <= |req.iov| - 1 && pos >= 0
        invariant Scatter(ram, disk, start, DataBufs(req)) == Scatter(bus.mem[..], disk, pos, req.iov[i..|req.iov| - 1])
        invariant vq.usedIdx == old(vq.usedIdx)
      {
        var data := FileRead(disk, pos, req.iov[i].len);
        if data.Stop? { return Stop(data.reason); }
        var w := bus.WriteBlobFrom(req.iov[i].base, data.value);
        if w.Stop? { return Stop(w.reason); }
        assert req.iov[i..|req.iov| - 1][1..] == req.iov[i + 1..|req.iov| - 1];
        pos, i := pos + req.iov[i].len, i + 1;
      }
      r := Complete(req);
    }

    /** _handle_write */
    method HandleWrite(req: Request, sector: u64) returns (r: Outcome<()>)
      requires Valid()
      modifies this, bus.mem, vq`usedIdx
      ensures match BlockDevice.HandleWrite(old(bus.mem[..]), old(disk), vq.Ring(), old(vq.usedIdx), req, sector)
              case Ok(s) => r.Ok? && After(s)
              case Stop(why) => r == Stop(why)
    {
      hide ReadBlob, FileWrite, BlockDevice.Complete, FilePos;
      if |req.iov| != 3 { return Stop(Panic); }
      var data := new u8[req.iov[1].len];
      var b := bus.ReadBlobInto(req.iov[1].base, req.iov[1].len, data);
      if b.Stop? { return Stop(b.reason); }
      ghost var all := ReadBlob(bus.mem[..], req.iov[1].base, req.iov[1].len);
      assert all.value + [] == all.value && data[..] == all.value;
      var fp := FilePos(sector);
      if fp.Stop? { return Stop(fp.reason); }
      disk := FileWrite(disk, fp.value, data[..]);
      r := Complete(req);
    }

    /** _handle_flush */
    method HandleFlush(req: Request) returns (r: Outcome<()>)
      requires Valid()
      modifies this`isr, this`signalled, bus.mem, vq`usedIdx
      ensures match BlockDevice.HandleFlush(old(bus.mem[..]), disk, vq.Ring(), old(vq.usedIdx), req)
              case Ok(s) => r.Ok? && After(s)
              case Stop(why) => r == Stop(why)
    {
      hide BlockDevice.Complete;
      if |req.iov| != 2 { return Stop(Panic); }
      r := Complete(req);
    }

    /** _do_request */
    method DoRequest(req: Request) returns (r: Outcome<()>)
      requires Valid()
      modifies this, bus.mem, vq`usedIdx
      ensures match Serve(old(bus.mem[..]), old(disk), vq.Ring(), old(vq.usedIdx), req)
              case Ok(s) => r.Ok? && After(s)
              case Stop(why) => r == Stop(why)
    {
      hide BlockDevice.HandleRead, BlockDevice.HandleWrite, BlockDevice.HandleFlush, ReadBlob;
      if |req.iov| == 0 { return Stop(Undefined); }
      if req.iov[0].len != HEADER_SIZE || req.iov[0].write { return Stop(Panic); }
      var b := new u8[HEADER_SIZE];
      var ok := bus.ReadBlobInto(req.iov[0].base, HEADER_SIZE, b);
      if ok.Stop? { return Stop(ok.reason); }
      ghost var all := ReadBlob(bus.mem[..], req.iov[0].base, HEADER_SIZE);
      assert all.value + [] == all.value && b[..] == all.value;
      var h := ParseHeader(b[..]);
      if h.Plain() == 0 {
        if h.Out() {
          r := HandleWrite(req, h.sector);
        } else {
          r := HandleRead(req, h.sector);
        }
      } else if h.Plain() == 4 {
        r := HandleFlush(req);
      } else {
        return Stop(Panic);
      }
    }
  }
}

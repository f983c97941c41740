/** The memory-mapped registers of a virtio device (virtio_mmio.c): queue set-up,
    the notify loop and interrupt acknowledgement. */
module VirtioMmio {
  import opened Wrappers
  import opened Words
  import opened Memory
  import opened Fields
  import opened VirtioRing
  import opened Virtqueue

  const DEVICE_FEATURES_SEL := 0x014
  const DRIVER_FEATURES := 0x020
  const DRIVER_FEATURES_SEL := 0x024
  const GUEST_PAGE_SIZE := 0x028
  const QUEUE_SEL := 0x030
  const QUEUE_NUM := 0x038
  const QUEUE_ALIGN := 0x03c
  const QUEUE_PFN := 0x040
  const QUEUE_NOTIFY := 0x050
  const INTERRUPT_ACK := 0x064
  const STATUS := 0x070
  const QUEUE_MAX := 1024

  /** The trailing zero bits of a nonzero word. */
  function TrailingZeros(x: nat): nat
    requires x > 0
  {
    if x % 2 == 1 then 0 else 1 + TrailingZeros(x / 2)
  }

  /** The page shift kept for a guest page size: ctz32 of it, and 0 for 0. */
  function PageShift(size: u32): nat { if size == 0 then 0 else TrailingZeros(size) }

  /** The shift is the place of the lowest bit that is set. */
  lemma {:induction false} LowestBit(x: nat, k: nat)
    requires x > 0
    ensures BitOf(x, TrailingZeros(x)) && (k < TrailingZeros(x) ==> !BitOf(x, k))
    decreases x
  {
    if x % 2 == 1 {
    } else {
      LowestBit(x / 2, if k == 0 then 0 else k - 1);
    }
  }

  /** A page size of 2^k bytes gives a shift of k. */
  lemma {:induction false} ShiftOfPower(k: nat)
    ensures TrailingZeros(Pow2(k)) == k
  {
    if k == 0 {
    } else {
      ShiftOfPower(k - 1);
    }
  }

  /** A driver that sets its page size to 2^k and then gives a page number puts
      the queue at that page. */
  lemma QueueAtPage(v: Vring, k: nat, pfn: u64)
    requires 0 < Pow2(k) < B32 && 0 < pfn * Pow2(k) < B64 && v.num > 0 && v.align > 0
    ensures InitRing(v, pfn, PageShift(Pow2(k))) == Ok(LaidOut(v, pfn * Pow2(k)))
  {
    hide LaidOut, Pow2;
    ShiftOfPower(k);
    Fits(pfn * Pow2(k));
  }

  /** How many requests the notify loop finds. */
  function Waiting(availIdx: u16, last: u16): nat { (availIdx - last) % B16 }

  lemma OneFewer(availIdx: u16, last: u16)
    requires availIdx != last
    ensures Waiting(availIdx, last) > 0 && Waiting(availIdx, (last + 1) % B16) == Waiting(availIdx, last) - 1
  {
  }

  /** The k-th index after `last`. */
  function At(last: u16, k: nat): u16 { (last + k) % B16 }

  lemma AtNext(last: u16, k: nat)
    ensures At(last, 0) == last && (At(last, k) + 1) % B16 == At(last, k + 1)
  {
  }

  /** `reqs` are requests for the heads from index `last` on, in ring order. */
  predicate HeadsFrom(c: Cells, last: u16, reqs: seq<Request>) {
    |c.avail| > 0 && forall k :: 0 <= k < |reqs| ==> reqs[k].index == c.avail[At(last, k) % |c.avail|]
  }

  // ------------------------------------------------------- one notification

  /** What the notify loop does: pop until the ring is empty, from index `last` on.
      The memory left, the next index, and the requests in order. */
  ghost function PopAll(ram: Ram, v: Vring, c: Cells, last: u16, event: bool): Outcome<(Ram, u16, seq<Request>)>
    requires Rings(ram, v, c)
    decreases Waiting(c.availIdx, last)
  {
    PopView(ram, v, c, last, event);
    match Pop(ram, v, last, event)
    case Stop(why) => Stop(why)
    case Ok(None) => Ok((ram, last, []))
    case Ok(Some((ram', next, req))) =>
      OneFewer(c.availIdx, last);
      var rest :- PopAll(ram', v, c, next, event);
      Ok((rest.0, rest.1, [req] + rest.2))
  }

  /** A notification hands over every waiting request, in ring order, and leaves
      both rings as they were. */
  lemma {:induction false} PopAllMeaning(ram: Ram, v: Vring, c: Cells, last: u16, event: bool)
    requires Rings(ram, v, c) && PopAll(ram, v, c, last, event).Ok?
    ensures var (ram', next, reqs) := PopAll(ram, v, c, last, event).value;
            && next == c.availIdx && |reqs| == Waiting(c.availIdx, last)
            && HeadsFrom(c, last, reqs) && Rings(ram', v, c)
    decreases Waiting(c.availIdx, last)
  {
    hide Rings, Pop, Waiting, At;
    RingsShape(ram, v, c);
    PopView(ram, v, c, last, event);
    if c.availIdx == last {
      NoneWaiting(last);
    } else {
      var (ram', next, req) := Pop(ram, v, last, event).value.value;
      OneFewer(c.availIdx, last);
      PopAllMeaning(ram', v, c, next, event);
      var reqs := PopAll(ram, v, c, last, event).value.2;
      AtNext(last, 0);
      forall k | 0 <= k < |reqs| ensures reqs[k].index == c.avail[At(last, k) % |c.avail|] {
        if k > 0 { AtShift(last, k - 1); }
      }
    }
  }

  /** The memory the k-th pop of a notification reads its descriptors from. */
  function SeenBy(ram: Ram, v: Vring, last: u16, k: nat, event: bool): Outcome<Ram> {
    EventStored(ram, v, At(last, k + 1), event)
  }

  /** The k-th waiting head can be popped. */
  ghost predicate Ready(ram: Ram, v: Vring, c: Cells, last: u16, event: bool, k: nat) {
    && |c.avail| > 0 && SeenBy(ram, v, last, k, event).Ok?
    && Poppable(SeenBy(ram, v, last, k, event).value, v, c.avail[At(last, k) % |c.avail|])
  }

  /** A notification succeeds exactly when every waiting head lies in the ring and
      its indirect descriptor names a table that holds a chain of at most 1024. */
  lemma {:induction false} PopAllOkIff(ram: Ram, v: Vring, c: Cells, last: u16, event: bool)
    requires Rings(ram, v, c)
    ensures PopAll(ram, v, c, last, event).Ok?
       <==> forall k: nat :: k < Waiting(c.availIdx, last) ==> Ready(ram, v, c, last, event, k)
    decreases Waiting(c.availIdx, last)
  {
    hide Rings, Pop, Waiting, At, Poppable, EventStored;
    RingsShape(ram, v, c);
    PopView(ram, v, c, last, event);
    if c.availIdx == last {
      NoneWaiting(last);
    } else {
      OneFewer(c.availIdx, last);
      AtNext(last, 0);
      PopOkIff(ram, v, c, last, event);
      assert Ready(ram, v, c, last, event, 0) <==> Pop(ram, v, last, event).Ok?;
      if Pop(ram, v, last, event).Ok? {
        var (ram', next, _) := Pop(ram, v, last, event).value.value;
        PopMemory(ram, v, last, event);
        PopAllOkIff(ram', v, c, next, event);
        forall k: nat | k < Waiting(c.availIdx, next)
          ensures Ready(ram', v, c, next, event, k) <==> Ready(ram, v, c, last, event, k + 1)
        {
          AtShift(last, k);
          AtShift(last, k + 1);
          EventTwice(ram, v, next, At(next, k + 1), event);
        }
        ReadyShift(ram, ram', v, c, last, next, event);
      }
    }
  }

  /** Readiness of all from the second on is readiness of all in the rest. */
  lemma ReadyShift(ram: Ram, ram': Ram, v: Vring, c: Cells, last: u16, next: u16, event: bool)
    requires Waiting(c.availIdx, last) == Waiting(c.availIdx, next) + 1
    requires forall k: nat :: k < Waiting(c.availIdx, next) ==>
               (Ready(ram', v, c, next, event, k) <==> Ready(ram, v, c, last, event, k + 1))
    ensures (Ready(ram, v, c, last, event, 0)
             && forall k: nat :: k < Waiting(c.availIdx, next) ==> Ready(ram', v, c, next, event, k))
       <==> forall k: nat :: k < Waiting(c.availIdx, last) ==> Ready(ram, v, c, last, event, k)
  {
    hide Ready, Waiting;
    if forall k: nat :: k < Waiting(c.availIdx, last) ==> Ready(ram, v, c, last, event, k) {
      forall k: nat | k < Waiting(c.availIdx, next) ensures Ready(ram', v, c, next, event, k) {
        assert Ready(ram, v, c, last, event, k + 1);
      }
      assert Ready(ram, v, c, last, event, 0);
    } else {
      var k: nat :| k < Waiting(c.availIdx, last) && !Ready(ram, v, c, last, event, k);
      if k > 0 { assert Ready(ram', v, c, next, event, k - 1) <==> Ready(ram, v, c, last, event, k - 1 + 1); }
    }
  }

  lemma PopMemory(ram: Ram, v: Vring, last: u16, event: bool)
    requires Pop(ram, v, last, event).Ok? && Pop(ram, v, last, event).value.Some?
    ensures var (ram', next, _) := Pop(ram, v, last, event).value.value;
            next == (last + 1) % B16 && EventStored(ram, v, next, event) == Ok(ram')
  {
    hide AvailIdx, AvailRing, EventStored, DescAt, ReadIndirect;
  }

  lemma AtShift(last: u16, k: nat)
    ensures At((last + 1) % B16, k) == At(last, k + 1)
  {
  }

  lemma NoneWaiting(availIdx: u16)
    ensures Waiting(availIdx, availIdx) == 0
  {
  }

  // -------------------------------------------------------------- the registers

  /** A queue page number is accepted when it is 0, or gives a nonzero base for a
      queue whose size and alignment are set. */
  predicate PfnAccepted(v: Vring, pfn: u64, shift: nat) {
    pfn != 0 ==> v.num != 0 && v.align != 0 && Wrap(pfn * Pow2(shift)) != 0
  }

  /** isr &= (uint8_t)(~data) */
  function Acked(isr: u8, data: u64): u8 {
    Pow2Of64();
    Gated(AndGate, isr, 0xff - data % 0x100, 8)
  }

  lemma AckedBits(isr: u8, data: u64, k: nat)
    requires k < 8
    ensures BitOf(Acked(isr, data), k) <==> BitOf(isr, k) && !BitOf(data, k)
  {
    hide BitOf, Gated;
    Pow2Of64();
    GatedBit(AndGate, isr, 0xff - data % 0x100, 8, k);
    NotBit(data % 0x100, 8, k);
    LowBit(data, 8, k);
  }

  lemma EventBit(features: u64)
    ensures BitOf(features, 29) <==> features / 0x2000_0000 % 2 == 1
  {
    assert Pow2(29) == 0x2000_0000 by {
      Pow2Of64();
      assert Pow2(32) == 8 * Pow2(29);
    }
    BitOfIs(features, 29);
  }

  class MmioDevice {
    const vq: VQueue
    var hostFeaturesSel: bool
    var guestFeaturesSel: bool
    var guestFeatures: u64
    var guestPageShift: nat
    var queueSel: u16
    var status: u8
    var isr: u8
    var handed: seq<Request>   // requests given to the device, in order

    constructor (vq: VQueue)
      ensures this.vq == vq && handed == [] && guestPageShift == 0 && isr == 0
    {
      this.vq := vq;
      hostFeaturesSel, guestFeaturesSel, guestFeatures, guestPageShift := false, false, 0, 0;
      queueSel, status, isr, handed := 0, 0, 0, [];
    }

    /** The guest negotiated event indices (feature bit 29). */
    predicate EventIdx(): (b: bool)
      reads this`guestFeatures
      ensures b <==> BitOf(guestFeatures, 29)
    {
      EventBit(guestFeatures);
      guestFeatures / 0x2000_0000 % 2 == 1
    }

    /** The loop of a queue notification. */
    method Notify(ghost c: Cells) returns (r: Outcome<()>)
      requires vq.bus.Valid() && Rings(vq.bus.mem[..], vq.Ring(), c)
      modifies this`handed, vq`lastAvailIdx, vq.bus.mem
      ensures match PopAll(old(vq.bus.mem[..]), vq.Ring(), c, old(vq.lastAvailIdx), EventIdx())
              case Ok((ram', next, reqs)) =>
                r.Ok? && vq.bus.mem[..] == ram' && vq.lastAvailIdx == next && handed == old(handed) + reqs
              case Stop(why) => r == Stop(why)
    {
      hide Rings, VirtioRing.Pop, Waiting, EventIdx;
      ghost var all := PopAll(vq.bus.mem[..], vq.Ring(), c, vq.lastAvailIdx, EventIdx());
      ghost var reqs: seq<Request> := [];
      BeforeNone(reqs, all);
      var more := true;
      while more
        invariant Rings(vq.bus.mem[..], vq.Ring(), c) && handed == old(handed) + reqs
        invariant if more
                  then all == Before(reqs, PopAll(vq.bus.mem[..], vq.Ring(), c, vq.lastAvailIdx, EventIdx()))
                  else all == Ok((vq.bus.mem[..], vq.lastAvailIdx, reqs))
        decreases more, Waiting(c.availIdx, vq.lastAvailIdx)
      {
        ghost var rest := PopAll(vq.bus.mem[..], vq.Ring(), c, vq.lastAvailIdx, EventIdx());
        PopView(vq.bus.mem[..], vq.Ring(), c, vq.lastAvailIdx, EventIdx());
        if c.availIdx != vq.lastAvailIdx { OneFewer(c.availIdx, vq.lastAvailIdx); }
        var req := vq.Pop(EventIdx());
        if req.Stop? { return Stop(req.reason); }
        if req.value.Some? {
          ghost var later := PopAll(vq.bus.mem[..], vq.Ring(), c, vq.lastAvailIdx, EventIdx());
          assert rest == Before([req.value.value], later);
          BeforeBefore(reqs, req.value.value, later);
          handed := handed + [req.value.value];
          reqs := reqs + [req.value.value];
        } else {
          BeforeNone(reqs, rest);
          more := false;
        }
      }
      return Ok(());
    }

    /** virtio_mmio_write, but for notification. */
    method WriteReg(addr: u64, data: u64, size: nat) returns (r: Outcome<()>)
      requires addr != QUEUE_NOTIFY
      modifies this, vq
      ensures r.Ok? <==> && size == 4
                         && addr in {0x14, 0x20, 0x24, 0x28, 0x30, 0x38, 0x3c, 0x40, 0x64, 0x70}
                         && (addr == 0x40 ==> PfnAccepted(old(vq.Ring()), data, old(guestPageShift)))
      ensures r.Stop? ==> r == Stop(Panic)
      ensures handed == old(handed) && vq.lastAvailIdx == old(vq.lastAvailIdx) && vq.usedIdx == old(vq.usedIdx)
      ensures r.Ok? ==>
                && hostFeaturesSel == (if addr == 0x14 then data != 0 else old(hostFeaturesSel))
                && guestFeaturesSel == (if addr == 0x24 then data != 0 else old(guestFeaturesSel))
                && guestFeatures == (if addr == 0x20 && !old(guestFeaturesSel) then data else old(guestFeatures))
                && guestPageShift == (if addr == 0x28 then PageShift(data % B32) else old(guestPageShift))
                && queueSel == (if addr == 0x30 && data < 1024 then data else old(queueSel))
                && status == (if addr == 0x70 then data % 0x100 else old(status))
                && (addr != 0x64 ==> isr == old(isr))
                && forall k: nat :: k < 8 ==>
                     (BitOf(isr, k) <==> BitOf(old(isr), k) && !(addr == 0x64 && BitOf(data, k)))
      ensures r.Ok? ==>
                Ok(vq.Ring()) == if addr == 0x38 then Ok(old(vq.Ring()).(num := data % B32))
                                 else if addr == 0x3c then Ok(old(vq.Ring()).(align := data % B32))
                                 else if addr == 0x40 && data == 0 then Ok(old(vq.Ring()).(desc := 0))
                                 else if addr == 0x40 then InitRing(old(vq.Ring()), data, old(guestPageShift))
                                 else Ok(old(vq.Ring()))
    {
      hide Acked, PageShift, BitOf;
      if size != 4 { return Stop(Panic); }
      r := Ok(());
      if addr == DEVICE_FEATURES_SEL {
        hostFeaturesSel := data != 0;
      } else if addr == DRIVER_FEATURES {
        if !guestFeaturesSel { guestFeatures := data; }
      } else if addr == DRIVER_FEATURES_SEL {
        guestFeaturesSel := data != 0;
      } else if addr == GUEST_PAGE_SIZE {
        guestPageShift := PageShift(Low32(data));
      } else if addr == QUEUE_SEL {
        if data < QUEUE_MAX { queueSel := data; }
      } else if addr == QUEUE_PFN {
        if data == 0 {
          vq.desc := 0;
        } else {
          r := vq.InitVring(data, guestPageShift);
        }
      } else if addr == QUEUE_NUM {
        vq.num := Low32(data);
      } else if addr == QUEUE_ALIGN {
        vq.align := Low32(data);
      } else if addr == INTERRUPT_ACK {
        isr := Acked(isr, data);
        forall k: nat | k < 8 ensures BitOf(isr, k) <==> BitOf(old(isr), k) && !BitOf(data, k) {
          AckedBits(old(isr), data, k);
        }
      } else if addr == STATUS {
        status := data % 0x100;
      } else {
        return Stop(Panic);
      }
    }
  }

  function Before(reqs: seq<Request>, rest: Outcome<(Ram, u16, seq<Request>)>): Outcome<(Ram, u16, seq<Request>)> {
    var r :- rest;
    Ok((r.0, r.1, reqs + r.2))
  }

  lemma BeforeNone(reqs: seq<Request>, rest: Outcome<(Ram, u16, seq<Request>)>)
    ensures Before([], rest) == rest
    ensures rest.Ok? && rest.value.2 == [] ==> Before(reqs, rest) == Ok((rest.value.0, rest.value.1, reqs))
  {
    if rest.Ok? { assert [] + rest.value.2 == rest.value.2 && reqs + [] == reqs; }
  }

  lemma BeforeBefore(reqs: seq<Request>, req: Request, rest: Outcome<(Ram, u16, seq<Request>)>)
    ensures Before(reqs, Before([req], rest)) == Before(reqs + [req], rest)
  {
    if rest.Ok? { assert reqs + ([req] + rest.value.2) == reqs + [req] + rest.value.2; }
  }
}

/** Instruction fetch (xemu.c:33-59): one access, or two when the instruction may
    cross a page, against its definition byte by byte. */
module Fetch {
  import opened Wrappers
  import opened Words
  import opened Memory
  import opened Fields
  import opened Hart
  import opened Translation
  import opened Execute

  datatype Fetched = Word(inst: u32) | Fault(s: State, to: u64)

  function FaultAt(s: State, pc: u64, tval: u64): Fetched {
    var (s', to) := Raise(s, pc, CAUSE_INST_PAGE_FAULT, tval);
    Fault(s', to)
  }

  function FetchAt(s: State, pc: u64): Outcome<Fetched> {
    if Wrap(pc + 2) % 0x1000 != 0 then
      var v :- ReadVirt(s, pc, 4);
      match v
      case None => Ok(FaultAt(s, pc, pc))
      case Some(inst) => Ok(Word(inst % B32))
    else
      var lo :- ReadVirt(s, pc, 2);
      match lo
      case None => Ok(FaultAt(s, pc, pc))
      case Some(l) =>
        var hi :- ReadVirt(s, Wrap(pc + 2), 2);
        match hi
        case None => Ok(FaultAt(s, pc, Wrap(pc + 2)))
        case Some(h) => Ok(Word((h * 0x1_0000 + l) % B32))
  }

  /** The byte k places after va, translated on its own. */
  function ByteAt(s: State, va: u64, k: nat): Outcome<Option<u64>> { ReadVirt(s, Wrap(va + k), 1) }

  lemma {:induction false} WalkSamePage4K(ram: Ram, table: nat, va: u64, wa: u64, level: Level)
    requires IsTable(table) && va / 0x1000 == wa / 0x1000
    ensures Walk(ram, table, va, level) == Walk(ram, table, wa, level)
    decreases level
  {
    SamePageAbove(va, wa, 0, level);
    assert Slot(table, va, level) == Slot(table, wa, level);
    var pte := ReadPhys(ram, Slot(table, va, level), 8);
    if pte.Ok? && level > 0 {
      WalkSamePage4K(ram, NextTable(pte.value), va, wa, level - 1);
    }
  }

  /** Within a 4 KiB page, translation commutes with adding an offset. */
  lemma TranslateOffset(s: State, va: u64, k: nat)
    requires va % 0x1000 + k < 0x1000
    ensures va + k < B64
    ensures match Translate(s, va)
            case Ok(Some(pa)) => pa + k < B64 && Translate(s, va + k) == Ok(Some(pa + k))
            case other => Translate(s, va + k) == other
  {
    hide Walk, FrameStart, Root;
    assert (va + k) / 0x1000 == va / 0x1000;
    if !Bare(s) {
      WalkSamePage4K(s.ram, Root(s), va, va + k, 2);
      var w := Walk(s.ram, Root(s), va, 2);
      if w.Ok? && w.value.Some? {
        OffsetInPage(va, k, w.value.value.1);
      }
    }
  }

  lemma OffsetInPage(va: u64, k: nat, l: Level)
    requires va % 0x1000 + k < 0x1000
    ensures (va + k) % PageSize(l) == va % PageSize(l) + k
  {
    var e := if l == 0 then 1 else if l == 1 then 0x200 else 0x4_0000;
    assert PageSize(l) == 0x1000 * e;
    var m := va % PageSize(l);
    var q := va / PageSize(l);
    assert va == PageSize(l) * q + m;
    AddMultiple(va, 0x1000, e * q, m) by { Assoc(0x1000, e, q); }
    assert m + k < PageSize(l) by { RoomForPage(m, e); }
    DivUnique(va + k, PageSize(l), q, m + k);
  }

  lemma RoomForPage(m: nat, e: nat)
    requires m < 0x1000 * e
    ensures m / 0x1000 * 0x1000 + 0x1000 <= 0x1000 * e
  {
  }

  function PhysByte(ram: Ram, pa: u64, k: nat): Outcome<u64> { ReadPhys(ram, Wrap(pa + k), 1) }

  lemma ReadBytes(ram: Ram, pa: u64, n: nat)
    requires (n == 2 || n == 4) && pa + n <= B64
    ensures ReadPhys(ram, pa, n).Ok? <==> PhysByte(ram, pa, 0).Ok? && PhysByte(ram, pa, n - 1).Ok?
    ensures ReadPhys(ram, pa, n).Ok? ==>
              && InRam(ram, pa, n) && ReadPhys(ram, pa, n) == Ok(FromBytes(Slice(ram, pa, n)))
              && forall k :: 0 <= k < n ==> PhysByte(ram, pa, k) == Ok(Slice(ram, pa, n)[k])
  {
    hide ReadPhys, PhysByte;
    ReadOk(ram, pa, n);
    ByteOk(ram, pa, 0);
    ByteOk(ram, pa, n - 1);
    if InRam(ram, pa, n) {
      forall k | 0 <= k < n ensures PhysByte(ram, pa, k) == Ok(Slice(ram, pa, n)[k]) { ReadOne(ram, pa, n, k); }
    }
  }

  lemma ReadOk(ram: Ram, pa: u64, n: nat)
    requires GoodSize(n)
    ensures ReadPhys(ram, pa, n).Ok? <==> InRam(ram, pa, n)
    ensures InRam(ram, pa, n) ==> ReadPhys(ram, pa, n) == Ok(FromBytes(Slice(ram, pa, n)))
  {
    hide FromBytes, Slice;
  }

  lemma ByteOk(ram: Ram, pa: u64, k: nat)
    requires pa + k < B64
    ensures PhysByte(ram, pa, k).Ok? <==> InRam(ram, pa + k, 1)
  {
    hide FromBytes, Slice;
  }

  lemma ReadOne(ram: Ram, pa: u64, n: nat, k: nat)
    requires InRam(ram, pa, n) && k < n && pa + n <= B64
    ensures PhysByte(ram, pa, k) == Ok(Slice(ram, pa, n)[k])
  {
    var b := Slice(ram, pa, n)[k];
    assert Slice(ram, pa + k, 1) == [b];
    assert [b][1..] == [] && FromBytes([b]) == b;
  }

  function Join2(b: seq<u8>): int
    requires |b| == 2
  {
    b[0] as int + 0x100 * (b[1] as int)
  }

  function Join4(b: seq<u8>): u32
    requires |b| == 4
  {
    b[0] as int + 0x100 * (b[1] as int) + 0x1_0000 * (b[2] as int) + 0x100_0000 * (b[3] as int)
  }

  lemma FromTwo(b: seq<u8>)
    requires |b| == 2
    ensures FromBytes(b) == Join2(b)
  {
    assert b[1..][1..] == [];
  }

  lemma FromFour(b: seq<u8>)
    requires |b| == 4
    ensures FromBytes(b) == Join4(b)
  {
    assert FromBytes(b) == b[0] as int + 0x100 * FromBytes(b[1..]);
    assert FromBytes(b[1..]) == b[1] as int + 0x100 * FromBytes(b[1..][1..]);
    assert b[1..][1..] == b[2..];
    FromTwo(b[2..]);
  }

  /** The n bytes at va, each translated on its own. */
  predicate Bytes(s: State, va: u64, n: nat, b: seq<u8>) {
    |b| == n && forall k :: 0 <= k < n ==> ByteAt(s, va, k) == Ok(Some(b[k]))
  }

  /** The k-th byte after va lies k bytes after the frame address of va. */
  predicate OffsetByte(s: State, va: u64, k: nat) {
    match Translate(s, va)
    case Ok(Some(pa)) =>
      var b := PhysByte(s.ram, pa, k);
      pa + k < B64 && ByteAt(s, va, k) == if b.Ok? then Ok(Some(b.value)) else Stop(b.reason)
    case Ok(None) => ByteAt(s, va, k) == Ok(None)
    case Stop(r) => ByteAt(s, va, k) == Stop(r)
  }

  lemma ByteOffset(s: State, va: u64, k: nat)
    requires va % 0x1000 + k < 0x1000
    ensures OffsetByte(s, va, k)
  {
    hide Translate, ReadPhys;
    TranslateOffset(s, va, k);
    assert Wrap(va + k) == va + k;
  }

  /** An n-byte read inside a page is n one-byte reads, each translated on its own:
      it goes through exactly when the first and the last do, and then either none
      of the bytes translates, or all do. */
  lemma ReadVirtBytes(s: State, va: u64, n: nat)
    requires (n == 2 || n == 4) && va % 0x1000 + n <= 0x1000
    ensures ReadVirt(s, va, n).Ok? <==> ByteAt(s, va, 0).Ok? && ByteAt(s, va, n - 1).Ok?
    ensures ReadVirt(s, va, n).Ok? ==>
              match ReadVirt(s, va, n).value
              case None => forall k :: 0 <= k < n ==> ByteAt(s, va, k) == Ok(None)
              case Some(v) => exists b: seq<u8> :: Bytes(s, va, n, b) && v == FromBytes(b)
  {
    hide Translate, ReadPhys, PhysByte, InRam, Slice, FromBytes, ByteAt;
    ByteOffset(s, va, 0);
    ByteOffset(s, va, n - 1);
    var t := Translate(s, va);
    if t.Stop? {
    } else if t.value.Some? {
      var pa := t.value.value;
      ReadBytes(s.ram, pa, n);
      if ReadPhys(s.ram, pa, n).Ok? {
        var b := Slice(s.ram, pa, n);
        forall k | 0 <= k < n ensures ByteAt(s, va, k) == Ok(Some(b[k])) { ByteOffset(s, va, k); }
        assert Bytes(s, va, n, b);
      }
    } else {
      forall k | 0 <= k < n ensures ByteAt(s, va, k) == Ok(None) { ByteOffset(s, va, k); }
    }
  }

  /** The bytes the fetch needs: those of the first half, and of the second if the
      first translates. */
  predicate Readable(s: State, pc: u64) {
    && ByteAt(s, pc, 0).Ok? && ByteAt(s, pc, 1).Ok?
    && (ByteAt(s, pc, 0) != Ok(None) ==> ByteAt(s, pc, 2).Ok? && ByteAt(s, pc, 3).Ok?)
  }

  /** A fault at the first half whose bytes do not translate, else the bytes
      joined in little-endian order. */
  ghost predicate FetchCorrect(s: State, pc: u64) {
    if ByteAt(s, pc, 0) == Ok(None) then FetchAt(s, pc) == Ok(FaultAt(s, pc, pc))
    else if ByteAt(s, pc, 2) == Ok(None) then FetchAt(s, pc) == Ok(FaultAt(s, pc, Wrap(pc + 2)))
    else exists b: seq<u8> :: Bytes(s, pc, 4, b) && FetchAt(s, pc) == Ok(Word(Join4(b)))
  }

  lemma WholeIs(s: State, pc: u64)
    requires pc % 2 == 0 && Wrap(pc + 2) % 0x1000 != 0
    ensures pc % 0x1000 + 4 <= 0x1000
    ensures FetchAt(s, pc) == match ReadVirt(s, pc, 4)
                              case Ok(None) => Ok(FaultAt(s, pc, pc))
                              case Ok(Some(inst)) => Ok(Word(inst % B32))
                              case Stop(why) => Stop(why)
  {
    hide ReadVirt, FaultAt;
  }

  lemma WholeFetch(s: State, pc: u64)
    requires pc % 2 == 0 && Wrap(pc + 2) % 0x1000 != 0
    ensures FetchAt(s, pc).Ok? <==> Readable(s, pc)
    ensures FetchAt(s, pc).Ok? ==> FetchCorrect(s, pc)
  {
    hide ReadVirt, FaultAt, FetchAt, Wrap, ByteAt, Bytes, FromBytes, Join4;
    WholeIs(s, pc);
    ReadVirtBytes(s, pc, 4);
    ReadVirtBytes(s, pc, 2);
    NoneTogether(s, pc);
    if ReadVirt(s, pc, 4).Ok? && ReadVirt(s, pc, 4).value.Some? {
      var b: seq<u8> :| Bytes(s, pc, 4, b) && ReadVirt(s, pc, 4).value.value == FromBytes(b);
      FourBytes(s, pc, b);
    }
  }

  lemma NoneTogether(s: State, pc: u64)
    requires pc % 0x1000 + 4 <= 0x1000
    ensures ByteAt(s, pc, 0) == Ok(None) ==> ByteAt(s, pc, 3) == Ok(None)
  {
    hide Translate, ReadPhys, ByteAt;
    ByteOffset(s, pc, 0);
    ByteOffset(s, pc, 3);
  }

  lemma FourBytes(s: State, pc: u64, b: seq<u8>)
    requires Bytes(s, pc, 4, b)
    ensures |b| == 4 && FromBytes(b) == Join4(b)
    ensures forall k :: 0 <= k < 4 ==> ByteAt(s, pc, k) == Ok(Some(b[k]))
  {
    FromFour(b);
  }

  lemma SplitFetch(s: State, pc: u64)
    requires pc % 2 == 0 && Wrap(pc + 2) % 0x1000 == 0
    ensures FetchAt(s, pc).Ok? <==> Readable(s, pc)
    ensures FetchAt(s, pc).Ok? ==> FetchCorrect(s, pc)
  {
    hide ReadVirt, Raise;
    var second := Wrap(pc + 2);
    assert pc % 0x1000 == 0xffe;
    assert ByteAt(s, second, 0) == ByteAt(s, pc, 2) && ByteAt(s, second, 1) == ByteAt(s, pc, 3);
    ReadVirtBytes(s, pc, 2);
    ReadVirtBytes(s, second, 2);
    if ReadVirt(s, pc, 2).Ok? && ReadVirt(s, pc, 2).value.Some? {
      var lo := ReadVirt(s, pc, 2).value.value;
      var b: seq<u8> :| Bytes(s, pc, 2, b) && lo == FromBytes(b);
      FromTwo(b);
      assert ByteAt(s, pc, 0) == Ok(Some(b[0]));
      if ReadVirt(s, second, 2).Ok? && ReadVirt(s, second, 2).value.Some? {
        var hi := ReadVirt(s, second, 2).value.value;
        var c: seq<u8> :| Bytes(s, second, 2, c) && hi == FromBytes(c);
        FromTwo(c);
        assert ByteAt(s, second, 0) == Ok(Some(c[0]));
        JoinHalves(s, pc, b, c);
        assert hi * 0x1_0000 + lo == Join4(b + c);
      }
    }
  }

  lemma JoinHalves(s: State, pc: u64, b: seq<u8>, c: seq<u8>)
    requires Bytes(s, pc, 2, b) && Bytes(s, Wrap(pc + 2), 2, c)
    ensures Bytes(s, pc, 4, b + c)
  {
    hide ReadVirt;
    forall k | 0 <= k < 4 ensures ByteAt(s, pc, k) == Ok(Some((b + c)[k])) {
      if k < 2 {
        assert (b + c)[k] == b[k];
      } else {
        assert ByteAt(s, Wrap(pc + 2), k - 2) == Ok(Some(c[k - 2]));
        assert Wrap(Wrap(pc + 2) + (k - 2)) == Wrap(pc + k);
      }
    }
  }

  /** For every even pc: the fetch goes through exactly when the bytes it needs can
      be read; then it faults exactly when one of them does not translate, with epc
      the pc and tval the first half that fails, and otherwise returns the bytes
      joined in little-endian order, across a page boundary too. */
  lemma FetchJoinsBytes(s: State, pc: u64)
    requires pc % 2 == 0
    ensures FetchAt(s, pc).Ok? <==> Readable(s, pc)
    ensures FetchAt(s, pc).Ok? ==> FetchCorrect(s, pc)
  {
    hide FetchCorrect, Readable;
    if Wrap(pc + 2) % 0x1000 != 0 { WholeFetch(s, pc); } else { SplitFetch(s, pc); }
  }
}

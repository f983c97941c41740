/** Guest RAM behind the address space (ram.c, address_space.c): accesses of one
    word, and copies of whole buffers. Addresses served by other devices leave
    the model. */
module AddressSpace {
  import opened Wrappers
  import opened Words
  import opened Memory
  import opened Fields
  import opened Decode

  // --------------------------------------------------------- atomic operations

  /** _amo64 */
  function Amo64(orig: u64, data: u64, amo: Amo): u64 {
    match amo
    case Plain | ScAmo | SwapAmo => data
    case MinAmo => if Signed64(data) < Signed64(orig) then data else orig
    case MaxAmo => if Signed64(data) > Signed64(orig) then data else orig
    case MinuAmo => if data < orig then data else orig
    case MaxuAmo => if data > orig then data else orig
    case AddAmo => Wrap(orig + data)
    case XorAmo => BvXor(orig, data)
    case OrAmo => BvOr(orig, data)
    case AndAmo => BvAnd(orig, data)
  }

  /** _amo32, on the low words. */
  function Amo32(o: u64, d: u64, amo: Amo): u64 {
    var orig, data := Low32(o), Low32(d);
    match amo
    case Plain | ScAmo | SwapAmo => data
    case MinAmo => if Signed32(data) < Signed32(orig) then data else orig
    case MaxAmo => if Signed32(data) > Signed32(orig) then data else orig
    case MinuAmo => if data < orig then data else orig
    case MaxuAmo => if data > orig then data else orig
    case AddAmo => (orig + data) % B32
    case XorAmo => Low32(BvXor(orig, data))
    case OrAmo => Low32(BvOr(orig, data))
    case AndAmo => Low32(BvAnd(orig, data))
  }

  /** ram_write: the new RAM and the value returned. */
  function RamWrite(ram: Ram, pa: u64, n: nat, data: u64, amo: Amo): Outcome<(Ram, u64)> {
    var before :- ReadPhys(ram, pa, n);
    var orig := if amo == ScAmo then 0 else before;
    var stored := if n == 8 then Amo64(orig, data, amo) else if n == 4 then Amo32(orig, data, amo) else data;
    var ram' :- WritePhys(ram, pa, n, stored);
    Ok((ram', orig))
  }

  /** Storing n bytes drops what lies above them. */
  lemma {:induction false} HighBytesDropped(x: nat, k: nat, n: nat)
    ensures ToBytes(x + Pow256(n) * k, n) == ToBytes(x, n)
  {
    if n == 0 {
    } else {
      var p := Pow256(n - 1);
      var y := x + Pow256(n) * k;
      Assoc(256, p, k);
      AddMultiple(y, 256, p * k, x);
      HighBytesDropped(x / 256, k, n - 1);
    }
  }

  /** Without an atomic operation ram_write stores the low bytes of its operand
      and returns what was there. */
  lemma PlainWrite(ram: Ram, pa: u64, n: nat, data: u64)
    ensures match RamWrite(ram, pa, n, data, Plain)
            case Ok((ram', v)) => WritePhys(ram, pa, n, data) == Ok(ram') && ReadPhys(ram, pa, n) == Ok(v)
            case Stop(r) => WritePhys(ram, pa, n, data) == Stop(r)
  {
    Pow256Small(4);
    HighBytesDropped(data % B32, data / B32, 4);
  }

  // -------------------------------------------------------------- whole buffers

  /** What as_read_blob delivers: the bytes at addr, in order. */
  function ReadBlob(ram: Ram, addr: u64, n: nat): (b: Outcome<seq<u8>>)
    ensures b.Ok? ==> |b.value| == n
  {
    if addr % 8 != 0 then Stop(Panic)
    else if n == 0 then Ok([])
    else if !InRam(ram, addr, n) then Stop(OutsideRam)
    else Ok(Slice(ram, addr, n))
  }

  /** What as_write_blob leaves in RAM. */
  function WriteBlob(ram: Ram, addr: u64, data: seq<u8>): Outcome<Ram> {
    if addr % 8 != 0 then Stop(Panic)
    else if |data| == 0 then Ok(ram)
    else if !InRam(ram, addr, |data|) then Stop(OutsideRam)
    else Ok(Splice(ram, addr, data))
  }

  /** Physical byte a is one of the n at pa. */
  predicate Covers(pa: int, n: nat, a: int) { pa <= a < pa + n }

  /** Two memories that agree outside one range. */
  predicate SameOutside(ram: Ram, ram': Ram, pa: int, n: nat) {
    |ram'| == |ram| && forall k :: 0 <= k < |ram| && !Covers(pa, n, RAM_START + k) ==> ram'[k] == ram[k]
  }

  /** A copy into RAM reads back for every length and aligned address, and
      changes no byte outside its range. */
  lemma BlobRoundTrip(ram: Ram, addr: u64, data: seq<u8>)
    requires WriteBlob(ram, addr, data).Ok?
    ensures var ram' := WriteBlob(ram, addr, data).value;
            ReadBlob(ram', addr, |data|) == Ok(data) && SameOutside(ram, ram', addr, |data|)
  {
  }

  lemma BlobSkips(ram: Ram, ram': Ram, pa: u64, n: nat, addr: u64, m: nat)
    requires SameOutside(ram, ram', pa, n) && Disjoint(pa, n, addr, m)
    ensures ReadBlob(ram', addr, m) == ReadBlob(ram, addr, m)
    ensures ReadPhys(ram', addr, m) == ReadPhys(ram, addr, m)
  {
    if InRam(ram, addr, m) {
      assert Slice(ram', addr, m) == Slice(ram, addr, m);
    }
  }

  /** The first d bytes at addr. */
  ghost function Part(ram: Ram, addr: int, d: nat): (b: seq<u8>)
    requires d == 0 || InRam(ram, addr, d)
    ensures |b| == d && (d > 0 ==> b == Slice(ram, addr, d))
  {
    if d == 0 then [] else Slice(ram, addr, d)
  }

  lemma Grow(ram: Ram, addr: int, d: nat, k: nat)
    requires (d == 0 || InRam(ram, addr, d)) && k > 0 && InRam(ram, addr + d, k)
    ensures InRam(ram, addr, d + k) && Part(ram, addr, d + k) == Part(ram, addr, d) + Slice(ram, addr + d, k)
  {
  }

  /** RAM with its first |b| bytes at addr replaced. */
  ghost function Filled(ram: Ram, addr: int, b: seq<u8>): Ram
    requires b == [] || InRam(ram, addr, |b|)
  {
    if b == [] then ram else Splice(ram, addr, b)
  }

  lemma FilledMeaning(ram: Ram, addr: int)
    ensures Filled(ram, addr, []) == ram
    ensures forall b: seq<u8> :: b != [] && InRam(ram, addr, |b|) ==> Filled(ram, addr, b) == Splice(ram, addr, b)
  {
  }

  lemma Fill(ram: Ram, addr: int, x: seq<u8>, y: seq<u8>)
    requires (x == [] || InRam(ram, addr, |x|)) && y != [] && InRam(ram, addr + |x|, |y|)
    ensures InRam(ram, addr, |x + y|) && |Filled(ram, addr, x)| == |ram|
    ensures Splice(Filled(ram, addr, x), addr + |x|, y) == Filled(ram, addr, x + y)
  {
    assert x + y != [];
  }

  /** Guest RAM as the root address space serves it. */
  class Bus {
    const mem: array<u8>

    constructor (size: nat)
      requires size <= 0x8000_0000
      ensures fresh(mem) && mem.Length == size && Valid()
      ensures forall k :: 0 <= k < size ==> mem[k] == 0
    {
      mem := new u8[size](_ => 0);
    }

    predicate Valid() { mem.Length <= 0x8000_0000 }

    predicate Holds(pa: int, n: nat) {
      RAM_START <= pa && pa + n <= RAM_START + mem.Length
    }

    /** as_read_nommu, down to ram_read. */
    method ReadNommu(addr: u64, size: nat) returns (r: Outcome<u64>)
      ensures r == ReadPhys(mem[..], addr, size)
    {
      if !(size == 1 || size == 2 || size == 4 || size == 8) { return Stop(Panic); }
      if !Holds(addr, size) { return Stop(OutsideRam); }
      var a := addr - RAM_START;
      assert mem[a..a + size] == Slice(mem[..], addr, size);
      FromBytesFits(mem[a..a + size]);
      return Ok(FromBytes(mem[a..a + size]));
    }

    /** memcpy into RAM. */
    method Store(addr: u64, b: seq<u8>)
      requires Holds(addr, |b|)
      modifies mem
      ensures mem[..] == Splice(old(mem[..]), addr, b)
    {
      var a := addr - RAM_START;
      forall k | 0 <= k < |b| { mem[a + k] := b[k]; }
      assert mem[..] == old(mem[..])[..a] + b + old(mem[..])[a + |b|..];
    }

    /** as_write_nommu, down to ram_write. */
    method WriteNommu(addr: u64, size: nat, data: u64, params: Amo) returns (r: Outcome<u64>)
      modifies mem
      ensures match RamWrite(old(mem[..]), addr, size, data, params)
              case Ok((ram', v)) => mem[..] == ram' && r == Ok(v)
              case Stop(why) => mem[..] == old(mem[..]) && r == Stop(why)
    {
      r := ReadNommu(addr, size);
      if r.Stop? { return; }
      var ret := if params == ScAmo then 0 else r.value;
      var d := data;
      if size == 8 {
        d := Amo64(ret, data, params);
      } else if size == 4 {
        d := Amo32(ret, data, params);
      }
      Store(addr, ToBytes(d, size));
      return Ok(ret);
    }

    /** memcpy out of the emulator's own word. */
    static method Put(data: array<u8>, d: nat, b: seq<u8>)
      requires d + |b| <= data.Length
      modifies data
      ensures data[..] == old(data[..d]) + b + old(data[d + |b|..])
    {
      forall k | 0 <= k < |b| { data[d + k] := b[k]; }
    }

    /** One round of as_read_blob: k bytes at place d of the buffer. */
    method ReadChunk(a: u64, k: nat, data: array<u8>, d: nat, ghost addr: u64, ghost size: nat, ghost was: seq<u8>)
      returns (r: Outcome<u64>)
      requires Valid() && data != mem && GoodSize(k) && a == addr + d && d + k <= size <= data.Length == |was|
      requires (d == 0 || Holds(addr, d)) && data[..d] == Part(mem[..], addr, d) && data[d..] == was[d..]
      modifies data
      ensures r.Ok? ==> Holds(addr, d + k) && r.value == a + k && data[..d + k] == Part(mem[..], addr, d + k)
      ensures r.Ok? ==> data[d + k..] == was[d + k..]
      ensures r.Stop? ==> r == Stop(OutsideRam) && !Holds(addr, size)
    {
      var v := ReadNommu(a, k);
      if v.Stop? { return Stop(v.reason); }
      hide Slice, FromBytes, ToBytes, Pow256;
      ghost var b := Slice(mem[..], a, k);
      ToFromBytes(b);
      Grow(mem[..], addr, d, k);
      Put(data, d, ToBytes(v.value, k));
      assert data[..d + k] == old(data[..d]) + b;
      assert data[d + k..] == old(data[d..])[k..] && was[d..][k..] == was[d + k..];
      return Ok(a + k);
    }

    /** as_read_blob */
    method ReadBlobInto(addr: u64, size: nat, data: array<u8>) returns (r: Outcome<()>)
      requires Valid() && size <= data.Length && data != mem
      modifies data
      ensures match ReadBlob(mem[..], addr, size)
              case Ok(b) => r.Ok? && data[..] == b + old(data[size..])
              case Stop(why) => r == Stop(why)
    {
      hide Part, Slice;
      if addr % 8 != 0 { return Stop(Panic); }
      ghost var was := data[..];
      var a, n := addr, size;
      while n >= 8
        invariant 0 <= n <= size && a == addr + (size - n)
        invariant n == size || Holds(addr, size - n)
        invariant data[..size - n] == Part(mem[..], addr, size - n) && data[size - n..] == was[size - n..]
      {
        var next := ReadChunk(a, 8, data, size - n, addr, size, was);
        if next.Stop? { return Stop(next.reason); }
        n, a := n - 8, next.value;
      }
      while n > 0
        invariant 0 <= n <= size && a == addr + (size - n)
        invariant n == size || Holds(addr, size - n)
        invariant data[..size - n] == Part(mem[..], addr, size - n) && data[size - n..] == was[size - n..]
      {
        var next := ReadChunk(a, 1, data, size - n, addr, size, was);
        if next.Stop? { return Stop(next.reason); }
        n, a := n - 1, next.value;
      }
      assert data[..] == data[..size] + data[size..];
      return Ok(());
    }

    /** One round of as_write_blob: k bytes from place d of the buffer. */
    method WriteChunk(a: u64, k: nat, data: seq<u8>, d: nat, ghost addr: u64, ghost ram: Ram) returns (r: Outcome<u64>)
      requires Valid() && GoodSize(k) && a == addr + d && d + k <= |data| && |ram| == mem.Length
      requires (d == 0 || Holds(addr, d)) && mem[..] == Filled(ram, addr, data[..d])
      modifies mem
      ensures r.Ok? ==> Holds(addr, d + k) && r.value == a + k && mem[..] == Filled(ram, addr, data[..d + k])
      ensures r.Stop? ==> r == Stop(OutsideRam) && !Holds(addr, |data|)
    {
      hide Splice, Filled, FromBytes, ToBytes, Pow256, RamWrite;
      var b := data[d..d + k];
      ToFromBytes(b);
      FromBytesFits(b);
      PlainWrite(mem[..], a, k, FromBytes(b));
      var w := WriteNommu(a, k, FromBytes(b), Plain);
      if w.Stop? { return Stop(w.reason); }
      Fill(ram, addr, data[..d], b);
      assert data[..d] + b == data[..d + k];
      return Ok(a + k);
    }

    /** as_write_blob */
    method WriteBlobFrom(addr: u64, data: seq<u8>) returns (r: Outcome<()>)
      requires Valid()
      modifies mem
      ensures match WriteBlob(old(mem[..]), addr, data)
              case Ok(ram') => r.Ok? && mem[..] == ram'
              case Stop(why) => r == Stop(why)
    {
      hide Splice, Filled;
      if addr % 8 != 0 { return Stop(Panic); }
      ghost var ram := mem[..];
      FilledMeaning(ram, addr);
      var a, n := addr, |data|;
      while n >= 8
        invariant 0 <= n <= |data| && a == addr + (|data| - n)
        invariant n == |data| || Holds(addr, |data| - n)
        invariant mem[..] == Filled(ram, addr, data[..|data| - n])
      {
        var next := WriteChunk(a, 8, data, |data| - n, addr, ram);
        if next.Stop? { return Stop(next.reason); }
        n, a := n - 8, next.value;
      }
      while n > 0
        invariant 0 <= n <= |data| && a == addr + (|data| - n)
        invariant n == |data| || Holds(addr, |data| - n)
        invariant mem[..] == Filled(ram, addr, data[..|data| - n])
      {
        var next := WriteChunk(a, 1, data, |data| - n, addr, ram);
        if next.Stop? { return Stop(next.reason); }
        n, a := n - 1, next.value;
      }
      assert data[..|data|] == data;
      return Ok(());
    }
  }
}

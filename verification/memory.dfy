/** Guest RAM and physical accesses to it (ram.c, address_space.c). A byte
    outside RAM belongs to a device and leaves the model. */
module Memory {
  import opened Wrappers
  import opened Words
  import opened Fields

  const RAM_START := 0x8000_0000

  type Ram = seq<u8>

  predicate InRam(ram: Ram, pa: int, n: nat) {
    RAM_START <= pa && pa + n <= RAM_START + |ram|
  }

  /** The n bytes at physical address pa. */
  function Slice(ram: Ram, pa: int, n: nat): (b: seq<u8>)
    requires InRam(ram, pa, n)
    ensures |b| == n
  {
    ram[pa - RAM_START..pa - RAM_START + n]
  }

  function Splice(ram: Ram, pa: int, b: seq<u8>): (r: Ram)
    requires InRam(ram, pa, |b|)
    ensures |r| == |ram|
  {
    ram[..pa - RAM_START] + b + ram[pa - RAM_START + |b|..]
  }

  predicate GoodSize(n: nat) { n == 1 || n == 2 || n == 4 || n == 8 }

  /** as_read_nommu; a bad size panics. */
  function ReadPhys(ram: Ram, pa: u64, n: nat): Outcome<u64> {
    if !GoodSize(n) then Stop(Panic)
    else if !InRam(ram, pa, n) then Stop(OutsideRam)
    else FromBytesFits(Slice(ram, pa, n)); Ok(FromBytes(Slice(ram, pa, n)))
  }

  /** as_write_nommu without an atomic operation: the low n bytes are stored. */
  function WritePhys(ram: Ram, pa: u64, n: nat, data: u64): Outcome<Ram> {
    if !GoodSize(n) then Stop(Panic)
    else if !InRam(ram, pa, n) then Stop(OutsideRam)
    else Ok(Splice(ram, pa, ToBytes(data, n)))
  }

  lemma FromBytesFits(b: seq<u8>)
    requires |b| <= 8
    ensures FromBytes(b) < B64
  {
    Pow256Small(|b|);
  }

  lemma Pow256Small(n: nat)
    requires n <= 8
    ensures Pow256(n) <= B64
    ensures n == 4 ==> Pow256(n) == B32
    ensures n == 8 ==> Pow256(n) == B64
  {
    assert Pow256(4) == B32;
    assert Pow256(8) == B64;
  }

  /** Neither range covers a byte of the other. */
  predicate Disjoint(a: int, n: nat, b: int, m: nat) {
    a + n <= b || b + m <= a
  }

  lemma SliceSplice(ram: Ram, pa: int, b: seq<u8>, pb: int, n: nat)
    requires InRam(ram, pa, |b|) && InRam(ram, pb, n)
    ensures Disjoint(pa, |b|, pb, n) ==> Slice(Splice(ram, pa, b), pb, n) == Slice(ram, pb, n)
    ensures pa == pb && n == |b| ==> Slice(Splice(ram, pa, b), pb, n) == b
  {
  }

  /** A load sees the last store to the same place and no store elsewhere. */
  lemma ReadAfterWrite(ram: Ram, pa: u64, n: nat, data: u64, pb: u64, m: nat)
    requires WritePhys(ram, pa, n, data).Ok?
    ensures var ram' := WritePhys(ram, pa, n, data).value;
            && |ram'| == |ram|
            && (Disjoint(pa, n, pb, m) ==> ReadPhys(ram', pb, m) == ReadPhys(ram, pb, m))
            && (data < Pow256(n) ==> ReadPhys(ram', pa, n) == Ok(data))
  {
    if InRam(ram, pb, m) {
      SliceSplice(ram, pa, ToBytes(data, n), pb, m);
    }
    SliceSplice(ram, pa, ToBytes(data, n), pa, n);
    FromToBytes(data, n);
  }

  lemma DwordAfterWrite(ram: Ram, pa: u64, data: u64)
    requires WritePhys(ram, pa, 8, data).Ok?
    ensures ReadPhys(WritePhys(ram, pa, 8, data).value, pa, 8) == Ok(data)
  {
    Pow256Small(8);
    ReadAfterWrite(ram, pa, 8, data, pa, 8);
  }

  lemma {:induction false} ByteOf(v: nat, n: nat, k: nat)
    requires k < n
    ensures ToBytes(v, n)[k] == v / Pow256(k) % 256
  {
    if k == 0 {
    } else {
      ByteOf(v / 256, n - 1, k - 1);
      DivDiv(v, 256, Pow256(k - 1));
    }
  }

  /** A store puts byte k of its operand, the lowest first, k places on from the address,
      where RAM starts at 0x8000_0000. */
  lemma StoredBytes(ram: Ram, pa: u64, n: nat, data: u64, k: nat)
    requires WritePhys(ram, pa, n, data).Ok? && k < n
    ensures 0 <= pa + k - 0x8000_0000 < |ram|
    ensures WritePhys(ram, pa, n, data).value[pa + k - 0x8000_0000] == data / Pow256(k) % 256
  {
    ByteOf(data, n, k);
    hide ToBytes;
  }
}

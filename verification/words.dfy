/** Fixed-width words as integers, and their little-endian bytes. */
module Words {

  type u8 = x: int | 0 <= x < 0x100
  type u16 = x: int | 0 <= x < 0x1_0000
  type u32 = x: int | 0 <= x < 0x1_0000_0000
  type u64 = x: int | 0 <= x < 0x1_0000_0000_0000_0000

  const B16 := 0x1_0000
  const B32 := 0x1_0000_0000
  const B64 := 0x1_0000_0000_0000_0000
  const SIGN32 := 0x8000_0000
  const SIGN64 := 0x8000_0000_0000_0000

  /** Reduction modulo 2^64: what a C uint64_t keeps of an integer. */
  function Wrap(x: int): u64 { x % B64 }

  function Signed64(x: u64): int { if x < SIGN64 then x else x - B64 }

  function Low32(x: u64): u32 { x % B32 }

  /** (int32_t) of a 64-bit value. */
  function Signed32(x: u64): int {
    var w := x % B32;
    if w < SIGN32 then w else w - B32
  }

  /** TO_WORD: keep 32 bits and sign-extend. */
  function ToWord(x: int): u64 { Wrap(Signed32(Wrap(x))) }

  function Pow2(n: nat): (p: nat)
    ensures p > 0
  {
    if n == 0 then 1 else 2 * Pow2(n - 1)
  }

  /** Bit k of a number. */
  predicate BitOf(x: nat, k: nat) { if k == 0 then x % 2 == 1 else BitOf(x / 2, k - 1) }

  datatype Gate = AndGate | OrGate | XorGate {
    predicate Out(p: bool, q: bool) {
      match this
      case AndGate => p && q
      case OrGate => p || q
      case XorGate => p != q
    }
  }

  /** The number whose n low bits are a gate's outputs for those of a and b. */
  function Gated(g: Gate, a: nat, b: nat, n: nat): (r: nat)
    ensures r < Pow2(n)
  {
    if n == 0 then 0
    else (if g.Out(a % 2 == 1, b % 2 == 1) then 1 else 0) + 2 * Gated(g, a / 2, b / 2, n - 1)
  }

  function Bitwise(g: Gate, a: u64, b: u64): u64 {
    Pow2Of64();
    Gated(g, a, b, 64)
  }

  function BvAnd(a: u64, b: u64): u64 { Bitwise(AndGate, a, b) }
  function BvOr(a: u64, b: u64): u64 { Bitwise(OrGate, a, b) }
  function BvXor(a: u64, b: u64): u64 { Bitwise(XorGate, a, b) }
  function BvNot(a: u64): u64 { B64 - 1 - a }

  lemma Pow2Of64()
    ensures Pow2(64) == B64 && Pow2(32) == B32 && Pow2(8) == 0x100
  {
    assert Pow2(8) == 0x100;
    Pow2Sum(8, 8);
    Pow2Sum(16, 16);
    Pow2Sum(32, 32);
  }

  lemma {:induction false} Pow2Sum(m: nat, n: nat)
    ensures Pow2(m + n) == Pow2(m) * Pow2(n)
  {
    if m == 0 {
    } else {
      Pow2Sum(m - 1, n);
      assert 2 * Pow2(m - 1) * Pow2(n) == 2 * (Pow2(m - 1) * Pow2(n));
    }
  }

  lemma {:induction false} GatedBit(g: Gate, a: nat, b: nat, n: nat, k: nat)
    requires k < n
    ensures BitOf(Gated(g, a, b, n), k) <==> g.Out(BitOf(a, k), BitOf(b, k))
  {
    hide Gate.Out;
    var low := if g.Out(a % 2 == 1, b % 2 == 1) then 1 else 0;
    var rest := Gated(g, a / 2, b / 2, n - 1);
    assert (low + 2 * rest) % 2 == low && (low + 2 * rest) / 2 == rest;
    if k == 0 {
    } else {
      GatedBit(g, a / 2, b / 2, n - 1, k - 1);
    }
  }

  /** The bitwise operations, bit by bit. */
  lemma BitwiseBits(a: u64, b: u64, k: nat)
    requires k < 64
    ensures BitOf(BvAnd(a, b), k) <==> BitOf(a, k) && BitOf(b, k)
    ensures BitOf(BvOr(a, b), k) <==> BitOf(a, k) || BitOf(b, k)
    ensures BitOf(BvXor(a, b), k) <==> BitOf(a, k) != BitOf(b, k)
    ensures BitOf(BvNot(a), k) <==> !BitOf(a, k)
  {
    GatedBit(AndGate, a, b, 64, k);
    GatedBit(OrGate, a, b, 64, k);
    GatedBit(XorGate, a, b, 64, k);
    Pow2Of64();
    NotBit(a, 64, k);
  }

  lemma {:induction false} NotBit(a: nat, n: nat, k: nat)
    requires k < n && a < Pow2(n)
    ensures BitOf(Pow2(n) - 1 - a, k) <==> !BitOf(a, k)
  {
    var c := Pow2(n) - 1 - a;
    assert c % 2 == 1 - a % 2 && c / 2 == Pow2(n - 1) - 1 - a / 2;
    if k == 0 {
    } else {
      NotBit(a / 2, n - 1, k - 1);
    }
  }

  function Pow256(n: nat): (p: nat)
    ensures p > 0
  {
    if n == 0 then 1 else 256 * Pow256(n - 1)
  }

  function FromBytes(b: seq<u8>): (v: nat)
    ensures v < Pow256(|b|)
  {
    if b == [] then 0 else b[0] + 256 * FromBytes(b[1..])
  }

  function ToBytes(v: nat, n: nat): (b: seq<u8>)
    ensures |b| == n
  {
    if n == 0 then [] else [v % 256] + ToBytes(v / 256, n - 1)
  }

  /** Storing n bytes and loading them back keeps the value modulo 256^n. */
  lemma {:induction false} FromToBytes(v: nat, n: nat)
    ensures v < Pow256(n) ==> FromBytes(ToBytes(v, n)) == v
  {
    if n == 0 {
    } else {
      assert ToBytes(v, n)[1..] == ToBytes(v / 256, n - 1);
      FromToBytes(v / 256, n - 1);
    }
  }

  lemma {:induction false} ToFromBytes(b: seq<u8>)
    ensures ToBytes(FromBytes(b), |b|) == b
  {
    if b == [] {
    } else {
      var r := FromBytes(b[1..]);
      assert (b[0] + 256 * r) % 256 == b[0] && (b[0] + 256 * r) / 256 == r;
      ToFromBytes(b[1..]);
    }
  }
}

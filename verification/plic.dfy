/** The platform interrupt controller (plic.c): pending words as a set of ids,
    what a poll returns, and the claim registers over whole runs. */
module Plic {
  import opened Wrappers
  import opened Words

  const SOURCES := 127
  const WORDS := 5

  // ------------------------------------------------------------- bits of words

  function Offset(k: nat): (o: bv32)
    requires k < 32
    ensures o < 32 && o as int == k
  {
    k as bv32
  }

  predicate Bit(w: bv32, o: bv32)
    requires o < 32
  {
    (w >> o) & 1 == 1
  }

  predicate BitAt(w: bv32, k: nat)
    requires k < 32
  {
    Bit(w, Offset(k))
  }

  lemma OffsetsDiffer(j: nat, k: nat)
    requires j < 32 && k < 32
    ensures Offset(j) == Offset(k) <==> j == k
  {
  }

  lemma NextOffset(k: nat)
    requires k < 31
    ensures Offset(k + 1) == Offset(k) + 1
  {
    hide Offset;
    var a, b := Offset(k) + 1, Offset(k + 1);
    assert a as int == b as int;
    SameInt(a, b);
  }

  lemma SameInt(a: bv32, b: bv32)
    requires a <= 32 && b <= 32 && a as int == b as int
    ensures a == b
  {
  }

  function WithBit(w: bv32, o: bv32): bv32
    requires o < 32
  {
    w | ((1 as bv32) << o)
  }

  function WithoutBit(w: bv32, o: bv32): bv32
    requires o < 32
  {
    w & !((1 as bv32) << o)
  }

  function Both(v: bv32, w: bv32): bv32 { v & w }
  function Halved(b: bv32): bv32 { b >> 1 }
  predicate Odd(b: bv32) { b & 1 == 1 }

  lemma SetBit(w: bv32, o: bv32, p: bv32)
    requires o < 32 && p < 32
    ensures Bit(WithBit(w, o), p) <==> p == o || Bit(w, p)
  {
  }

  lemma ClearBit(w: bv32, o: bv32, p: bv32)
    requires o < 32 && p < 32
    ensures Bit(WithoutBit(w, o), p) <==> p != o && Bit(w, p)
  {
  }

  lemma BothBits(v: bv32, w: bv32, p: bv32)
    requires p < 32
    ensures Bit(Both(v, w), p) <==> Bit(v, p) && Bit(w, p)
  {
  }

  /** The least set bit from k up, or 32. */
  function FirstFrom(w: bv32, k: nat): (r: nat)
    requires k <= 32
    ensures k <= r <= 32
    ensures r < 32 ==> BitAt(w, r)
    ensures forall j :: k <= j < r ==> !BitAt(w, j)
    decreases 32 - k
  {
    if k == 32 then 32 else if BitAt(w, k) then k else FirstFrom(w, k + 1)
  }

  /** w has no bit below o. */
  predicate Upper(w: bv32, o: bv32)
    requires o < 32
  {
    (w >> o) << o == w
  }

  /** A word with no set bit below k is its upper part. */
  lemma {:induction false} ClearBelow(w: bv32, k: nat)
    requires k < 32 && forall j :: 0 <= j < k ==> !BitAt(w, j)
    ensures Upper(w, Offset(k))
  {
    hide Offset, Bit, Upper;
    if k == 0 {
      ShiftNone(w, Offset(0));
    } else {
      ClearBelow(w, k - 1);
      NextOffset(k - 1);
      assert !BitAt(w, k - 1);
      SmallOffset(k - 1);
      ShiftMore(w, Offset(k - 1));
    }
  }

  lemma SmallOffset(k: nat)
    requires k < 31
    ensures Offset(k) < 31
  {
    hide Offset;
    assert (31 as bv32) as int == 31;
  }

  lemma ShiftNone(w: bv32, o: bv32)
    requires o < 32 && o as int == 0
    ensures Upper(w, o)
  {
    SameInt(o, 0);
  }

  lemma ShiftMore(w: bv32, o: bv32)
    requires o < 31 && Upper(w, o) && !Bit(w, o)
    ensures Upper(w, o + 1)
  {
  }

  lemma LastBit(w: bv32, o: bv32)
    requires o == 31 && Upper(w, o) && !Bit(w, o)
    ensures w == 0
  {
  }

  /** Every nonzero word has a first set bit. */
  lemma HasFirst(w: bv32)
    ensures FirstFrom(w, 0) == 32 <==> w == 0
  {
    hide Offset, Bit;
    if FirstFrom(w, 0) == 32 {
      ClearBelow(w, 31);
      assert !BitAt(w, 31);
      SameInt(Offset(31), 31);
      LastBit(w, Offset(31));
    } else {
      ZeroHasNoBit(Offset(FirstFrom(w, 0)));
    }
  }

  lemma ZeroHasNoBit(o: bv32)
    requires o < 32
    ensures !Bit(0, o)
  {
  }

  // -------------------------------------------------------------- the registers

  datatype RawRegs = Regs(
    priority: seq<u32>, mpt: u32, spt: u32, mcc: u32, scc: u32, mie: seq<bv32>, sie: seq<bv32>, pending: seq<bv32>)

  predicate Shaped(s: RawRegs) {
    |s.priority| == SOURCES + 1 && |s.mie| == |s.sie| == |s.pending| == WORDS
  }

  function Zeros(n: nat): (z: seq<u32>)
    ensures |z| == n && forall k :: 0 <= k < n ==> z[k] == 0
  {
    if n == 0 then [] else Zeros(n - 1) + [0]
  }

  type Regs = s: RawRegs | Shaped(s)
    witness Regs(Zeros(SOURCES + 1), 0, 0, 0, 0, [0, 0, 0, 0, 0], [0, 0, 0, 0, 0], [0, 0, 0, 0, 0])

  const RESET: Regs := Regs(Zeros(SOURCES + 1), 0, 0, 0, 0, [0, 0, 0, 0, 0], [0, 0, 0, 0, 0], [0, 0, 0, 0, 0])

  type Id = k: nat | 0 < k <= SOURCES witness 1

  predicate InWords(words: seq<bv32>, id: nat)
    requires |words| == WORDS && id < 32 * WORDS
  {
    BitAt(words[id / 32], id % 32)
  }

  /** The pending interrupts. */
  function PendingSet(s: Regs): set<nat> { set id: nat | 0 < id <= SOURCES && InWords(s.pending, id) }

  /** Only ids 1..127 are pending, and a claim register holds such an id or 0. */
  predicate Sane(s: Regs) {
    && !InWords(s.pending, 0) && (forall id :: SOURCES < id < 32 * WORDS ==> !InWords(s.pending, id))
    && s.mcc <= SOURCES && s.scc <= SOURCES
  }

  datatype Mode = Machine | Supervisor

  function Enables(s: Regs, m: Mode): (w: seq<bv32>)
    ensures |w| == WORDS
  {
    if m == Supervisor then s.sie else s.mie
  }

  function Threshold(s: Regs, m: Mode): u32 { if m == Supervisor then s.spt else s.mpt }
  function ClaimReg(s: Regs, m: Mode): u32 { if m == Supervisor then s.scc else s.mcc }

  function WithClaim(s: Regs, m: Mode, v: u32): Regs {
    if m == Supervisor then s.(scc := v) else s.(mcc := v)
  }

  /** plic_signal, for the ids there are priorities for. */
  function Signal(s: Regs, id: u32): Outcome<Regs> {
    if id == 0 then Stop(Panic)
    else if id > SOURCES then Stop(Undefined)
    else Ok(s.(pending := s.pending[id / 32 := WithBit(s.pending[id / 32], Offset(id % 32))]))
  }

  function Cleared(s: Regs, id: nat): Regs
    requires id <= SOURCES
  {
    s.(pending := s.pending[id / 32 := WithoutBit(s.pending[id / 32], Offset(id % 32))])
  }

  /** A read of the claim register: an empty one panics for machine mode only. */
  function Claim(s: Regs, m: Mode): Outcome<(Regs, u32)> {
    var id := ClaimReg(s, m);
    if id == 0 then (if m == Machine then Stop(Panic) else Ok((s, 0)))
    else if id > SOURCES then Stop(Undefined)
    else Ok((Cleared(s, id), id))
  }

  /** A write of the claim register. */
  function Complete(s: Regs, m: Mode, v: u32): Outcome<Regs> {
    if ClaimReg(s, m) != v then Stop(Panic) else Ok(WithClaim(s, m, 0))
  }

  /** The least pending and enabled id of one word, or None. */
  function Candidate(s: Regs, m: Mode, i: nat): Option<nat>
    requires i < WORDS
  {
    var f := FirstFrom(Both(s.pending[i], Enables(s, m)[i]), 0);
    if f == 32 then None else Some(i * 32 + f)
  }

  /** The scan of plic_interrupt from word i on: 0 when it finds nothing. */
  function Scan(s: Regs, m: Mode, i: nat): u32
    requires i <= WORDS
    decreases WORDS - i
  {
    if i == WORDS then 0
    else
      var c := Candidate(s, m, i);
      if c.Some? && c.value < |s.priority| && s.priority[c.value] > Threshold(s, m) then c.value
      else Scan(s, m, i + 1)
  }

  /** plic_interrupt, for the mode the interrupt would go to. */
  function Poll(s: Regs, m: Mode): (Regs, u32) {
    var id := Scan(s, m, 0);
    (if id == 0 then s else WithClaim(s, m, id), id)
  }

  // ------------------------------------------------------- register accesses

  function ClaimAddr(m: Mode): u64 { if m == Supervisor then 0x201004 else 0x200004 }

  /** plic_read: what it leaves and the value read. Supervisor enables and the two
      claim registers can be read. */
  function Loaded(s: Regs, addr: u64): Outcome<(Regs, u32)> {
    if addr % 4 != 0 then Stop(Panic)
    else if 0x2080 <= addr <= 0x2090 then Ok((s, ValueOf(s.sie[(addr - 0x2080) / 4])))
    else if addr == ClaimAddr(Machine) then Claim(s, Machine)
    else if addr == ClaimAddr(Supervisor) then Claim(s, Supervisor)
    else Stop(Panic)
  }

  function Doubled(w: bv32, low: bool): bv32 { (w << 1) | (if low then 1 else 0) }

  /** The word of the n low bits of a number. */
  function Packed(x: nat, n: nat): bv32 {
    if n == 0 then 0 else Doubled(Packed(x / 2, n - 1), x % 2 == 1)
  }

  /** The number of the n low bits of a word. */
  function Number(w: bv32, n: nat): (x: nat)
    ensures x < Pow2(n)
  {
    if n == 0 then 0 else (if Odd(w) then 1 else 0) + 2 * Number(Halved(w), n - 1)
  }

  /** (uint32_t), as the bits that are stored. */
  function WordOf(data: u64): bv32 { Packed(data, 32) }

  /** The value of a stored word. */
  function ValueOf(w: bv32): u32 {
    Pow2Of64();
    Number(w, 32)
  }

  lemma DoubledBits(w: bv32, low: bool, o: bv32)
    requires o < 32
    ensures o == 0 ==> (Bit(Doubled(w, low), o) <==> low)
    ensures o < 31 ==> (Bit(Doubled(w, low), o + 1) <==> Bit(w, o))
  {
  }

  lemma HalvedBits(w: bv32, o: bv32)
    requires o < 31
    ensures Odd(w) <==> Bit(w, 0)
    ensures Bit(Halved(w), o) <==> Bit(w, o + 1)
  {
  }

  /** A register keeps the bits that are written to it. */
  lemma {:induction false} PackedBits(x: nat, n: nat, k: nat)
    requires k < n <= 32
    ensures BitAt(Packed(x, n), k) <==> BitOf(x, k)
  {
    hide Offset, Bit, Doubled;
    var w, low := Packed(x / 2, n - 1), x % 2 == 1;
    if k == 0 {
      SameInt(Offset(0), 0);
      DoubledBits(w, low, Offset(0));
    } else {
      PackedBits(x / 2, n - 1, k - 1);
      NextOffset(k - 1);
      SmallOffset(k - 1);
      DoubledBits(w, low, Offset(k - 1));
    }
  }

  lemma OddAt(w: bv32)
    ensures Odd(w) <==> BitAt(w, 0)
  {
    hide Offset, Bit, Odd;
    SameInt(Offset(0), 0);
    HalvedBits(w, 0);
  }

  lemma HalvedAt(w: bv32, k: nat)
    requires k < 31
    ensures BitAt(Halved(w), k) <==> BitAt(w, k + 1)
  {
    hide Offset, Bit, Halved;
    NextOffset(k);
    SmallOffset(k);
    HalvedBits(w, Offset(k));
  }

  lemma NextBit(low: bool, rest: nat, k: nat)
    ensures BitOf((if low then 1 else 0) + 2 * rest, k) <==> if k == 0 then low else BitOf(rest, k - 1)
  {
  }

  /** And reads them back. */
  lemma {:induction false} NumberBits(w: bv32, n: nat, k: nat)
    requires k < n <= 32
    ensures BitOf(Number(w, n), k) <==> BitAt(w, k)
    decreases n
  {
    hide Offset, Bit, Halved, Odd, BitOf, Pow2, BitAt;
    NextBit(Odd(w), Number(Halved(w), n - 1), k);
    if k == 0 {
      OddAt(w);
    } else {
      NumberBits(Halved(w), n - 1, k - 1);
      HalvedAt(w, k - 1);
    }
  }

  /** The registers plic_write leaves. */
  function Written(s: Regs, addr: u64, data: u64): Outcome<Regs> {
    if addr % 4 != 0 then Stop(Panic)
    else if addr <= 0x210 then
      (if addr / 4 > SOURCES then Stop(Undefined) else Ok(s.(priority := s.priority[addr / 4 := data % 8])))
    else if 0x2000 <= addr <= 0x2010 then Ok(s.(mie := s.mie[(addr - 0x2000) / 4 := WordOf(data)]))
    else if 0x2080 <= addr <= 0x2090 then Ok(s.(sie := s.sie[(addr - 0x2080) / 4 := WordOf(data)]))
    else if addr == 0x200000 then Ok(s.(mpt := Low32(data)))
    else if addr == 0x201000 then Ok(s.(spt := Low32(data)))
    else if addr == ClaimAddr(Machine) then Complete(s, Machine, Low32(data))
    else if addr == ClaimAddr(Supervisor) then Complete(s, Supervisor, Low32(data))
    else Stop(Panic)
  }

  /** The number of a mode's context in the register map. */
  function Context(m: Mode): nat { if m == Machine then 0 else 1 }

  /** Where the w-th word of a mode's enables is. */
  function EnableWord(m: Mode, w: nat): nat { 0x2000 + 0x80 * Context(m) + 4 * w }

  /** The accesses plic_write accepts. */
  predicate Accepted(s: Regs, addr: u64, data: u64) {
    && addr % 4 == 0
    && (addr < 4 * 128 || AcceptedFor(s, Machine, addr, data) || AcceptedFor(s, Supervisor, addr, data))
  }

  /** A mode's threshold, its claim register for the value it holds, its five words of
      enables. */
  predicate AcceptedFor(s: Regs, m: Mode, addr: u64, data: u64) {
    || addr == 0x20_0000 + 0x1000 * Context(m)
    || (addr == 0x20_0004 + 0x1000 * Context(m) && ClaimReg(s, m) == data % B32)
    || EnableWord(m, 0) <= addr < EnableWord(m, 5)
  }

  /** A register write changes the one register of its address: a source's priority,
      which is taken modulo 8, a mode's threshold or claim register, or the enable
      bits of 32 ids. It never changes what is pending. */
  lemma WriteMeaning(s: Regs, addr: u64, data: u64)
    ensures Written(s, addr, data).Ok? <==> Accepted(s, addr, data)
    ensures Written(s, addr, data).Ok? ==>
              var t := Written(s, addr, data).value;
              && t.pending == s.pending
              && (forall id :: 0 <= id <= SOURCES ==>
                    t.priority[id] == if addr == 4 * id then data % 8 else s.priority[id])
              && (forall m :: Threshold(t, m) == if addr == 0x20_0000 + 0x1000 * Context(m) then data % B32
                                                 else Threshold(s, m))
              && (forall m :: ClaimReg(t, m) == if addr == 0x20_0004 + 0x1000 * Context(m) then 0 else ClaimReg(s, m))
              && (forall m, id: nat :: id < 32 * WORDS ==>
                    (InWords(Enables(t, m), id) <==>
                      if addr == EnableWord(m, id / 32) then BitOf(data, id % 32)
                      else InWords(Enables(s, m), id)))
  {
    hide BitAt, BitOf, WordOf, InWords, Enables;
    if Written(s, addr, data).Ok? {
      forall m, id: nat | id < 32 * WORDS
        ensures InWords(Enables(Written(s, addr, data).value, m), id) <==>
                  if addr == EnableWord(m, id / 32) then BitOf(data, id % 32)
                  else InWords(Enables(s, m), id)
      {
        EnableBits(s, addr, data, m, id);
      }
    }
  }

  lemma EnableBits(s: Regs, addr: u64, data: u64, m: Mode, id: nat)
    requires Written(s, addr, data).Ok? && id < 32 * WORDS
    ensures InWords(Enables(Written(s, addr, data).value, m), id) <==>
              if addr == EnableWord(m, id / 32) then BitOf(data, id % 32)
              else InWords(Enables(s, m), id)
  {
    hide BitAt, BitOf, WordOf;
    StoredBits(data, id % 32);
  }

  lemma StoredBits(data: u64, k: nat)
    requires k < 32
    ensures BitAt(WordOf(data), k) <==> BitOf(data, k)
  {
    hide Packed, BitAt, BitOf;
    PackedBits(data, 32, k);
  }

  /** Supervisor mode's enables can be read and give the bits that were written; so can
      the claim registers, machine mode's when it holds an id; a read of anything else
      panics. */
  lemma ReadMeaning(s: Regs, addr: u64)
    requires Sane(s)
    ensures Loaded(s, addr).Ok?
       <==> && addr % 4 == 0
            && (|| EnableWord(Supervisor, 0) <= addr < EnableWord(Supervisor, 5)
                || (addr == 0x20_0004 && s.mcc != 0) || addr == 0x20_1004)
    ensures Loaded(s, addr).Ok? && addr < 0x20_0000 ==>
              var (t, v) := Loaded(s, addr).value;
              && t == s
              && forall id: nat :: id < 32 * WORDS && addr == EnableWord(Supervisor, id / 32) ==>
                   (BitOf(v, id % 32) <==> InWords(s.sie, id))
  {
    hide InWords, BitOf;
    if Loaded(s, addr).Ok? && addr < 0x20_0000 {
      forall id: nat | id < 32 * WORDS && addr == EnableWord(Supervisor, id / 32)
        ensures BitOf(Loaded(s, addr).value.1, id % 32) <==> InWords(s.sie, id)
      {
        ReadBits(s.sie, id);
      }
    }
  }

  lemma ReadBits(words: seq<bv32>, id: nat)
    requires |words| == WORDS && id < 32 * WORDS
    ensures BitOf(ValueOf(words[id / 32]), id % 32) <==> InWords(words, id)
  {
    hide Number, BitAt, BitOf;
    NumberBits(words[id / 32], 32, id % 32);
  }

  // --------------------------------------------------- words as a set of ids

  lemma SameId(j: nat, id: nat)
    ensures j / 32 == id / 32 && j % 32 == id % 32 <==> j == id
  {
  }

  lemma BitsAfterSet(words: seq<bv32>, id: nat, j: nat)
    requires |words| == WORDS && id < 32 * WORDS && j < 32 * WORDS
    ensures var words' := words[id / 32 := WithBit(words[id / 32], Offset(id % 32))];
            InWords(words', j) <==> j == id || InWords(words, j)
  {
    hide Offset, Bit, WithBit, WithoutBit;
    SameId(j, id);
    OffsetsDiffer(j % 32, id % 32);
    SetBit(words[id / 32], Offset(id % 32), Offset(j % 32));
  }

  lemma BitsAfterClear(words: seq<bv32>, id: nat, j: nat)
    requires |words| == WORDS && id < 32 * WORDS && j < 32 * WORDS
    ensures var words' := words[id / 32 := WithoutBit(words[id / 32], Offset(id % 32))];
            InWords(words', j) <==> j != id && InWords(words, j)
  {
    hide Offset, Bit, WithBit, WithoutBit;
    SameId(j, id);
    OffsetsDiffer(j % 32, id % 32);
    ClearBit(words[id / 32], Offset(id % 32), Offset(j % 32));
  }

  /** A signal adds its id to the pending set. */
  lemma SignalAdds(s: Regs, id: Id)
    requires Sane(s)
    ensures Signal(s, id).Ok? && Sane(Signal(s, id).value)
    ensures PendingSet(Signal(s, id).value) == PendingSet(s) + {id}
  {
    hide InWords;
    forall j: nat | j < 32 * WORDS
      ensures InWords(Signal(s, id).value.pending, j) <==> j == id || InWords(s.pending, j)
    {
      BitsAfterSet(s.pending, id, j);
    }
  }

  /** A claim removes the claimed id, keeps every other pending one, and leaves the
      claim register. */
  lemma ClaimRemoves(s: Regs, m: Mode)
    requires Sane(s) && Claim(s, m).Ok?
    ensures var (s', id) := Claim(s, m).value;
            && id == ClaimReg(s, m) && Sane(s') && PendingSet(s') == PendingSet(s) - {id}
            && forall n :: ClaimReg(s', n) == ClaimReg(s, n)
  {
    hide InWords;
    var id := ClaimReg(s, m);
    if id != 0 {
      forall j: nat | j < 32 * WORDS ensures InWords(Cleared(s, id).pending, j) <==> j != id && InWords(s.pending, j) {
        BitsAfterClear(s.pending, id, j);
      }
    }
  }

  // ------------------------------------------------------------------- polling

  predicate Ready(s: Regs, m: Mode, id: nat)
    requires id < 32 * WORDS
  {
    InWords(s.pending, id) && InWords(Enables(s, m), id)
  }

  /** The least ready id of its word. */
  predicate LeastInWord(s: Regs, m: Mode, id: nat)
    requires id < 32 * WORDS
  {
    Ready(s, m, id) && forall j: nat :: j < id && j / 32 == id / 32 ==> !Ready(s, m, j)
  }

  lemma ReadyBits(s: Regs, m: Mode, i: nat, j: nat)
    requires i < WORDS && j < 32
    ensures BitAt(Both(s.pending[i], Enables(s, m)[i]), j) <==> Ready(s, m, i * 32 + j)
  {
    hide Offset, Bit, Both;
    BothBits(s.pending[i], Enables(s, m)[i], Offset(j));
    assert (i * 32 + j) / 32 == i && (i * 32 + j) % 32 == j;
  }

  lemma CandidateMeaning(s: Regs, m: Mode, i: nat, id: nat)
    requires i < WORDS && Sane(s) && id < 32 * WORDS && id / 32 == i
    ensures Candidate(s, m, i) == Some(id) <==> LeastInWord(s, m, id)
    ensures LeastInWord(s, m, id) ==> 0 < id <= SOURCES
  {
    hide InWords, BitAt, Ready, Both;
    var w := Both(s.pending[i], Enables(s, m)[i]);
    var f := FirstFrom(w, 0);
    forall j: nat | j < 32 ensures BitAt(w, j) <==> Ready(s, m, i * 32 + j) {
      ReadyBits(s, m, i, j);
    }
    var k := id % 32;
    assert id == i * 32 + k;
    if f == k {
      forall j: nat | j < id && j / 32 == i ensures !Ready(s, m, j) {
        assert j == i * 32 + j % 32 && !BitAt(w, j % 32);
      }
    } else if f < k {
      assert BitAt(w, f) && (i * 32 + f) / 32 == i;
    } else {
      assert !BitAt(w, k);
    }
    LeastIsSane(s, m, id);
  }

  lemma LeastIsSane(s: Regs, m: Mode, id: nat)
    requires Sane(s) && id < 32 * WORDS
    ensures LeastInWord(s, m, id) ==> 0 < id <= SOURCES
  {
    hide Offset, Bit, BitAt;
  }

  /** One word's candidate, as the loop finds it. */
  lemma CandidateIs(s: Regs, m: Mode, i: nat)
    requires i < WORDS && Sane(s)
    ensures var w := Both(s.pending[i], Enables(s, m)[i]);
            Candidate(s, m, i) == if w == 0 then None else Some(i * 32 + FirstFrom(w, 0))
    ensures Candidate(s, m, i).Some? ==> 0 < Candidate(s, m, i).value <= SOURCES
  {
    hide Both, Sane, LeastInWord, BitAt, FirstFrom;
    HasFirst(Both(s.pending[i], Enables(s, m)[i]));
    if Candidate(s, m, i).Some? {
      CandidateInWord(s, m, i);
      CandidateMeaning(s, m, i, Candidate(s, m, i).value);
    }
  }

  /** What is deliverable: the least ready id of its word, above the threshold. */
  predicate Deliverable(s: Regs, m: Mode, id: nat) {
    0 < id <= SOURCES && LeastInWord(s, m, id) && s.priority[id] > Threshold(s, m)
  }

  lemma {:induction false} ScanMeaning(s: Regs, m: Mode, i: nat)
    requires i <= WORDS && Sane(s)
    ensures var id := Scan(s, m, i);
            && id <= SOURCES
            && (id != 0 ==> Deliverable(s, m, id) && i <= id / 32)
            && (forall j: nat :: i <= j / 32 && Deliverable(s, m, j) ==> id != 0 && (j == id || id / 32 < j / 32))
    decreases WORDS - i
  {
    hide LeastInWord, Candidate;
    if i == WORDS {
    } else {
      ScanMeaning(s, m, i + 1);
      var c := Candidate(s, m, i);
      if c.Some? {
        CandidateInWord(s, m, i);
        CandidateMeaning(s, m, i, c.value);
      }
      forall j: nat | j / 32 == i && Deliverable(s, m, j) ensures c == Some(j) { CandidateMeaning(s, m, i, j); }
    }
  }

  lemma CandidateInWord(s: Regs, m: Mode, i: nat)
    requires i < WORDS && Candidate(s, m, i).Some?
    ensures Candidate(s, m, i).value / 32 == i && Candidate(s, m, i).value < 32 * WORDS
  {
  }

  /** A poll returns the least ready id of the first word whose least ready id
      exceeds the threshold, and 0 exactly when no word has one; only a nonzero
      result is put in the claim register, and nothing else changes. */
  lemma PollMeaning(s: Regs, m: Mode)
    requires Sane(s)
    ensures var (s', id) := Poll(s, m);
            && (id == 0 <==> forall j: nat :: !Deliverable(s, m, j))
            && (id != 0 ==>
                  Deliverable(s, m, id) && forall j: nat :: Deliverable(s, m, j) && j != id ==> id / 32 < j / 32)
            && s' == (if id == 0 then s else WithClaim(s, m, id)) && Sane(s')
            && (id != 0 ==> ClaimReg(s', m) == id && id in PendingSet(s'))
  {
    hide LeastInWord, InWords, Scan;
    var id := Scan(s, m, 0);
    ScanMeaning(s, m, 0);
    if id != 0 {
      LeastIsPending(s, m, id);
    } else {
      forall j: nat ensures !Deliverable(s, m, j) {}
    }
  }

  lemma LeastIsPending(s: Regs, m: Mode, id: nat)
    requires Deliverable(s, m, id)
    ensures id in PendingSet(s)
  {
    hide Offset, Bit, BitAt;
  }

  /** A ready interrupt above the threshold. */
  predicate Above(s: Regs, m: Mode, id: nat) {
    0 < id <= SOURCES && Ready(s, m, id) && s.priority[id] > Threshold(s, m)
  }

  /** A poll finds every interrupt that stands alone in its word; it misses one
      exactly when all ready ids above the threshold are hidden, each by a lower
      ready id of its word whose own priority does not pass. */
  lemma PollMissesIff(s: Regs, m: Mode)
    requires Sane(s)
    ensures Poll(s, m).1 == 0
       <==> forall id: nat :: Above(s, m, id) ==> exists j: nat :: Hides(s, m, j, id)
  {
    hide InWords;
    PollMeaning(s, m);
    if Poll(s, m).1 == 0 {
      forall id: nat | Above(s, m, id) ensures exists j: nat :: Hides(s, m, j, id) {
        var j := LeastOf(s, m, id);
        assert !Deliverable(s, m, j);
        assert Hides(s, m, j, id);
      }
    } else {
      var id := Poll(s, m).1;
      assert Above(s, m, id);
      forall j: nat ensures !Hides(s, m, j, id) {}
    }
  }

  /** Both 1 and 2 are pending and enabled, and only 2 has a priority: the poll finds
      nothing, though 2 passes. */
  lemma PollCanMiss(m: Mode) returns (s: Regs)
    ensures Sane(s) && Above(s, m, 2) && Hides(s, m, 1, 2) && Poll(s, m).1 == 0
  {
    hide Offset, Bit, Both, Sane, FirstFrom, LeastInWord, Scan;
    var w := [6, 0, 0, 0, 0];
    s := RESET.(priority := RESET.priority[2 := 7], pending := w, sie := w, mie := w);
    BitsOfSix();
    forall id: nat | id < 32 * WORDS ensures Ready(s, m, id) <==> id == 1 || id == 2 {
      if id >= 32 { ZeroHasNoBit(Offset(id % 32)); }
    }
    assert Sane(s) by { SixIsSane(s, m); }
    assert LeastInWord(s, m, 1) by { SixLeast(s, m); }
    forall id: nat | Above(s, m, id) ensures exists j: nat :: Hides(s, m, j, id) { assert Hides(s, m, 1, id); }
    PollMissesIff(s, m);
  }

  lemma BitsOfSix()
    ensures forall k: nat :: k < 32 ==> (BitAt(6, k) <==> k == 1 || k == 2)
  {
    hide Offset;
    SameInt(Offset(1), 1);
    SameInt(Offset(2), 2);
    forall k: nat | k < 32 ensures BitAt(6, k) <==> k == 1 || k == 2 {
      OffsetsDiffer(k, 1);
      OffsetsDiffer(k, 2);
      TwoBits(Offset(k));
    }
  }

  lemma TwoBits(o: bv32)
    requires o < 32
    ensures Bit(6, o) <==> o == 1 || o == 2
  {
  }

  lemma SixIsSane(s: Regs, m: Mode)
    requires s.mcc == s.scc == 0 && s.pending == Enables(s, m)
    requires forall id: nat :: id < 32 * WORDS ==> (Ready(s, m, id) <==> id == 1 || id == 2)
    ensures Sane(s)
  {
    hide InWords;
    assert forall id: nat :: id < 32 * WORDS ==> (InWords(s.pending, id) <==> Ready(s, m, id));
  }

  lemma SixLeast(s: Regs, m: Mode)
    requires forall id: nat :: id < 32 * WORDS ==> (Ready(s, m, id) <==> id == 1 || id == 2)
    ensures LeastInWord(s, m, 1)
  {
    hide Ready;
  }

  /** j is below id in the same word, is the word's least ready id, and does not pass. */
  predicate Hides(s: Regs, m: Mode, j: nat, id: nat) {
    && j < id <= SOURCES && j / 32 == id / 32 && LeastInWord(s, m, j) && s.priority[j] <= Threshold(s, m)
  }

  /** The least ready id of a word that has one. */
  lemma {:induction false} LeastOf(s: Regs, m: Mode, id: nat) returns (j: nat)
    requires Sane(s) && id < 32 * WORDS && Ready(s, m, id)
    ensures j <= id && j / 32 == id / 32 && LeastInWord(s, m, j) && 0 < j <= SOURCES
    decreases id
  {
    hide InWords, Ready;
    if k: nat :| k < id && k / 32 == id / 32 && Ready(s, m, k) {
      j := LeastOf(s, m, k);
    } else {
      j := id;
      LeastIsSane(s, m, j);
    }
  }

  // ---------------------------------------------------------------- whole runs

  /** Everything that happens to the controller: devices signal, the CPU polls, and
      the guest reads and writes any address. */
  datatype Action = Signals(id: u32) | Polls(m: Mode) | Reads(addr: u64) | Writes(addr: u64, data: u64)

  /** What a run shows. */
  datatype Seen = Signalled(id: nat) | Claimed(id: nat) | Polled(m: Mode, id: nat) | Completed(m: Mode) | Other

  /** What an accepted access of an address shows. */
  function ReadShows(addr: u64, v: u32): Seen {
    if addr == ClaimAddr(Machine) || addr == ClaimAddr(Supervisor) then Claimed(v) else Other
  }

  function WriteShows(addr: u64): Seen {
    if addr == ClaimAddr(Machine) then Completed(Machine)
    else if addr == ClaimAddr(Supervisor) then Completed(Supervisor)
    else Other
  }

  function Step(s: Regs, a: Action): Outcome<(Regs, Seen)> {
    match a
    case Signals(id) => var s' :- Signal(s, id); Ok((s', Signalled(id)))
    case Polls(m) => var (s', id) := Poll(s, m); Ok((s', Polled(m, id)))
    case Reads(addr) => var c :- Loaded(s, addr); Ok((c.0, ReadShows(addr, c.1)))
    case Writes(addr, data) => var s' :- Written(s, addr, data); Ok((s', WriteShows(addr)))
  }

  /** The pending set after what a step shows. */
  function PendingThen(p: set<nat>, e: Seen): set<nat> {
    match e
    case Signalled(id) => p + {id}
    case Claimed(id) => p - {id}
    case _ => p
  }

  /** A mode's claim register after what a step shows. */
  function ClaimThen(v: nat, m: Mode, e: Seen): nat {
    match e
    case Polled(k, id) => if k == m && id != 0 then id else v
    case Completed(k) => if k == m then 0 else v
    case _ => v
  }

  /** A step changes the pending set and the claim registers as what it shows says. */
  lemma StepShows(s: Regs, a: Action, m: Mode)
    requires Sane(s) && Step(s, a).Ok?
    ensures var (s', e) := Step(s, a).value;
            && Sane(s') && PendingSet(s') == PendingThen(PendingSet(s), e)
            && ClaimReg(s', m) == ClaimThen(ClaimReg(s, m), m, e)
  {
    hide InWords, Scan, Loaded, Written, Signal, Claim, Poll, PendingSet, Sane;
    match a
    case Signals(id) => SignalShows(s, id, m);
    case Polls(n) => PollShows(s, n, m);
    case Reads(addr) => ReadStep(s, addr, m);
    case Writes(addr, data) => WriteStep(s, addr, data, m);
  }

  lemma SignalShows(s: Regs, id: u32, m: Mode)
    requires Sane(s) && Signal(s, id).Ok?
    ensures Sane(Signal(s, id).value) && PendingSet(Signal(s, id).value) == PendingSet(s) + {id as nat}
    ensures ClaimReg(Signal(s, id).value, m) == ClaimReg(s, m)
  {
    hide Sane, PendingSet;
    SignalAdds(s, id);
  }

  lemma PollShows(s: Regs, n: Mode, m: Mode)
    requires Sane(s)
    ensures var (s', id) := Poll(s, n);
            && Sane(s') && PendingSet(s') == PendingSet(s)
            && ClaimReg(s', m) == if n == m && id != 0 then id else ClaimReg(s, m)
  {
    hide InWords, Scan, Sane;
    PollMeaning(s, n);
  }

  lemma ReadStep(s: Regs, addr: u64, m: Mode)
    requires Sane(s) && Loaded(s, addr).Ok?
    ensures var (s', v) := Loaded(s, addr).value;
            && Sane(s') && PendingSet(s') == PendingThen(PendingSet(s), ReadShows(addr, v))
            && ClaimReg(s', m) == ClaimReg(s, m)
  {
    hide Sane, PendingSet, Claim;
    if addr == ClaimAddr(Machine) {
      ClaimRemoves(s, Machine);
    } else if addr == ClaimAddr(Supervisor) {
      ClaimRemoves(s, Supervisor);
    }
  }

  lemma WriteStep(s: Regs, addr: u64, data: u64, m: Mode)
    requires Sane(s) && Written(s, addr, data).Ok?
    ensures var t := Written(s, addr, data).value;
            && Sane(t) && PendingSet(t) == PendingSet(s)
            && ClaimReg(t, m) == ClaimThen(ClaimReg(s, m), m, WriteShows(addr))
  {
    hide InWords, Written;
    WriteMeaning(s, addr, data);
    var t := Written(s, addr, data).value;
    assert ClaimReg(t, Machine) <= SOURCES && ClaimReg(t, Supervisor) <= SOURCES;
  }

  /** A run from reset, with what it shows; it stops at a panic. */
  function Run(acts: seq<Action>): Outcome<(Regs, seq<Seen>)>
  {
    if acts == [] then Ok((RESET, []))
    else
      var n := |acts| - 1;
      var before :- Run(acts[..n]);
      var last :- Step(before.0, acts[n]);
      Ok((last.0, before.1 + [last.1]))
  }

  /** The ids signalled and not claimed since. */
  function Unclaimed(seen: seq<Seen>): set<nat> {
    if seen == [] then {} else PendingThen(Unclaimed(seen[..|seen| - 1]), seen[|seen| - 1])
  }

  /** The last id polled for the mode since its last completion, else 0. */
  function LastPolled(seen: seq<Seen>, m: Mode): nat {
    if seen == [] then 0 else ClaimThen(LastPolled(seen[..|seen| - 1], m), m, seen[|seen| - 1])
  }

  /** Over every run from reset, whatever is read and written: what is pending is
      what was signalled and not claimed since, and a claim register is the last id
      polled for its mode since its last completion, else 0. */
  lemma {:induction false} RunMeaning(acts: seq<Action>, m: Mode)
    requires Run(acts).Ok?
    ensures var (t, seen) := Run(acts).value;
            Sane(t) && PendingSet(t) == Unclaimed(seen) && ClaimReg(t, m) == LastPolled(seen, m)
  {
    hide Step, PendingSet, ClaimReg, Sane, PendingThen, ClaimThen;
    if acts == [] {
      AtReset(m);
    } else {
      var n := |acts| - 1;
      RunMeaning(acts[..n], m);
      var (s, before) := Run(acts[..n]).value;
      StepShows(s, acts[n], m);
      var seen := Run(acts).value.1;
      assert seen[..|seen| - 1] == before;
    }
  }

  lemma AtReset(m: Mode)
    ensures Sane(RESET) && PendingSet(RESET) == {} && ClaimReg(RESET, m) == 0
  {
    ResetSane();
  }

  lemma ResetSane()
    ensures Sane(RESET) && PendingSet(RESET) == {}
  {
    hide Offset, Bit;
    forall id: nat | id < 32 * WORDS ensures !InWords(RESET.pending, id) { ZeroHasNoBit(Offset(id % 32)); }
  }

  /** A write to a claim register is accepted exactly for the last id polled for the
      mode since its last completion, and then empties it. */
  lemma CompleteIff(acts: seq<Action>, m: Mode, data: u64)
    requires Run(acts).Ok?
    ensures var (t, seen) := Run(acts).value;
            && (Written(t, ClaimAddr(m), data).Ok? <==> Low32(data) == LastPolled(seen, m))
            && (Written(t, ClaimAddr(m), data).Ok? ==> ClaimReg(Written(t, ClaimAddr(m), data).value, m) == 0)
  {
    hide Run, LastPolled, Sane;
    RunMeaning(acts, m);
  }

  /** A read of a claim register returns that id and makes it no longer pending; with
      nothing polled, machine mode panics and supervisor mode reads 0. */
  lemma ClaimIff(acts: seq<Action>, m: Mode)
    requires Run(acts).Ok?
    ensures var (t, seen) := Run(acts).value;
            && (Loaded(t, ClaimAddr(m)).Ok? <==> LastPolled(seen, m) != 0 || m == Supervisor)
            && (Loaded(t, ClaimAddr(m)).Ok? ==>
                  var (t', v) := Loaded(t, ClaimAddr(m)).value;
                  v == LastPolled(seen, m) && PendingSet(t') == Unclaimed(seen) - {v as nat})
  {
    hide Run, LastPolled, Unclaimed, PendingSet;
    RunMeaning(acts, m);
    assert ClaimReg(Run(acts).value.0, m) <= SOURCES;
    if Claim(Run(acts).value.0, m).Ok? { ClaimRemoves(Run(acts).value.0, m); }
  }

  // ------------------------------------------------------------- the controller

  /** The controller's registers in place. */
  class Controller {
    const priority: array<u32>
    var mpt: u32
    var spt: u32
    var mcc: u32
    var scc: u32
    const mie: array<bv32>
    const sie: array<bv32>
    const pending: array<bv32>

    predicate Valid() {
      && priority.Length == SOURCES + 1 && mie.Length == sie.Length == pending.Length == WORDS
      && mie != sie && mie != pending && sie != pending
    }

    function Contents(): Regs
      requires Valid()
      reads this, priority, mie, sie, pending
    {
      Regs(priority[..], mpt, spt, mcc, scc, mie[..], sie[..], pending[..])
    }

    /** plic_init */
    constructor ()
      ensures Valid() && Contents() == RESET
      ensures fresh(priority) && fresh(mie) && fresh(sie) && fresh(pending)
    {
      priority := new u32[SOURCES + 1](_ => 0);
      mpt, spt, mcc, scc := 0, 0, 0, 0;
      mie := new bv32[WORDS](_ => 0);
      sie := new bv32[WORDS](_ => 0);
      pending := new bv32[WORDS](_ => 0);
    }

    /** plic_signal */
    method SignalId(id: u32) returns (r: Outcome<()>)
      requires Valid()
      modifies pending
      ensures match Signal(old(Contents()), id)
              case Ok(s) => r.Ok? && Contents() == s
              case Stop(why) => r == Stop(why) && Contents() == old(Contents())
    {
      hide Offset, WithBit;
      if id == 0 { return Stop(Panic); }
      if id > SOURCES { return Stop(Undefined); }
      pending[id / 32] := WithBit(pending[id / 32], Offset(id % 32));
      return Ok(());
    }

    /** clear_pending_bit */
    method ClearPendingBit(id: nat)
      requires Valid() && 0 < id <= SOURCES
      modifies pending
      ensures Contents() == Cleared(old(Contents()), id)
    {
      hide Offset, WithoutBit;
      pending[id / 32] := WithoutBit(pending[id / 32], Offset(id % 32));
    }

    /** plic_read */
    method ReadReg(addr: u64) returns (r: Outcome<u32>)
      requires Valid()
      modifies pending
      ensures match Loaded(old(Contents()), addr)
              case Ok((s, v)) => r == Ok(v) && Contents() == s
              case Stop(why) => r == Stop(why) && Contents() == old(Contents())
    {
      hide Offset, WithoutBit;
      if addr % 4 != 0 { return Stop(Panic); }
      if 0x2080 <= addr <= 0x2090 { return Ok(ValueOf(sie[(addr - 0x2080) / 4])); }
      if addr == 0x200004 {
        if mcc == 0 { return Stop(Panic); }
        if mcc > SOURCES { return Stop(Undefined); }
        ClearPendingBit(mcc);
        return Ok(mcc);
      }
      if addr == 0x201004 {
        if scc == 0 { return Ok(0); }
        if scc > SOURCES { return Stop(Undefined); }
        ClearPendingBit(scc);
        return Ok(scc);
      }
      return Stop(Panic);
    }

    /** plic_write. The priority range it accepts runs past the array. */
    method WriteReg(addr: u64, data: u64) returns (r: Outcome<()>)
      requires Valid()
      modifies this, priority, mie, sie
      ensures match Written(old(Contents()), addr, data)
              case Ok(s) => r.Ok? && Contents() == s
              case Stop(why) => r == Stop(why) && Contents() == old(Contents())
    {
      if addr % 4 != 0 { return Stop(Panic); }
      if addr <= 0x210 {
        if addr / 4 > SOURCES { return Stop(Undefined); }
        priority[addr / 4] := data % 8;
        return Ok(());
      }
      if 0x2000 <= addr <= 0x2010 {
        mie[(addr - 0x2000) / 4] := WordOf(data);
        return Ok(());
      }
      if 0x2080 <= addr <= 0x2090 {
        sie[(addr - 0x2080) / 4] := WordOf(data);
        return Ok(());
      }
      if addr == 0x200000 { mpt := Low32(data); return Ok(()); }
      if addr == 0x201000 { spt := Low32(data); return Ok(()); }
      if addr == 0x200004 {
        if mcc != Low32(data) { return Stop(Panic); }
        mcc := 0;
        return Ok(());
      }
      if addr == 0x201004 {
        if scc != Low32(data) { return Stop(Panic); }
        scc := 0;
        return Ok(());
      }
      return Stop(Panic);
    }

    /** first_one */
    static method FirstOne(bits: bv32) returns (r: Outcome<nat>)
      ensures r == if bits == 0 then Stop(Panic) else Ok(FirstFrom(bits, 0))
    {
      hide Offset, Bit, From, Halved, Odd;
      var n, b: bv32 := 0, bits;
      ghost var o: bv32 := 0;
      SameInt(Offset(0), 0);
      FromNone(bits);
      while n < 32
        invariant 0 <= n <= 32 && o <= 32 && b == From(bits, o)
        invariant n < 32 ==> Offset(n) == o
        invariant FirstFrom(bits, 0) == FirstFrom(bits, n)
      {
        OneFurther(bits, o);
        if Odd(b) {
          HasFirst(bits);
          return Ok(n);
        }
        if n < 31 { NextOffset(n); }
        n, b, o := n + 1, Halved(b), o + 1;
      }
      HasFirst(bits);
      return Stop(Panic);
    }

    method SetClaim(m: Mode, id: u32)
      requires Valid()
      modifies this
      ensures Contents() == WithClaim(old(Contents()), m, id)
    {
      if m == Supervisor { scc := id; } else { mcc := id; }
    }

    /** plic_interrupt, for the mode the interrupt would go to. */
    method Interrupt(m: Mode) returns (ret: u32)
      requires Valid() && Sane(Contents())
      modifies this
      ensures (Contents(), ret) == Poll(old(Contents()), m)
    {
      hide Both, FirstFrom, Candidate, Sane, WithClaim;
      var xie := if m == Supervisor then sie else mie;
      var xpt := if m == Supervisor then spt else mpt;
      ghost var s := Contents();
      ret := 0;
      var i := 0;
      while i < WORDS
        invariant 0 <= i <= WORDS && ret == 0 && Contents() == s && Scan(s, m, 0) == Scan(s, m, i)
      {
        var bits := Both(pending[i], xie[i]);
        CandidateIs(s, m, i);
        if bits != 0 {
          var f := FirstOne(bits);
          if priority[i * 32 + f.value] > xpt {
            ret := i * 32 + f.value;
            SetClaim(m, ret);
            break;
          }
        }
        i := i + 1;
      }
    }
  }

  /** The bits of w from o up. */
  function From(w: bv32, o: bv32): bv32
    requires o <= 32
  {
    w >> o
  }

  lemma FromNone(w: bv32)
    ensures From(w, 0) == w
  {
  }


  lemma OneFurther(w: bv32, o: bv32)
    requires o < 32
    ensures o + 1 <= 32 && Halved(From(w, o)) == From(w, o + 1)
    ensures Odd(From(w, o)) <==> Bit(w, o)
  {
  }
}

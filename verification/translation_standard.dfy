/** Address translation (mmu.c) against Sv39 as sections 3.1.6.3, 4.3.2 and 4.4.1 of
    the Privileged ISA 20190608 define it, with the permission, accessed, dirty,
    alignment and address checks the code leaves out: exactly when the two agree. */
module TranslationStandard {
  import opened Wrappers
  import opened Words
  import opened Memory
  import opened Fields
  import opened Hart
  import opened Translation

  datatype Access = Execute | Read | Store

  /** The fields of mstatus that translation depends on: MPRV and MPP, SUM and MXR. */
  datatype Control = Control(mprv: bool, mpp: Priv, sum: bool, mxr: bool)

  const SV39 := 8

  // ------------------------------------------------------------- fields of words

  /** Bits hi:lo of a word. */
  function Bits(x: u64, hi: nat, lo: nat): nat
    requires lo <= hi + 1
  {
    x / Pow2(lo) % Pow2(hi + 1 - lo)
  }

  predicate Bit(x: u64, k: nat) { Bits(x, k, k) == 1 }

  function Mode(s: State): nat { Bits(s.csr[SATP], 63, 60) }

  /** VPN[i] of a virtual address: bits 20:12, 29:21 and 38:30. */
  function Vpn(va: u64, i: Level): nat { Bits(va, 20 + 9 * i, 12 + 9 * i) }

  /** Where the entry for va lies in a table: eight bytes each, in order of VPN[i]. */
  function EntryAt(table: nat, va: u64, i: Level): nat { table + 8 * Vpn(va, i) }

  /** The page number an entry holds, in its bits 53:10. */
  function Ppn(pte: u64): nat { Bits(pte, 53, 10) }

  /** The root table's page number lies in satp's bits 43:0. */
  function StdRoot(s: State): nat { 0x1000 * Bits(s.csr[SATP], 43, 0) }

  // ---------------------------------------------------------------- the checks

  /** Bits 63:39 of an address all equal bit 38. */
  predicate Canonical(va: u64) { va < 0x40_0000_0000 || va >= B64 - 0x40_0000_0000 }

  /** Loads and stores are translated for MPP when MPRV is set. */
  function Effective(s: State, c: Control, access: Access): Priv {
    if access != Execute && c.mprv then c.mpp else s.priv
  }

  /** R, W, X and U are bits 1 to 4 of an entry. */
  predicate Permits(pte: u64, priv: Priv, c: Control, access: Access) {
    && (match access
        case Execute => Bit(pte, 3)
        case Read => Bit(pte, 1) || (c.mxr && Bit(pte, 3))
        case Store => Bit(pte, 2))
    && if priv == U_MODE then Bit(pte, 4) else !Bit(pte, 4) || (access != Execute && c.sum)
  }

  /** A superpage's page number has no low bits: PPN[0], and PPN[1] for a gigabyte. */
  predicate FrameAligned(pte: u64, level: Level) { Bits(pte, 9 + 9 * level, 10) == 0 }

  /** The page has been accessed (bit 6), and written (bit 7) before it is stored to;
      otherwise the access faults, so that software sets the bits. */
  predicate Marked(pte: u64, access: Access) { Bit(pte, 6) && (access == Store ==> Bit(pte, 7)) }

  /** A leaf entry that grants the access. */
  predicate LeafOk(pte: u64, level: Level, priv: Priv, c: Control, access: Access) {
    Permits(pte, priv, c, access) && FrameAligned(pte, level) && Marked(pte, access)
  }

  // -------------------------------------------------------- the standard's walk

  /** Steps 2 to 8 of section 4.3.2, from the table for one level on. */
  function StdWalk(ram: Ram, table: nat, va: u64, i: Level, priv: Priv, c: Control, access: Access)
      : Outcome<Option<u64>>
    decreases i
  {
    if EntryAt(table, va, i) >= B64 then Stop(OutsideRam)
    else
      var pte :- ReadPhys(ram, EntryAt(table, va, i), 8);
      if !Bit(pte, 0) || (!Bit(pte, 1) && Bit(pte, 2)) then Ok(None)
      else if !Bit(pte, 1) && !Bit(pte, 3) then
        if i == 0 then Ok(None) else StdWalk(ram, 0x1000 * Ppn(pte), va, i - 1, priv, c, access)
      else if !Permits(pte, priv, c, access) then Ok(None)
      else if !FrameAligned(pte, i) then Ok(None)
      else if !Marked(pte, access) then Ok(None)
      else
        var pa := 0x1000 * Ppn(pte) + Bits(va, 11 + 9 * i, 0);
        if pa >= B64 then Stop(OutsideRam) else Ok(Some(pa))
  }

  predicate StdBare(s: State, c: Control, access: Access) { Effective(s, c, access) == M_MODE || Mode(s) == 0 }

  function StdTranslate(s: State, va: u64, c: Control, access: Access): Outcome<Option<u64>> {
    if StdBare(s, c, access) then Ok(Some(va))
    else if !Canonical(va) then Ok(None)
    else StdWalk(s.ram, StdRoot(s), va, 2, Effective(s, c, access), c, access)
  }

  // --------------------------------------------------- the code's fields are these

  lemma Weights()
    ensures Pow2(0) == 1 && Pow2(1) == 2 && Pow2(2) == 4 && Pow2(3) == 8 && Pow2(4) == 0x10
    ensures Pow2(9) == 0x200 && Pow2(10) == 0x400 && Pow2(12) == 0x1000 && Pow2(18) == 0x4_0000
    ensures Pow2(21) == 0x20_0000 && Pow2(30) == 0x4000_0000
    ensures Pow2(44) == 0x1000_0000_0000 && Pow2(60) == 0x1000_0000_0000_0000
  {
    assert Pow2(2) == 4 && Pow2(4) == 0x10;
    assert Pow2(9) == 0x200;
    Pow2Sum(1, 9);
    Pow2Sum(3, 9);
    Pow2Sum(9, 9);
    Pow2Sum(12, 9);
    Pow2Sum(21, 9);
    Pow2Sum(14, 30);
    Pow2Sum(2, 12);
    Pow2Sum(30, 30);
  }

  /** The entry the code reads is the one VPN[i] names. */
  lemma SlotIsEntry(table: nat, va: u64, i: Level)
    requires IsTable(table)
    ensures Slot(table, va, i) == EntryAt(table, va, i)
  {
    Weights();
    hide Pow2;
  }

  lemma RootIsStd(s: State)
    ensures Root(s) == StdRoot(s) && (Mode(s) == 0 <==> s.csr[SATP] / 0x1000_0000_0000_0000 == 0)
  {
    Weights();
    hide Pow2;
  }

  /** V, R, W and X as the code reads them, and the page number. */
  lemma PteIsStd(pte: u64)
    ensures PteBad(pte) <==> !Bit(pte, 0) || (!Bit(pte, 1) && Bit(pte, 2))
    ensures PteLeaf(pte) <==> Bit(pte, 1) || Bit(pte, 3)
    ensures NextTable(pte) == 0x1000 * Ppn(pte)
  {
    Weights();
    hide Pow2;
  }

  /** For every leaf the code joins the entry's bits from 10, 19 or 28 up to 53 and the
      address bits below, whether the page number is aligned or not. */
  lemma LeafFields(pte: u64, level: Level, va: u64)
    ensures LeafAddress(pte, level, va)
         == Bits(pte, 53, 10 + 9 * level) * Pow2(12 + 9 * level) + Bits(va, 11 + 9 * level, 0)
  {
    Weights();
    Pow2Sum(9, 10);
    Pow2Sum(18, 10);
    Pow2Sum(9, 26);
    Pow2Sum(9, 35);
    hide Pow2;
  }

  /** For an aligned page number, the frame the code takes is the standard's, and so is
      the offset in it. */
  lemma LeafIsStd(pte: u64, level: Level, va: u64)
    requires FrameAligned(pte, level)
    ensures LeafAddress(pte, level, va) == 0x1000 * Ppn(pte) + Bits(va, 11 + 9 * level, 0)
  {
    Weights();
    hide Pow2;
    var k := PageSize(level) / 0x1000;
    var ppn := pte / 0x400;
    DivDiv(pte, 0x400, k);
    var q := ppn / k;
    assert ppn == k * q;
    if level == 1 {
      AlignedBits(q, 0x200, 0x8_0000_0000);
    } else if level == 2 {
      AlignedBits(q, 0x4_0000, 0x400_0000);
    }
  }

  lemma AlignedBits(q: nat, k: nat, m: nat)
    requires k > 0 && m > 0
    ensures k * m > 0 && k * q % (k * m) == k * (q % m)
  {
    var a, r := DivMod(q, m);
    MulLe(1, m, k);
    Dist(k, m * a, r);
    Assoc(k, m, a);
    MulLe(r + 1, m, k);
    Dist(k, r, 1);
    DivUnique(k * q, k * m, a, k * r);
  }

  /** Two addresses use the same entry of a table exactly if their VPN[i] agree. */
  lemma SameSlotIff(table: nat, va: u64, wa: u64, i: Level)
    requires IsTable(table)
    ensures Slot(table, va, i) == Slot(table, wa, i) <==> Vpn(va, i) == Vpn(wa, i)
  {
    hide Vpn;
    SlotIsEntry(table, va, i);
    SlotIsEntry(table, wa, i);
  }

  /** Canonical addresses of different pages differ in some VPN[i]. */
  lemma PagesDiffer(va: u64, wa: u64)
    requires Canonical(va) && Canonical(wa) && va / 0x1000 != wa / 0x1000
    ensures Vpn(va, 0) != Vpn(wa, 0) || Vpn(va, 1) != Vpn(wa, 1) || Vpn(va, 2) != Vpn(wa, 2)
  {
    hide Vpn, Canonical;
    Recompose(va);
    Recompose(wa);
    TopOf(va);
    TopOf(wa);
  }

  lemma VpnIs(va: u64)
    ensures Vpn(va, 0) == va / 0x1000 % 0x200 && Vpn(va, 1) == va / 0x20_0000 % 0x200
    ensures Vpn(va, 2) == va / 0x4000_0000 % 0x200
  {
    Weights();
    hide Pow2;
  }

  lemma Recompose(va: u64)
    ensures va / 0x1000 == Vpn(va, 0) + 0x200 * Vpn(va, 1) + 0x4_0000 * Vpn(va, 2) + 0x800_0000 * (va / 0x80_0000_0000)
  {
    VpnIs(va);
    DivDiv(va, 0x1000, 0x200);
    DivDiv(va, 0x20_0000, 0x200);
    DivDiv(va, 0x4000_0000, 0x200);
  }

  /** The bits above VPN[2] follow its top bit. */
  lemma TopOf(va: u64)
    requires Canonical(va)
    ensures va / 0x80_0000_0000 == if Vpn(va, 2) < 0x100 then 0 else 0x1ff_ffff
  {
    VpnIs(va);
    hide Vpn;
    var g := va / 0x4000_0000;
    DivDiv(va, 0x4000_0000, 0x200);
    assert g < 0x100 || g >= 0x4_0000_0000 - 0x100;
  }

  // ------------------------------------------------------------------- results

  /** The standard's walk finds the code's leaf, and grants it if it passes the checks. */
  lemma {:induction false} WalkIsStandard(ram: Ram, table: nat, va: u64, level: Level, priv: Priv, c: Control,
                                          access: Access)
    requires IsTable(table)
    ensures StdWalk(ram, table, va, level, priv, c, access)
         == match Walk(ram, table, va, level)
            case Stop(why) => Stop(why)
            case Ok(None) => Ok(None)
            case Ok(Some((pte, l))) =>
              Ok(if LeafOk(pte, l, priv, c, access) then Some(LeafAddress(pte, l, va)) else None)
    decreases level
  {
    hide ReadPhys, Slot, EntryAt, Permits, FrameAligned, Marked, NextTable, Ppn, Bit, Bits, PteBad, PteLeaf;
    hide LeafAddress;
    SlotIsEntry(table, va, level);
    var r := ReadPhys(ram, Slot(table, va, level), 8);
    if r.Ok? {
      var pte := r.value;
      PteIsStd(pte);
      if FrameAligned(pte, level) { LeafIsStd(pte, level, va); }
      if !PteBad(pte) && !PteLeaf(pte) && level > 0 {
        WalkIsStandard(ram, NextTable(pte), va, level - 1, priv, c, access);
      }
    }
  }

  /** What agreement depends on, when both walk the table: the leaf the walk ends at
      grants the access to a canonical address; or there is none. */
  predicate WalksAgree(s: State, va: u64, c: Control, access: Access) {
    match Walk(s.ram, Root(s), va, 2)
    case Ok(Some((pte, level))) => Canonical(va) && LeafOk(pte, level, Effective(s, c, access), c, access)
    case Ok(None) => true
    case Stop(_) => Canonical(va)
  }

  /** The page of `va` is mapped onto itself. */
  predicate Identity(s: State, va: u64) {
    match Walk(s.ram, Root(s), va, 2)
    case Ok(Some((pte, level))) => LeafAddress(pte, level, va) == va
    case _ => false
  }

  /** The code's translation is the standard's, for every access and setting of
      mstatus, exactly when: neither or both translate, and what the walk ends at
      passes the checks; or only one of them translates, because of MPRV, and the page
      is mapped onto itself, in a way that passes the checks if it is the standard. */
  lemma TranslateIff(s: State, va: u64, c: Control, access: Access)
    requires Mode(s) == 0 || Mode(s) == SV39
    ensures Translate(s, va) == StdTranslate(s, va, c, access)
       <==> if Bare(s) then StdBare(s, c, access) || (WalksAgree(s, va, c, access) && Identity(s, va))
            else if StdBare(s, c, access) then Identity(s, va)
            else WalksAgree(s, va, c, access)
  {
    hide Walk, StdWalk, LeafOk, LeafAddress, Canonical, Root, StdRoot, Mode;
    RootIsStd(s);
    WalkIsStandard(s.ram, Root(s), va, 2, Effective(s, c, access), c, access);
  }

  /** With MPRV clear only the checks remain. */
  lemma TranslateUnmodified(s: State, va: u64, c: Control, access: Access)
    requires (Mode(s) == 0 || Mode(s) == SV39) && !c.mprv
    ensures Translate(s, va) == StdTranslate(s, va, c, access) <==> Bare(s) || WalksAgree(s, va, c, access)
  {
    hide Walk, StdWalk, LeafOk, LeafAddress, Canonical, Root, StdRoot, Mode;
    RootIsStd(s);
    WalkIsStandard(s.ram, Root(s), va, 2, Effective(s, c, access), c, access);
  }

  /** One readable gigabyte page at RAM_START, never written: V, R, and A. */
  const READ_ONLY: u64 := 0x2000_0043

  lemma ReadOnlyEntry(c: Control)
    ensures !PteBad(READ_ONLY) && PteLeaf(READ_ONLY) && LeafAddress(READ_ONLY, 2, 0) == RAM_START
    ensures LeafOk(READ_ONLY, 2, S_MODE, c, Read) && !LeafOk(READ_ONLY, 2, S_MODE, c, Store)
  {
    Weights();
    assert Pow2(6) == 0x40 && Pow2(7) == 0x80;
    hide Pow2;
  }

  /** A hart in S-mode whose page table is one page long, with one entry. */
  function OneEntry(ram: Ram): State {
    var csr: seq<u64> := seq(4096, _ => 0)[SATP := SV39 * 0x1000_0000_0000_0000 + 0x8_0000];
    State(seq(32, _ => 0), csr, S_MODE, ram)
  }

  lemma OneEntryMeaning(ram: Ram)
    ensures var s := OneEntry(ram);
            Mode(s) == SV39 && s.priv == S_MODE && s.ram == ram && !Bare(s) && Root(s) == RAM_START
  {
    Weights();
    hide Pow2;
  }

  lemma LeafAtOnce(ram: Ram, pte: u64)
    requires ReadPhys(ram, RAM_START, 8) == Ok(pte) && !PteBad(pte) && PteLeaf(pte)
    ensures IsTable(RAM_START) && Walk(ram, RAM_START, 0, 2) == Ok(Some((pte, 2)))
  {
    hide ReadPhys, PteBad, PteLeaf;
    assert Slot(RAM_START, 0, 2) == RAM_START;
  }

  /** A store to that page goes through in the code and faults by the standard. */
  lemma StoreToReadOnly(c: Control) returns (s: State)
    requires !c.mprv
    ensures Mode(s) == SV39 && s.priv == S_MODE && Walk(s.ram, Root(s), 0, 2) == Ok(Some((READ_ONLY, 2)))
    ensures Translate(s, 0) == Ok(Some(RAM_START)) && StdTranslate(s, 0, c, Store) == Ok(None)
    ensures StdTranslate(s, 0, c, Read) == Ok(Some(RAM_START))
  {
    hide Walk, StdWalk, LeafOk, LeafAddress, PteBad, PteLeaf, OneEntry, Bare, Root, Mode, ReadPhys, Splice, ToBytes;
    var zeros: Ram := seq(0x1000, _ => 0);
    var ram := WritePhys(zeros, RAM_START, 8, READ_ONLY).value;
    s := OneEntry(ram);
    OneEntryMeaning(ram);
    RootIsStd(s);
    ReadOnlyEntry(c);
    DwordAfterWrite(zeros, RAM_START, READ_ONLY);
    LeafAtOnce(ram, READ_ONLY);
    WalkIsStandard(ram, RAM_START, 0, 2, S_MODE, c, Store);
    WalkIsStandard(ram, RAM_START, 0, 2, S_MODE, c, Read);
  }
}

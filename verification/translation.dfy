/** Sv39 address translation (mmu.c) as a recursive walk, and what it promises:
    whole pages move together, other memory does not matter, and an installed
    mapping is found again. */
module Translation {
  import opened Wrappers
  import opened Words
  import opened Memory
  import opened Fields
  import opened Hart

  type Level = l: nat | l < 3

  /** Bytes mapped by one entry: 4 KiB, 2 MiB, 1 GiB. */
  function PageSize(level: Level): nat {
    if level == 0 then 0x1000 else if level == 1 then 0x20_0000 else 0x4000_0000
  }

  function PteV(pte: u64): int { pte % 2 }
  function PteR(pte: u64): int { pte / 2 % 2 }
  function PteW(pte: u64): int { pte / 4 % 2 }
  function PteX(pte: u64): int { pte / 8 % 2 }

  predicate PteBad(pte: u64) { PteV(pte) == 0 || (PteR(pte) == 0 && PteW(pte) == 1) }
  predicate PteLeaf(pte: u64) { PteR(pte) == 1 || PteX(pte) == 1 }

  /** The table a pointer entry names by its 44-bit page number. */
  function NextTable(pte: u64): (table: nat)
    ensures IsTable(table)
  {
    pte / 0x400 % 0x1000_0000_0000 * 0x1000
  }

  /** Where the frame of a leaf at this level starts: the low page-number bits
      of a superpage entry are ignored. */
  function FrameStart(pte: u64, level: Level): (a: nat)
    ensures a + PageSize(level) <= 0x100_0000_0000_0000
  {
    if level == 0 then pte / 0x400 % 0x1000_0000_0000 * 0x1000
    else if level == 1 then pte / 0x8_0000 % 0x8_0000_0000 * 0x20_0000
    else pte / 0x1000_0000 % 0x400_0000 * 0x4000_0000
  }

  /** The address of the entry for `va` in a table. */
  function Slot(table: nat, va: u64, level: Level): (a: u64)
    requires IsTable(table)
    ensures a % 8 == 0
  {
    SlotAligned(table, va / PageSize(level) % 512);
    table + va / PageSize(level) % 512 * 8
  }

  predicate IsTable(table: nat) { table % 0x1000 == 0 && table < 0x100_0000_0000_0000 }

  lemma SlotAligned(table: nat, index: nat)
    requires IsTable(table) && index < 512
    ensures (table + index * 8) % 8 == 0 && table + index * 8 < B64
  {
  }

  /** The leaf entry for `va` and its level, or None for a page fault. */
  function Walk(ram: Ram, table: nat, va: u64, level: Level): (r: Outcome<Option<(u64, Level)>>)
    requires IsTable(table)
    ensures r.Ok? && r.value.Some? ==> r.value.value.1 <= level && PteLeaf(r.value.value.0)
    decreases level
  {
    var pte :- ReadPhys(ram, Slot(table, va, level), 8);
    if PteBad(pte) then Ok(None)
    else if PteLeaf(pte) then Ok(Some((pte, level)))
    else if level == 0 then Ok(None)
    else Walk(ram, NextTable(pte), va, level - 1)
  }

  function LeafAddress(pte: u64, level: Level, va: u64): u64 {
    FrameStart(pte, level) + va % PageSize(level)
  }

  /** mmu: no translation in M-mode or with satp's mode field zero. */
  predicate Bare(s: State) { s.priv == M_MODE || s.csr[SATP] / 0x1000_0000_0000_0000 == 0 }

  function Root(s: State): (table: nat)
    ensures IsTable(table)
  {
    s.csr[SATP] % 0x1000_0000_0000 * 0x1000
  }

  /** The physical address of `va`, or None for a page fault. */
  function Translate(s: State, va: u64): Outcome<Option<u64>> {
    if Bare(s) then Ok(Some(va))
    else
      var leaf :- Walk(s.ram, Root(s), va, 2);
      match leaf
      case None => Ok(None)
      case Some((pte, level)) => Ok(Some(LeafAddress(pte, level, va)))
  }

  // ------------------------------------------------- pages translate together

  lemma SamePageAbove(va: u64, wa: u64, l: Level, m: Level)
    requires l <= m && va / PageSize(l) == wa / PageSize(l)
    ensures va / PageSize(m) == wa / PageSize(m)
  {
    var k := if m == l then 1 else if m == l + 1 then 0x200 else 0x4_0000;
    assert PageSize(m) == PageSize(l) * k;
    DivDiv(va, PageSize(l), k);
    DivDiv(wa, PageSize(l), k);
  }

  lemma {:induction false} WalkSamePage(ram: Ram, table: nat, va: u64, wa: u64, level: Level)
    requires IsTable(table)
    requires var r := Walk(ram, table, va, level);
             r.Ok? && r.value.Some? && va / PageSize(r.value.value.1) == wa / PageSize(r.value.value.1)
    ensures Walk(ram, table, wa, level) == Walk(ram, table, va, level)
    decreases level
  {
    SamePageAbove(va, wa, Walk(ram, table, va, level).value.value.1, level);
    assert Slot(table, va, level) == Slot(table, wa, level);
    var pte := ReadPhys(ram, Slot(table, va, level), 8).value;
    if !PteLeaf(pte) {
      WalkSamePage(ram, NextTable(pte), va, wa, level - 1);
    }
  }

  /** All addresses in one 4 KiB, 2 MiB or 1 GiB page are translated by the same
      entry, into one frame, at their own offset. */
  lemma PageMovesTogether(s: State, va: u64, wa: u64)
    requires !Bare(s) && Walk(s.ram, Root(s), va, 2).Ok? && Walk(s.ram, Root(s), va, 2).value.Some?
    ensures var (pte, level) := Walk(s.ram, Root(s), va, 2).value.value;
            va / PageSize(level) == wa / PageSize(level) ==>
              && Translate(s, va) == Ok(Some(FrameStart(pte, level) + va % PageSize(level)))
              && Translate(s, wa) == Ok(Some(FrameStart(pte, level) + wa % PageSize(level)))
              && LeafAddress(pte, level, wa) - LeafAddress(pte, level, va) == wa - va
  {
    var level := Walk(s.ram, Root(s), va, 2).value.value.1;
    if va / PageSize(level) == wa / PageSize(level) {
      WalkSamePage(s.ram, Root(s), va, wa, 2);
    }
  }

  /** Only the low 39 bits of a virtual address are looked at. */
  lemma {:induction false} HighBitsIgnored(ram: Ram, table: nat, va: u64, wa: u64, level: Level)
    requires IsTable(table) && va % 0x80_0000_0000 == wa % 0x80_0000_0000
    ensures Walk(ram, table, va, level) == Walk(ram, table, wa, level)
    ensures forall pte, l :: LeafAddress(pte, l, va) == LeafAddress(pte, l, wa)
    decreases level
  {
    forall l: Level ensures va / PageSize(l) % 512 == wa / PageSize(l) % 512 && va % PageSize(l) == wa % PageSize(l) {
      LowBits(va, l);
      LowBits(wa, l);
    }
    if level == 0 {
    } else {
      var r := ReadPhys(ram, Slot(table, va, level), 8);
      if r.Ok? { HighBitsIgnored(ram, NextTable(r.value), va, wa, level - 1); }
    }
  }

  lemma LowBits(va: u64, l: Level)
    ensures va / PageSize(l) % 512 == va % 0x80_0000_0000 / PageSize(l) % 512
    ensures va % PageSize(l) == va % 0x80_0000_0000 % PageSize(l)
  {
    var k, y := va / 0x80_0000_0000, va % 0x80_0000_0000;
    var e := if l == 0 then 0x800_0000 else if l == 1 then 0x4_0000 else 0x200;
    assert va == PageSize(l) * e * k + y;
    AddProduct(va, PageSize(l), e, k, y);
    AddProduct(va / PageSize(l), 512, e / 512, k, y / PageSize(l));
  }

  // ------------------------------------------------------------- other memory

  /** The entries a walk reads. */
  function Visited(ram: Ram, table: nat, va: u64, level: Level): seq<u64>
    requires IsTable(table)
    decreases level
  {
    var slot := Slot(table, va, level);
    var pte := ReadPhys(ram, slot, 8);
    if pte.Stop? || PteBad(pte.value) || PteLeaf(pte.value) || level == 0 then [slot]
    else [slot] + Visited(ram, NextTable(pte.value), va, level - 1)
  }

  lemma {:induction false} WalkReadsVisited(ram: Ram, ram': Ram, table: nat, va: u64, level: Level)
    requires IsTable(table)
    requires forall a :: a in Visited(ram, table, va, level) ==> ReadPhys(ram', a, 8) == ReadPhys(ram, a, 8)
    ensures Walk(ram', table, va, level) == Walk(ram, table, va, level)
    ensures Visited(ram', table, va, level) == Visited(ram, table, va, level)
    decreases level
  {
    var slot := Slot(table, va, level);
    assert slot in Visited(ram, table, va, level);
    var pte := ReadPhys(ram, slot, 8);
    if pte.Ok? && !PteBad(pte.value) && !PteLeaf(pte.value) && level > 0 {
      WalkReadsVisited(ram, ram', NextTable(pte.value), va, level - 1);
    }
  }

  /** A store that misses the visited entries changes no translation. */
  lemma StoreKeepsTranslation(s: State, va: u64, pa: u64, n: nat, data: u64)
    requires WritePhys(s.ram, pa, n, data).Ok?
    requires Bare(s) || forall a :: a in Visited(s.ram, Root(s), va, 2) ==> Disjoint(pa, n, a, 8)
    ensures Translate(s.(ram := WritePhys(s.ram, pa, n, data).value), va) == Translate(s, va)
  {
    if !Bare(s) {
      var ram' := WritePhys(s.ram, pa, n, data).value;
      forall a | a in Visited(s.ram, Root(s), va, 2) ensures ReadPhys(ram', a, 8) == ReadPhys(s.ram, a, 8) {
        ReadAfterWrite(s.ram, pa, n, data, a, 8);
      }
      WalkReadsVisited(s.ram, ram', Root(s), va, 2);
    }
  }

  // ------------------------------------------------------- installing mappings

  type Ppn = p: nat | p < 0x1000_0000_0000

  function TableAt(ppn: Ppn): (table: nat)
    ensures IsTable(table)
  {
    ppn * 0x1000
  }

  /** A valid entry pointing to the table with page number `ppn`. */
  function PointerPte(ppn: Ppn): u64 { ppn * 0x400 + 1 }

  lemma PointerPteMeaning(ppn: Ppn)
    ensures !PteBad(PointerPte(ppn)) && !PteLeaf(PointerPte(ppn)) && NextTable(PointerPte(ppn)) == TableAt(ppn)
  {
    var pte := PointerPte(ppn);
    AddMultiple(pte, 2, ppn * 0x200, 1);
    AddMultiple(pte / 2, 2, ppn * 0x100, 0);
    AddMultiple(pte / 8, 2, ppn * 0x40, 0);
    AddMultiple(pte, 0x400, ppn, 1);
  }

  lemma AlignedDisjoint(a: nat, b: nat)
    requires a % 8 == 0 && b % 8 == 0 && a != b
    ensures Disjoint(a, 8, b, 8)
  {
  }

  /** The slots that lead to `va` through the given lower tables. */
  function Slots(table: nat, ppns: seq<Ppn>, va: u64, level: Level): (slots: seq<u64>)
    requires |ppns| <= level && IsTable(table)
    ensures |slots| == |ppns| + 1
    ensures forall a :: a in slots ==> a % 8 == 0
    decreases |ppns|
  {
    [Slot(table, va, level)] + if ppns == [] then [] else Slots(TableAt(ppns[0]), ppns[1..], va, level - 1)
  }

  /** Write pointers to the tables `ppns` and then the leaf, as an operating
      system maps a page of size PageSize(level - |ppns|). */
  function Install(ram: Ram, table: nat, ppns: seq<Ppn>, va: u64, leaf: u64, level: Level): Outcome<Ram>
    requires |ppns| <= level
    requires IsTable(table)
    decreases |ppns|
  {
    if ppns == [] then WritePhys(ram, Slot(table, va, level), 8, leaf)
    else
      var ram' :- WritePhys(ram, Slot(table, va, level), 8, PointerPte(ppns[0]));
      Install(ram', TableAt(ppns[0]), ppns[1..], va, leaf, level - 1)
  }

  predicate NoRepeat(s: seq<u64>) { forall i, j :: 0 <= i < j < |s| ==> s[i] != s[j] }

  /** Installing writes nothing but its slots. */
  lemma {:induction false} InstallFrame(ram: Ram, table: nat, ppns: seq<Ppn>, va: u64, leaf: u64, level: Level, a: u64)
    requires |ppns| <= level
    requires IsTable(table) && a % 8 == 0 && a !in Slots(table, ppns, va, level)
    requires Install(ram, table, ppns, va, leaf, level).Ok?
    ensures ReadPhys(Install(ram, table, ppns, va, leaf, level).value, a, 8) == ReadPhys(ram, a, 8)
    decreases |ppns|
  {
    var slot := Slot(table, va, level);
    assert slot in Slots(table, ppns, va, level);
    var pte := if ppns == [] then leaf else PointerPte(ppns[0]);
    AlignedDisjoint(slot, a);
    ReadAfterWrite(ram, slot, 8, pte, a, 8);
    if ppns == [] {
    } else {
      InstallFrame(WritePhys(ram, slot, 8, pte).value, TableAt(ppns[0]), ppns[1..], va, leaf, level - 1, a);
    }
  }

  /** An installed mapping is found: the walk ends at the leaf written, at the
      level it was written to. */
  lemma {:induction false} InstallThenWalk(ram: Ram, table: nat, ppns: seq<Ppn>, va: u64, leaf: u64, level: Level)
    requires |ppns| <= level
    requires IsTable(table) && Install(ram, table, ppns, va, leaf, level).Ok?
    requires !PteBad(leaf) && PteLeaf(leaf) && NoRepeat(Slots(table, ppns, va, level))
    ensures Walk(Install(ram, table, ppns, va, leaf, level).value, table, va, level)
         == Ok(Some((leaf, level - |ppns|)))
    decreases |ppns|
  {
    hide ReadPhys, WritePhys, Slot, TableAt, PteBad, PteLeaf;
    var slot := Slot(table, va, level);
    if ppns == [] {
      DwordAfterWrite(ram, slot, leaf);
    } else {
      var pte := PointerPte(ppns[0]);
      var ram' := WritePhys(ram, slot, 8, pte).value;
      PointerPteMeaning(ppns[0]);
      DwordAfterWrite(ram, slot, pte);
      NoRepeatTail(slot, Slots(TableAt(ppns[0]), ppns[1..], va, level - 1));
      InstallFrame(ram', TableAt(ppns[0]), ppns[1..], va, leaf, level - 1, slot);
      InstallThenWalk(ram', TableAt(ppns[0]), ppns[1..], va, leaf, level - 1);
      assert ReadPhys(Install(ram, table, ppns, va, leaf, level).value, slot, 8) == Ok(pte);
    }
  }

  lemma NoRepeatTail(a: u64, rest: seq<u64>)
    requires NoRepeat([a] + rest)
    ensures NoRepeat(rest) && a !in rest
  {
    var s := [a] + rest;
    assert forall i :: 0 <= i < |rest| ==> rest[i] == s[i + 1] && s[0] != s[i + 1];
  }
}

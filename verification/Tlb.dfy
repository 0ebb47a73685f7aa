/**
 The translation of one hart: the direct-mapped translation buffer in front of the walk, and the
 page of the last fetch, which saves the translation of the next one. Both must agree with the walk
 while the walk writes to the tables it reads.
 */
module Tlb {
  import opened Bits
  import opened Privilege
  import opened Sv39

  const TLB_SZ := 32

  /** paddr holds the physical page with the page size in its low 12 bits. */
  datatype TlbEntry = TlbEntry(pfn: nat, paddr: nat, dirty: bool, valid: bool)

  datatype Outcome = Ok(pa: nat) | PageFault(code: nat) | Abort

  function TlbIndex(va: nat): (h: nat)
    ensures h < TLB_SZ
  {
    assert Pow2(5) == 32;
    Low(Page(va), 5)
  }

  function EntryMaskBits(paddr: nat): nat {
    Low(paddr, 12)
  }

  function EntryBase(paddr: nat): nat {
    Shl(Shr(paddr, 12), 12)
  }

  /** A page base and a page size packed together can be taken apart again. */
  lemma Packed(ppn: nat, maskBits: nat)
    requires IsMaskBits(maskBits)
    ensures EntryMaskBits(Or(Shl(ppn, 12), maskBits)) == maskBits
    ensures EntryBase(Or(Shl(ppn, 12), maskBits)) == Shl(ppn, 12)
  {
    assert Pow2(5) == 32;
    var paddr := Or(Shl(ppn, 12), maskBits);
    forall i: nat
      ensures Bit(EntryMaskBits(paddr), i) == Bit(maskBits, i)
    {
      LowBit(paddr, 12, i);
      OrBit(Shl(ppn, 12), maskBits, i);
      ShlBit(ppn, 12, i);
      if i >= 12 {
        HighBit(maskBits, 5, i);
      }
    }
    SameAllBits(EntryMaskBits(paddr), maskBits);
    forall i: nat
      ensures Bit(EntryBase(paddr), i) == Bit(Shl(ppn, 12), i)
    {
      ShlBit(Shr(paddr, 12), 12, i);
      ShlBit(ppn, 12, i);
      if i >= 12 {
        ShrBit(paddr, 12, i - 12);
        OrBit(Shl(ppn, 12), maskBits, i);
        HighBit(maskBits, 5, i);
      }
    }
    SameAllBits(EntryBase(paddr), Shl(ppn, 12));
  }

  /** Accessed and dirty bits may have been turned on; nothing else has changed. */
  ghost predicate OnlyMoreAD(mem: Memory, mem': Memory) {
    forall at: nat :: MoreAD(Word(mem, at), Word(mem', at))
  }

  /** Entry q has at least the accessed and dirty bits of p and is otherwise the same. */
  predicate MoreAD(p: Pte, q: Pte) {
    SameButAD(p, q) && (p.a ==> q.a) && (p.d ==> q.d)
  }

  lemma MarkedMore(mem: Memory, at: nat, q: Pte)
    requires MoreAD(Word(mem, at), q)
    ensures OnlyMoreAD(mem, mem[at := q]) && Word(mem[at := q], at) == q
  {
  }

  /** Of the words the walk of va reads, only accessed and dirty bits may have been turned on. */
  ghost predicate OnlyMarked(mem: Memory, mem': Memory, satp: Satp, va: nat) {
    forall at: nat | Reads(mem, satp, va, at) :: MoreAD(Word(mem, at), Word(mem', at))
  }

  lemma LeafIsRead(mem: Memory, satp: Satp, va: nat)
    ensures var w := WalkTables(mem, satp, va);
      w.Leaf? ==> w.pte == Word(mem, w.at) && Reads(mem, satp, va, w.at)
  {
  }

  lemma LeafIsWord(mem: Memory, satp: Satp, va: nat)
    ensures var w := WalkTables(mem, satp, va);
      w.Leaf? ==> w.pte == Word(mem, w.at) && IsMaskBits(w.maskBits)
  {
  }

  /** Where the walk sends va, when it ends in a leaf. */
  function Target(w: Walk, va: nat): nat
    requires w.Leaf?
  {
    LeafAddress(w.pte.PageBase(), w.maskBits, va)
  }

  /** What a translation without the buffer gives. */
  function Translation(mem: Memory, satp: Satp, priv: Priv, va: nat, access: Access): Outcome {
    match WalkTables(mem, satp, va)
    case NotPresent(level) => PageFault(level)
    case Aborted => Abort
    case Leaf(at, pte, maskBits) =>
      if Permitted(pte, access, priv) then Ok(LeafAddress(pte.PageBase(), maskBits, va)) else PageFault(0)
  }

  /** The walk of va leads to a leaf that has been accessed (and written), as seen by priv. */
  predicate Mapped(mem: Memory, satp: Satp, priv: Priv, va: nat, dirty: bool) {
    var w := WalkTables(mem, satp, va);
    w.Leaf? && w.pte.a && (dirty ==> w.pte.d) && (priv == User ==> w.pte.u)
  }

  /** A valid entry is what the walk, under the current satp and privilege, would put there. */
  predicate Backed(e: TlbEntry, mem: Memory, satp: Satp, priv: Priv) {
    e.valid ==>
      var va := Shl(e.pfn, 12);
      && Mapped(mem, satp, priv, va, e.dirty)
      && var w := WalkTables(mem, satp, va);
      e.paddr == Or(w.pte.PageBase(), w.maskBits)
  }

  lemma PageOfBase(pfn: nat)
    ensures Page(Shl(pfn, 12)) == pfn
  {
    forall i: nat
      ensures Bit(Page(Shl(pfn, 12)), i) == Bit(pfn, i)
    {
      ShrBit(Shl(pfn, 12), 12, i);
      ShlBit(pfn, 12, 12 + i);
    }
    SameAllBits(Page(Shl(pfn, 12)), pfn);
  }

  /** More accessed and dirty bits in the words it depends on keep a mapping and its buffer entry. */
  lemma {:induction false} MappedStays(mem: Memory, mem': Memory, satp: Satp, priv: Priv, va: nat, dirty: bool)
    requires OnlyMarked(mem, mem', satp, va)
    ensures SameWalk(WalkTables(mem, satp, va), WalkTables(mem', satp, va))
    ensures Mapped(mem, satp, priv, va, dirty) ==> Mapped(mem', satp, priv, va, dirty)
  {
    WalkFootprint(mem, mem', satp, va);
    LeafIsRead(mem, satp, va);
    LeafIsRead(mem', satp, va);
  }

  lemma {:induction false} BackedStays(e: TlbEntry, mem: Memory, mem': Memory, satp: Satp, priv: Priv)
    requires e.valid ==> OnlyMarked(mem, mem', satp, Shl(e.pfn, 12))
    requires Backed(e, mem, satp, priv)
    ensures Backed(e, mem', satp, priv)
  {
    if !e.valid {
      return;
    }
    MappedStays(mem, mem', satp, priv, Shl(e.pfn, 12), e.dirty);
  }

  /** A backed entry for the page of va gives the address the walk of va forms. */
  lemma {:induction false} HitIsWalk(e: TlbEntry, mem: Memory, satp: Satp, priv: Priv, va: nat)
    requires e.valid && Backed(e, mem, satp, priv) && e.pfn == Page(va)
    ensures Mapped(mem, satp, priv, va, e.dirty)
    ensures LeafAddress(EntryBase(e.paddr), EntryMaskBits(e.paddr), va) == Target(WalkTables(mem, satp, va), va)
  {
    PageOfBase(e.pfn);
    WalkOfPage(mem, satp, Shl(e.pfn, 12), va);
    LeafIsWord(mem, satp, va);
    var w := WalkTables(mem, satp, va);
    Packed(w.pte.ppn, w.maskBits);
  }

  /** An entry made from the walk of va is backed. */
  lemma InsertedIsBacked(mem: Memory, satp: Satp, priv: Priv, va: nat, dirty: bool)
    requires Mapped(mem, satp, priv, va, dirty)
    ensures var w := WalkTables(mem, satp, va);
      Backed(TlbEntry(Page(va), Or(w.pte.PageBase(), w.maskBits), dirty, true), mem, satp, priv)
  {
    PageOfBase(Page(va));
    WalkOfPage(mem, satp, Shl(Page(va), 12), va);
  }

  /** An address is determined by its page and its offset. */
  lemma Rejoin(phys: nat, va: nat, x: nat)
    requires Page(x) == Page(phys) && Offset(x) == Offset(va)
    ensures LeafAddress(phys, 12, va) == x
  {
    forall i: nat
      ensures Bit(LeafAddress(phys, 12, va), i) == Bit(x, i)
    {
      LeafAddressBit(phys, 12, va, i);
      LowBit(x, 12, i);
      LowBit(va, 12, i);
      if i >= 12 {
        ShrBit(x, 12, i - 12);
        ShrBit(phys, 12, i - 12);
      }
    }
    SameAllBits(LeafAddress(phys, 12, va), x);
  }

  lemma Joined(phys: nat, va: nat)
    ensures Page(LeafAddress(phys, 12, va)) == Page(phys) && Offset(LeafAddress(phys, 12, va)) == Offset(va)
  {
    var pa := LeafAddress(phys, 12, va);
    forall i: nat
      ensures Bit(Page(pa), i) == Bit(Page(phys), i)
    {
      ShrBit(pa, 12, i);
      ShrBit(phys, 12, i);
      LeafAddressBit(phys, 12, va, 12 + i);
    }
    SameAllBits(Page(pa), Page(phys));
    AddressOfPage(phys, 12, va, va);
  }

  /** The physical address of va: itself when unpaged, otherwise where the walk leads. */
  predicate LeadsTo(mem: Memory, satp: Satp, unpaged: bool, va: nat, pa: nat) {
    if unpaged then pa == va
    else WalkTables(mem, satp, va).Leaf? && pa == Target(WalkTables(mem, satp, va), va)
  }

  /** The page of the physical address is good for every address on the same virtual page. */
  lemma LeadsAlongPage(mem: Memory, satp: Satp, unpaged: bool, va: nat, va': nat, phys: nat)
    requires Page(va) == Page(va') && LeadsTo(mem, satp, unpaged, va, LeafAddress(phys, 12, va))
    ensures LeadsTo(mem, satp, unpaged, va', LeafAddress(phys, 12, va'))
  {
    Joined(phys, va);
    if unpaged {
      Rejoin(phys, va', va');
    } else {
      WalkOfPage(mem, satp, va, va');
      LeafIsWord(mem, satp, va);
      var w := WalkTables(mem, satp, va);
      AddressOfPage(w.pte.PageBase(), w.maskBits, va', va);
      Rejoin(phys, va', Target(w, va'));
    }
  }

  /** Where a fetch succeeded, the shortcut for the same pc forms the same address. */
  lemma LeadsToItself(mem: Memory, satp: Satp, unpaged: bool, va: nat, pa: nat)
    requires LeadsTo(mem, satp, unpaged, va, pa)
    ensures LeafAddress(pa, 12, va) == pa
  {
    if !unpaged {
      LeafIsWord(mem, satp, va);
      var w := WalkTables(mem, satp, va);
      AddressOfPage(w.pte.PageBase(), w.maskBits, va, va);
    }
    Rejoin(pa, va, pa);
  }

  predicate UnpagedAt(priv: Priv, satp: Satp) {
    priv == Machine || priv == Hypervisor || satp.mode == 0
  }

  /**
   Full translation of va at this level forms pa: the leaf of va leads there and the level may use
   it. If `checked`, the leaf also passes all checks on a fetch.
   */
  predicate FetchesFrom(mem: Memory, satp: Satp, priv: Priv, va: nat, pa: nat, checked: bool) {
    if UnpagedAt(priv, satp) then pa == va
    else
      var w := WalkTables(mem, satp, va);
      && w.Leaf? && pa == Target(w, va)
      && (priv == User ==> w.pte.u)
      && (checked ==> Permitted(w.pte, Fetch, priv))
  }

  /** What full translation gives where a fetch is sound: this address, unless a check refuses it. */
  lemma FetchIsTranslation(mem: Memory, satp: Satp, priv: Priv, va: nat, pa: nat, checked: bool)
    requires !UnpagedAt(priv, satp) && FetchesFrom(mem, satp, priv, va, pa, checked)
    ensures Translation(mem, satp, priv, va, Fetch)
         == if Permitted(WalkTables(mem, satp, va).pte, Fetch, priv) then Ok(pa) else PageFault(0)
    ensures checked ==> Translation(mem, satp, priv, va, Fetch) == Ok(pa)
  {
  }

  lemma FetchesAlongPage(mem: Memory, satp: Satp, priv: Priv, va: nat, va': nat, phys: nat, checked: bool)
    requires Page(va) == Page(va') && FetchesFrom(mem, satp, priv, va, LeafAddress(phys, 12, va), checked)
    ensures FetchesFrom(mem, satp, priv, va', LeafAddress(phys, 12, va'), checked)
  {
    LeadsAlongPage(mem, satp, UnpagedAt(priv, satp), va, va', phys);
    WalkOfPage(mem, satp, va, va');
  }

  /** Changes to accessed and dirty bits of the leaf, in either direction, do not matter. */
  lemma SameWalkFetches(mem: Memory, mem': Memory, satp: Satp, priv: Priv, va: nat, pa: nat, checked: bool)
    requires FetchesFrom(mem, satp, priv, va, pa, checked)
    requires UnpagedAt(priv, satp) || SameWalk(WalkTables(mem, satp, va), WalkTables(mem', satp, va))
    ensures FetchesFrom(mem', satp, priv, va, pa, checked)
  {
  }

  // Tables that lead one address to a given leaf.

  function PointerTo(ppn: nat): Pte {
    Pte(true, false, false, false, false, false, false, false, 0, ppn, 0, 0, false)
  }

  lemma PageAddress(n: nat)
    ensures Shl(n, 12) == 4096 * n
  {
    PowersOfTwo();
    ShlIsProduct(n, 12);
  }

  lemma IndexInTable(va: nat, k: nat)
    ensures TableIndex(va, k) < 512
  {
    assert Pow2(3) == 8 && Pow2(6) == 64 && Pow2(9) == 512;
  }

  /** Page tables consist of aligned words. */
  lemma ReadIsAligned(mem: Memory, satp: Satp, va: nat, at: nat)
    requires Reads(mem, satp, va, at)
    ensures at % 8 == 0
  {
    var pte2 := Word(mem, Slot2(satp, va));
    WordInPage(satp.ppn, TableIndex(va, 30));
    WordInPage(pte2.ppn, TableIndex(va, 21));
    WordInPage(Word(mem, Slot1(pte2, va)).ppn, TableIndex(va, 12));
  }

  lemma WordInPage(ppn: nat, index: nat)
    ensures (Shl(ppn, 12) + index * 8) % 8 == 0
  {
    PageAddress(ppn);
  }

  /** Three small tables apart from each other. */
  function TablesFor(satp: Satp, va: nat, leaf: Pte): Memory {
    var p1, p0 := if satp.ppn == 1 then 3 else 1, if satp.ppn == 2 then 3 else 2;
    map[Slot2(satp, va) := PointerTo(p1), Slot1(PointerTo(p1), va) := PointerTo(p0),
        Slot0(PointerTo(p0), va) := leaf]
  }

  lemma TablesLead(satp: Satp, va: nat, leaf: Pte)
    requires leaf.v && !leaf.n
    ensures var w := WalkTables(TablesFor(satp, va, leaf), satp, va);
      w.Leaf? && w.pte == leaf && w.maskBits == 12
  {
    var p1, p0 := if satp.ppn == 1 then 3 else 1, if satp.ppn == 2 then 3 else 2;
    PageAddress(satp.ppn);
    PageAddress(p1);
    PageAddress(p0);
    IndexInTable(va, 30);
    IndexInTable(va, 21);
    IndexInTable(va, 12);
    var mem := TablesFor(satp, va, leaf);
    assert Word(mem, Slot2(satp, va)) == PointerTo(p1);
    assert Word(mem, Slot1(PointerTo(p1), va)) == PointerTo(p0);
  }
}

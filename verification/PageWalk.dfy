/**
 What the translation of an address is, by division and remainder: which words of memory decide it, which
 accesses they grant, and which physical address they give, for each of the page sizes.
 */
module PageWalks {
  import opened Bits
  import opened Cores
  import opened Privilege
  import opened Sv39
  import opened Tlb

  const GIB := 0x4000_0000
  const MIB2 := 0x20_0000
  const KIB64 := 0x1_0000
  const KIB4 := 0x1000

  /** Where the fields of an entry are in its word. */
  lemma {:induction false} EntryFields(word: nat)
    ensures var pte := Unpack(word);
      && pte.v == (word % 2 == 1) && pte.r == (word / 2 % 2 == 1) && pte.w == (word / 4 % 2 == 1)
      && pte.x == (word / 8 % 2 == 1) && pte.u == (word / 16 % 2 == 1) && pte.a == (word / 64 % 2 == 1)
      && pte.d == (word / 128 % 2 == 1) && pte.n == (word / Pow2(63) % 2 == 1)
      && pte.ppn == word / 1024 % Pow2(44)
  {
    SomeBit(word, 1);
    SomeBit(word, 2);
    SomeBit(word, 3);
    SomeBit(word, 4);
    SomeBit(word, 6);
    SomeBit(word, 7);
    SomeBit(word, 63);
    ShrIsQuotient(word, 10);
    LowIsRemainder(Shr(word, 10), 44);
    SmallPowers();
  }

  lemma SomeBit(word: nat, i: nat)
    ensures Bit(word, i) == (word / Pow2(i) % 2 == 1)
  {
    ShrBit(word, i, 0);
    ShrIsQuotient(word, i);
  }

  lemma SmallPowers()
    ensures Pow2(1) == 2 && Pow2(2) == 4 && Pow2(3) == 8 && Pow2(4) == 16 && Pow2(6) == 64 && Pow2(7) == 128
    ensures Pow2(10) == 1024
  {
    assert Pow2(3) == 8 && Pow2(5) == 32 && Pow2(7) == 128 && Pow2(9) == 512;
  }

  /** The word for va in the table on physical page `table`, whose entries cover `reach` bytes each. */
  function EntryFor(table: nat, va: nat, reach: nat): nat
    requires reach > 0
  {
    table * 4096 + va / reach % 512 * 8
  }

  predicate PointsTo(pte: Pte, table: nat) {
    pte.v && !pte.r && !pte.w && !pte.x && !pte.n && pte.ppn == table
  }

  predicate IsSuperpage(pte: Pte) {
    pte.v && !pte.n && (pte.r || pte.w || pte.x)
  }

  /** The rights a leaf gives to user level and to the level above it. */
  predicate Granted(leaf: Pte, access: Access, user: bool) {
    match access
    case Fetch => leaf.x && (leaf.w ==> leaf.r) && leaf.u == user
    case Load => leaf.r && (user ==> leaf.u)
    case Store => leaf.r && leaf.w && (user ==> leaf.u)
  }

  /** Addresses are translated, and the buffer entry that va would use is not stale. */
  predicate Paged(c: Core, va: nat) {
    c.Sized() && c.satp.mode == 8 && (c.regs.priv == User || c.regs.priv == Supervisor) && c.Fresh(TlbIndex(va))
  }

  /**
   The word at `at` is the leaf for va, and pa is where it leads. A usable buffer entry gives pa; otherwise
   the rights decide, and a granted access marks the leaf and no other word.
   */
  ghost predicate LeadsThrough(c: Core, va: nat, access: Access, at: nat, pa: nat)
    requires c.Sized()
  {
    var (c', out) := c.Translate(va, access);
    var leaf := Word(c.mem, at);
    if c.Usable(va, access) then out == Ok(pa) && c' == c
    else if !Granted(leaf, access, c.regs.priv == User) then out == PageFault(0) && c' == c
    else
      && out == Ok(pa)
      && forall x: nat :: Word(c'.mem, x) == if x == at then leaf.(a := true, d := leaf.d || access == Store)
                                            else Word(c.mem, x)
  }

  lemma IndexByDivision(va: nat, k: nat)
    ensures TableIndex(va, k) == va / Pow2(k) % 512
  {
    ShrIsQuotient(va, k);
    LowIsRemainder(Shr(va, k), 9);
    PowersOfTwo();
  }

  lemma SlotsByDivision(satp: Satp, pte2: Pte, pte1: Pte, va: nat)
    ensures Slot2(satp, va) == EntryFor(satp.ppn, va, GIB)
    ensures Slot1(pte2, va) == EntryFor(pte2.ppn, va, MIB2)
    ensures Slot0(pte1, va) == EntryFor(pte1.ppn, va, KIB4)
  {
    PowersOfTwo();
    IndexByDivision(va, 30);
    IndexByDivision(va, 21);
    IndexByDivision(va, 12);
    PageAddress(satp.ppn);
    PageAddress(pte2.ppn);
    PageAddress(pte1.ppn);
  }

  lemma AddressByDivision(base: nat, maskBits: nat, va: nat)
    ensures LeafAddress(base, maskBits, va) == base / Pow2(maskBits) * Pow2(maskBits) + va % Pow2(maskBits)
  {
    ShrIsQuotient(base, maskBits);
    LowIsRemainder(va, maskBits);
    ShlIsProduct(Shr(base, maskBits), maskBits);
    OrIsSum(Shr(base, maskBits), Low(va, maskBits), maskBits);
  }

  /** Page numbers of larger pages are rounded down to their size. */
  lemma SmallLeaf(ppn: nat, va: nat)
    ensures LeafAddress(Shl(ppn, 12), 12, va) == ppn * KIB4 + va % KIB4
  {
    PowersOfTwo();
    PageAddress(ppn);
    AddressByDivision(ppn * KIB4, 12, va);
    DivisionIs(ppn * KIB4, KIB4, ppn, 0);
  }

  lemma MediumLeaf(ppn: nat, va: nat)
    ensures LeafAddress(Shl(ppn, 12), 16, va) == ppn / 16 * KIB64 + va % KIB64
  {
    PowersOfTwo();
    PageAddress(ppn);
    AddressByDivision(ppn * KIB4, 16, va);
    DivisionIs(ppn * KIB4, KIB64, ppn / 16, ppn % 16 * KIB4);
  }

  lemma LargeLeaf(ppn: nat, va: nat)
    ensures LeafAddress(Shl(ppn, 12), 21, va) == ppn / 512 * MIB2 + va % MIB2
  {
    PowersOfTwo();
    PageAddress(ppn);
    AddressByDivision(ppn * KIB4, 21, va);
    DivisionIs(ppn * KIB4, MIB2, ppn / 512, ppn % 512 * KIB4);
  }

  lemma HugeLeaf(ppn: nat, va: nat)
    ensures LeafAddress(Shl(ppn, 12), 30, va) == ppn / 0x4_0000 * GIB + va % GIB
  {
    PowersOfTwo();
    PageAddress(ppn);
    AddressByDivision(ppn * KIB4, 30, va);
    DivisionIs(ppn * KIB4, GIB, ppn / 0x4_0000, ppn % 0x4_0000 * KIB4);
  }

  lemma GrantedIsPermitted(leaf: Pte, access: Access, priv: Priv)
    ensures Permitted(leaf, access, priv) == Granted(leaf, access, priv == User)
  {
  }

  /** A leaf that the walk finds decides the translation. */
  lemma {:induction false} LeafDecides(c: Core, va: nat, access: Access, at: nat, maskBits: nat)
    requires Paged(c, va) && WalkTables(c.mem, c.satp, va) == Leaf(at, Word(c.mem, at), maskBits)
    ensures LeadsThrough(c, va, access, at, LeafAddress(Word(c.mem, at).PageBase(), maskBits, va))
  {
    GrantedIsPermitted(Word(c.mem, at), access, c.regs.priv);
    TranslateIsWalk(c, va, access);
  }

  /** Pages of 4 KiB, each with its own entry at the third level. */
  lemma {:induction false} SmallPage(c: Core, va: nat, access: Access, p1: nat, p0: nat)
    requires Paged(c, va)
    requires PointsTo(Word(c.mem, EntryFor(c.satp.ppn, va, GIB)), p1)
    requires PointsTo(Word(c.mem, EntryFor(p1, va, MIB2)), p0)
    requires Word(c.mem, EntryFor(p0, va, KIB4)).v && !Word(c.mem, EntryFor(p0, va, KIB4)).n
    ensures var at := EntryFor(p0, va, KIB4);
      LeadsThrough(c, va, access, at, Word(c.mem, at).ppn * KIB4 + va % KIB4)
  {
    var pte2, pte1 := Word(c.mem, EntryFor(c.satp.ppn, va, GIB)), Word(c.mem, EntryFor(p1, va, MIB2));
    SlotsByDivision(c.satp, pte2, pte1, va);
    LeafDecides(c, va, access, EntryFor(p0, va, KIB4), 12);
    SmallLeaf(Word(c.mem, EntryFor(p0, va, KIB4)).ppn, va);
  }

  /** Pages of 64 KiB, sixteen equal entries of the third level with 8 in the low bits of the page number. */
  lemma {:induction false} MediumPage(c: Core, va: nat, access: Access, p1: nat, p0: nat)
    requires Paged(c, va)
    requires PointsTo(Word(c.mem, EntryFor(c.satp.ppn, va, GIB)), p1)
    requires PointsTo(Word(c.mem, EntryFor(p1, va, MIB2)), p0)
    requires var leaf := Word(c.mem, EntryFor(p0, va, KIB4)); leaf.v && leaf.n && leaf.ppn % 16 == 8
    ensures var at := EntryFor(p0, va, KIB4);
      LeadsThrough(c, va, access, at, Word(c.mem, at).ppn / 16 * KIB64 + va % KIB64)
  {
    var pte2, pte1 := Word(c.mem, EntryFor(c.satp.ppn, va, GIB)), Word(c.mem, EntryFor(p1, va, MIB2));
    SlotsByDivision(c.satp, pte2, pte1, va);
    LeafDecides(c, va, access, EntryFor(p0, va, KIB4), 16);
    MediumLeaf(Word(c.mem, EntryFor(p0, va, KIB4)).ppn, va);
  }

  /** Pages of 2 MiB. */
  lemma {:induction false} LargePage(c: Core, va: nat, access: Access, p1: nat)
    requires Paged(c, va)
    requires PointsTo(Word(c.mem, EntryFor(c.satp.ppn, va, GIB)), p1)
    requires IsSuperpage(Word(c.mem, EntryFor(p1, va, MIB2)))
    ensures var at := EntryFor(p1, va, MIB2);
      LeadsThrough(c, va, access, at, Word(c.mem, at).ppn / 512 * MIB2 + va % MIB2)
  {
    var pte2 := Word(c.mem, EntryFor(c.satp.ppn, va, GIB));
    SlotsByDivision(c.satp, pte2, ZERO, va);
    LeafDecides(c, va, access, EntryFor(p1, va, MIB2), 21);
    LargeLeaf(Word(c.mem, EntryFor(p1, va, MIB2)).ppn, va);
  }

  /** Pages of 1 GiB. */
  lemma {:induction false} HugePage(c: Core, va: nat, access: Access)
    requires Paged(c, va) && IsSuperpage(Word(c.mem, EntryFor(c.satp.ppn, va, GIB)))
    ensures var at := EntryFor(c.satp.ppn, va, GIB);
      LeadsThrough(c, va, access, at, Word(c.mem, at).ppn / 0x4_0000 * GIB + va % GIB)
  {
    SlotsByDivision(c.satp, ZERO, ZERO, va);
    LeafDecides(c, va, access, EntryFor(c.satp.ppn, va, GIB), 30);
    HugeLeaf(Word(c.mem, EntryFor(c.satp.ppn, va, GIB)).ppn, va);
  }

  /** An entry that is not valid ends every access in a fault, with the level as its code. */
  lemma {:induction false} MissingEntry(c: Core, va: nat, access: Access, p1: nat, p0: nat)
    requires Paged(c, va)
    ensures var pte2 := Word(c.mem, EntryFor(c.satp.ppn, va, GIB));
      !pte2.v && !pte2.n ==> c.Translate(va, access) == (c, PageFault(2))
    ensures var pte2, pte1 := Word(c.mem, EntryFor(c.satp.ppn, va, GIB)), Word(c.mem, EntryFor(p1, va, MIB2));
      PointsTo(pte2, p1) && !pte1.v && !pte1.n ==> c.Translate(va, access) == (c, PageFault(1))
    ensures var pte2, pte1 := Word(c.mem, EntryFor(c.satp.ppn, va, GIB)), Word(c.mem, EntryFor(p1, va, MIB2));
      PointsTo(pte2, p1) && PointsTo(pte1, p0) && !Word(c.mem, EntryFor(p0, va, KIB4)).v ==>
        c.Translate(va, access) == (c, PageFault(0))
  {
    var pte2, pte1 := Word(c.mem, EntryFor(c.satp.ppn, va, GIB)), Word(c.mem, EntryFor(p1, va, MIB2));
    SlotsByDivision(c.satp, pte2, pte1, va);
    TranslateIsWalk(c, va, access);
  }

  /** At machine and hypervisor level, and with mode 0, addresses are physical. */
  lemma Untranslated(c: Core, va: nat, access: Access)
    requires c.Sized() && (c.regs.priv == Machine || c.regs.priv == Hypervisor || c.satp.mode == 0)
    ensures c.Translate(va, access) == (c, Ok(va))
  {
  }

  /**
   The reach of the buffer. A walk leaves its page in the buffer for the next access of the same kind, and
   evicts the page with which it shares a slot: the one entered last among those whose numbers agree modulo 32.
   */
  lemma {:induction false} BufferReach(c: Core, va: nat, access: Access, other: nat, kind: Access)
    requires Paged(c, va) && !c.Usable(va, access) && c.Translate(va, access).1.Ok?
    ensures var c' := c.Translate(va, access).0;
      && c'.Usable(va, access)
      && c'.Usable(other, kind) == if other / KIB4 % 32 != va / KIB4 % 32 then c.Usable(other, kind)
                                   else other / KIB4 == va / KIB4
                                        && (kind == Store ==> Word(c'.mem, WalkTables(c'.mem, c'.satp, va).at).d)
  {
    PowersOfTwo();
    assert Pow2(5) == 32;
    ShrIsQuotient(va, 12);
    ShrIsQuotient(other, 12);
    LowIsRemainder(Page(va), 5);
    LowIsRemainder(Page(other), 5);
    Inserted(c, va, access);
    LeafIsWord(c.mem, c.satp, va);
    MarkedLeaf(c.mem, WalkTables(c.mem, c.satp, va).at, WalkTables(c.mem, c.satp, va).pte, access);
    ADIsInvisible(c.mem, c.Translate(va, access).0.mem, c.satp, va);
  }
}

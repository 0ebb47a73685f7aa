/**
 Where the saved page of the last fetch is not sound: after returns to a level with another view of
 the page, and after a fence that follows a store to the running page's own leaf. Neither drops the
 saved page. For each, the exact condition under which it is sound, and an input on which it is not.
 */
module FetchReuse {
  import opened Bits
  import opened Cores
  import opened Privilege
  import opened Stores
  import opened Sv39
  import opened Tlb
  import opened Traps

  /** With these tables, the page saved at lastPc gives at pc what full translation forms. */
  predicate Reusable(mem: Memory, satp: Satp, priv: Priv, lastPc: nat, lastPhysPc: nat, pc: nat, checked: bool) {
    lastPhysPc != 0 && Page(lastPc) == Page(pc) ==>
      FetchesFrom(mem, satp, priv, pc, LeafAddress(lastPhysPc, 12, pc), checked)
  }

  /** An executable leaf for one 4 KiB page, marked accessed. */
  function CodeLeaf(ppn: nat, user: bool): Pte {
    Pte(true, true, false, true, user, false, true, false, 0, ppn, 0, 0, false)
  }

  /** A supervisor page of 1 GiB, read and written, over the start of memory. */
  function WindowLeaf(): Pte {
    Pte(true, true, true, false, false, false, true, true, 0, 0, 0, 0, false)
  }

  /** An index in the root table that va does not use. */
  function WindowIndex(va: nat): nat {
    if TableIndex(va, 30) == 0 then 1 else 0
  }

  function WindowSlot(satp: Satp, va: nat): nat {
    Shl(satp.ppn, 12) + WindowIndex(va) * 8
  }

  /** Tables that lead va to the code page ppn, and another address to the tables themselves. */
  function CodeTables(satp: Satp, va: nat, ppn: nat, user: bool): Memory {
    TablesFor(satp, va, CodeLeaf(ppn, user))[WindowSlot(satp, va) := WindowLeaf()]
  }

  lemma WindowIsApart(satp: Satp, va: nat, leaf: Pte, slot: nat)
    requires Reads(TablesFor(satp, va, leaf), satp, va, slot)
    ensures slot != WindowSlot(satp, va)
  {
    var p1, p0 := if satp.ppn == 1 then 3 else 1, if satp.ppn == 2 then 3 else 2;
    PageAddress(satp.ppn);
    PageAddress(p1);
    PageAddress(p0);
    IndexInTable(va, 30);
    IndexInTable(va, 21);
    IndexInTable(va, 12);
    var mem := TablesFor(satp, va, leaf);
    assert Word(mem, Slot2(satp, va)) == PointerTo(p1);
    assert Word(mem, Slot1(PointerTo(p1), va)) == PointerTo(p0);
  }

  lemma CodeTablesLead(satp: Satp, va: nat, ppn: nat, user: bool)
    ensures var w := WalkTables(CodeTables(satp, va, ppn, user), satp, va);
      w.Leaf? && w.pte.(a := true, d := false) == CodeLeaf(ppn, user) && w.maskBits == 12
  {
    var mem := TablesFor(satp, va, CodeLeaf(ppn, user));
    TablesLead(satp, va, CodeLeaf(ppn, user));
    forall slot: nat | Reads(mem, satp, va, slot)
      ensures SameButAD(Word(mem, slot), Word(CodeTables(satp, va, ppn, user), slot))
    {
      WindowIsApart(satp, va, CodeLeaf(ppn, user), slot);
    }
    WalkFootprint(mem, CodeTables(satp, va, ppn, user), satp, va);
  }

  /** Only the page of a saved address matters. */
  lemma SamePageSameAddress(phys: nat, va: nat)
    ensures LeafAddress(Shl(Page(phys), 12), 12, va) == LeafAddress(phys, 12, va)
  {
    PageOfBase(Page(phys));
    Joined(Shl(Page(phys), 12), va);
    Rejoin(phys, va, LeafAddress(Shl(Page(phys), 12), 12, va));
  }

  lemma OtherPageOtherAddress(phys: nat, ppn: nat, va: nat)
    requires ppn != Page(phys)
    ensures LeafAddress(Shl(ppn, 12), 12, va) != LeafAddress(phys, 12, va)
  {
    PageOfBase(ppn);
    Joined(Shl(ppn, 12), va);
    Joined(phys, va);
  }

  /** There are tables that lead pc, at any paged level, to a page that is not the saved one. */
  lemma Elsewhere(satp: Satp, priv: Priv, lastPhysPc: nat, pc: nat, checked: bool) returns (mem: Memory)
    requires !UnpagedAt(priv, satp)
    ensures !FetchesFrom(mem, satp, priv, pc, LeafAddress(lastPhysPc, 12, pc), checked)
  {
    var ppn := Page(lastPhysPc) + 1;
    mem := CodeTables(satp, pc, ppn, priv == User);
    CodeTablesLead(satp, pc, ppn, priv == User);
    OtherPageOtherAddress(lastPhysPc, ppn, pc);
  }

  /** By these tables the supervisor may fetch from the saved page, and the user may not. */
  lemma SupervisorOnly(satp: Satp, lastPc: nat, lastPhysPc: nat, checked: bool)
    requires !UnpagedAt(Supervisor, satp)
    ensures var mem := CodeTables(satp, lastPc, Page(lastPhysPc), false);
      FetchesFrom(mem, satp, Supervisor, lastPc, LeafAddress(lastPhysPc, 12, lastPc), checked)
    ensures var mem := CodeTables(satp, lastPc, Page(lastPhysPc), false);
      forall pc: nat | Page(pc) == Page(lastPc) ::
        && !FetchesFrom(mem, satp, User, pc, LeafAddress(lastPhysPc, 12, pc), checked)
        && Translation(mem, satp, User, pc, Fetch) == PageFault(0)
  {
    var mem := CodeTables(satp, lastPc, Page(lastPhysPc), false);
    CodeTablesLead(satp, lastPc, Page(lastPhysPc), false);
    SamePageSameAddress(lastPhysPc, lastPc);
    forall pc: nat | Page(pc) == Page(lastPc)
      ensures !FetchesFrom(mem, satp, User, pc, LeafAddress(lastPhysPc, 12, pc), checked)
      ensures Translation(mem, satp, User, pc, Fetch) == PageFault(0)
    {
      WalkOfPage(mem, satp, pc, lastPc);
    }
  }

  /**
   A return leaves the saved page sound, for all tables with which it was sound before, if and only if
   nothing is saved, or the return goes to another page, or both levels have the same view of memory.
   So a return that turns paging on, or goes from supervisor to user, onto the same page can be unsound.
   */
  lemma {:induction false} ReturnSoundExactly(satp: Satp, from: Priv, to: Priv, lastPc: nat, lastPhysPc: nat, pc: nat,
                                              checked: bool)
    requires Rank(to) <= Rank(from)
    requires UnpagedAt(from, satp) ==> LeafAddress(lastPhysPc, 12, lastPc) == lastPc
    ensures (forall mem: Memory | Reusable(mem, satp, from, lastPc, lastPhysPc, lastPc, checked) ::
               Reusable(mem, satp, to, lastPc, lastPhysPc, pc, checked))
       <==> lastPhysPc == 0 || Page(lastPc) != Page(pc) || SameView(satp, from, to)
  {
    if lastPhysPc != 0 && Page(lastPc) == Page(pc) {
      if SameView(satp, from, to) {
        forall mem: Memory | Reusable(mem, satp, from, lastPc, lastPhysPc, lastPc, checked)
          ensures Reusable(mem, satp, to, lastPc, lastPhysPc, pc, checked)
        {
          FetchesAlongPage(mem, satp, from, lastPc, pc, lastPhysPc, checked);
        }
      } else if UnpagedAt(from, satp) {
        var mem := Elsewhere(satp, to, lastPhysPc, pc, checked);
        assert Reusable(mem, satp, from, lastPc, lastPhysPc, lastPc, checked);
        assert !Reusable(mem, satp, to, lastPc, lastPhysPc, pc, checked);
      } else {
        assert from == Supervisor && to == User;
        SupervisorOnly(satp, lastPc, lastPhysPc, checked);
        var mem := CodeTables(satp, lastPc, Page(lastPhysPc), false);
        assert Reusable(mem, satp, from, lastPc, lastPhysPc, lastPc, checked);
        assert !Reusable(mem, satp, to, lastPc, lastPhysPc, pc, checked);
      }
    }
  }

  /**
   A fence does not drop the saved page. At a paged level, the saved page is sound at the instruction
   after the fence, for all tables that may have been written before it, if and only if nothing is
   saved or that instruction is on another page.
   */
  lemma {:induction false} FenceSoundExactly(c: Core)
    requires !c.Unpaged()
    ensures (forall mem: Memory :: c.(mem := mem).Fence().At(c.regs.pc + 4).ShortcutSound())
       <==> c.lastPhysPc == 0 || Page(c.lastPc) != Page(c.regs.pc + 4)
  {
    var pc := c.regs.pc + 4;
    if c.lastPhysPc != 0 && Page(c.lastPc) == Page(pc) {
      var mem := Elsewhere(c.satp, c.regs.priv, c.lastPhysPc, pc, c.checked);
      assert !c.(mem := mem).Fence().At(pc).ShortcutSound();
    }
  }

  // Inputs on which the saved page is not sound.

  /** Registers of a hart that runs at pc and would return to it. */
  function Registers(priv: Priv, pc: nat): State {
    var zero := seq(64, i requires 0 <= i < 64 => i == UXL + 1 || i == SXL + 1);
    State(priv, pc, zero, zero, zero, zero, zero, 0, pc, Exception(0), 0, 0, pc, Exception(0), 0)
  }

  function EmptyTlb(): (t: seq<TlbEntry>)
    ensures |t| == TLB_SZ
  {
    seq(TLB_SZ, i => TlbEntry(0, 0, false, false))
  }

  /** A supervisor at pc, on the page phys that only it may use. */
  function Start(satp: Satp, pc: nat, phys: nat): Core {
    Core(CodeTables(satp, pc, Page(phys), false), satp, EmptyTlb(), pc, phys, false, Registers(Supervisor, pc))
  }

  lemma StartValid(satp: Satp, pc: nat, phys: nat)
    requires satp.mode == 8
    ensures Start(satp, pc, phys).Valid() && Start(satp, pc, phys).Fetched()
  {
    SupervisorOnly(satp, pc, phys, false);
  }

  /**
   sret from supervisor to user on a page that only the supervisor may use: the next fetch succeeds,
   although full translation refuses it. This happens at every pc.
   */
  lemma {:induction false} SretOntoSupervisorPage(satp: Satp, pc: nat, phys: nat)
    requires satp.mode == 8 && phys != 0
    ensures Start(satp, pc, phys).Valid() && Start(satp, pc, phys).Fetched()
    ensures var r := Start(satp, pc, phys).Sret();
      && r.regs.priv == User && r.Sized() && r.FetchPc().1.Ok?
      && Translation(r.mem, r.satp, User, r.regs.pc, Fetch) == PageFault(0)
  {
    StartValid(satp, pc, phys);
    SupervisorOnly(satp, pc, phys, false);
  }

  // The window: a store through it can reach the tables.

  function WindowAddress(va: nat, at: nat): nat {
    Or(Shl(WindowIndex(va), 30), at)
  }

  /** The window address of `at` is translated to `at`. */
  lemma {:induction false} WindowLeads(satp: Satp, va: nat, ppn: nat, at: nat)
    requires at < Pow2(30)
    ensures var mem, ea := CodeTables(satp, va, ppn, false), WindowAddress(va, at);
      && WalkTables(mem, satp, ea) == Leaf(WindowSlot(satp, va), WindowLeaf(), 30)
      && LeafAddress(WindowLeaf().PageBase(), 30, ea) == at
  {
    var mem, ea := CodeTables(satp, va, ppn, false), WindowAddress(va, at);
    WindowEntry(va, at);
    assert Word(mem, Slot2(satp, ea)) == WindowLeaf();
    WindowTarget(va, at);
    ShlZero(12);
  }

  lemma {:induction false} WindowEntry(va: nat, at: nat)
    requires at < Pow2(30)
    ensures TableIndex(WindowAddress(va, at), 30) == WindowIndex(va)
  {
    var ea := WindowAddress(va, at);
    forall i: nat
      ensures Bit(TableIndex(ea, 30), i) == Bit(WindowIndex(va), i)
    {
      WindowBit(va, at, 30 + i);
      LowBit(Shr(ea, 30), 9, i);
      ShrBit(ea, 30, i);
      SmallIndexBit(va, i);
    }
    SameAllBits(TableIndex(ea, 30), WindowIndex(va));
  }

  lemma {:induction false} WindowTarget(va: nat, at: nat)
    requires at < Pow2(30)
    ensures LeafAddress(0, 30, WindowAddress(va, at)) == at
  {
    var pa := LeafAddress(0, 30, WindowAddress(va, at));
    forall i: nat
      ensures Bit(pa, i) == Bit(at, i)
    {
      WindowBit(va, at, i);
      LeafAddressBit(0, 30, WindowAddress(va, at), i);
      ZeroBit(i);
    }
    SameAllBits(pa, at);
  }

  lemma WindowBit(va: nat, at: nat, i: nat)
    requires at < Pow2(30)
    ensures Bit(WindowAddress(va, at), i) == if i < 30 then Bit(at, i) else Bit(WindowIndex(va), i - 30)
    ensures i >= 30 ==> !Bit(at, i)
  {
    OrBit(Shl(WindowIndex(va), 30), at, i);
    ShlBit(WindowIndex(va), 30, i);
    if i >= 30 {
      HighBit(at, 30, i);
    }
  }

  lemma SmallIndexBit(va: nat, i: nat)
    ensures i >= 9 ==> !Bit(WindowIndex(va), i)
  {
    if i >= 9 {
      HighBit(WindowIndex(va), 1, i);
    }
  }

  /** Where the leaf of va is. */
  function LeafSlot(satp: Satp, va: nat): nat {
    Slot0(PointerTo(if satp.ppn == 2 then 3 else 2), va)
  }

  lemma LeafSlotIsLow(satp: Satp, va: nat)
    ensures LeafSlot(satp, va) % 8 == 0 && LeafSlot(satp, va) < Pow2(30)
  {
    PageAddress(if satp.ppn == 2 then 3 else 2);
    IndexInTable(va, 12);
    assert Pow2(3) == 8 && Pow2(6) == 64 && Pow2(9) == 512 && Pow2(12) == 4096 && Pow2(15) == 32768;
    Pow2Monotone(15, 30);
  }

  /** Tables for one address differ in its leaf alone. */
  lemma LeafWritten(satp: Satp, va: nat, ppn: nat, ppn': nat)
    ensures CodeTables(satp, va, ppn, false)[LeafSlot(satp, va) := CodeLeaf(ppn', false)]
         == CodeTables(satp, va, ppn', false)
  {
    var leaf := CodeLeaf(ppn, false);
    TablesLead(satp, va, leaf);
    LeafIsRead(TablesFor(satp, va, leaf), satp, va);
    WindowIsApart(satp, va, leaf, LeafSlot(satp, va));
  }

  lemma PageTranslation(satp: Satp, pc: nat, pc': nat, ppn: nat)
    requires Page(pc) == Page(pc')
    ensures Translation(CodeTables(satp, pc, ppn, false), satp, Supervisor, pc', Fetch)
         == Ok(LeafAddress(Shl(ppn, 12), 12, pc'))
  {
    CodeTablesLead(satp, pc, ppn, false);
    WalkOfPage(CodeTables(satp, pc, ppn, false), satp, pc', pc);
  }

  const QUIET: Register := seq(64, _ => false)

  lemma NothingPending(s: State)
    requires s.mip == QUIET
    ensures Highest(s, 31) == 0
  {
  }

  /** A supervisor that runs at pc from the page phys, whose tables lead the page of `home` to ppn. */
  predicate Running(c: Core, satp: Satp, home: nat, ppn: nat, pc: nat, phys: nat) {
    && c.Sized() && c.satp == satp && c.regs.priv == Supervisor && c.mem == CodeTables(satp, home, ppn, false)
    && c.regs.pc == pc && Page(c.lastPc) == Page(pc) && Page(c.lastPhysPc) == Page(phys) && c.lastPhysPc != 0
  }

  /** What it fetches comes from phys. */
  lemma {:induction false} FetchesOld(c: Core, satp: Satp, home: nat, ppn: nat, pc: nat, phys: nat)
    requires Running(c, satp, home, ppn, pc, phys) && Page(phys) != 0
    ensures var (f, out) := c.FetchPc();
      && Running(f, satp, home, ppn, pc, phys) && f.tlb == c.tlb
      && out == Ok(LeafAddress(phys, 12, pc))
  {
    Joined(c.lastPhysPc, pc);
    Rejoin(phys, pc, LeafAddress(c.lastPhysPc, 12, pc));
    ShrZero(12);
  }

  /** An empty buffer lets the supervisor write to the tables through the window. */
  lemma {:induction false} WindowIsWritable(c: Core, satp: Satp, home: nat, ppn: nat, pc: nat, phys: nat)
    requires Running(c, satp, home, ppn, pc, phys) && satp.mode == 8 && c.NoneValid()
    ensures var (t, out) := c.Translate(WindowAddress(home, LeafSlot(satp, home)), Store);
      out == Ok(LeafSlot(satp, home)) && t.mem == c.mem && t == c.(tlb := t.tlb)
  {
    LeafSlotIsLow(satp, home);
    WindowLeads(satp, home, ppn, LeafSlot(satp, home));
    WindowIsMarked(c.mem, WindowSlot(satp, home));
  }

  lemma WindowIsMarked(mem: Memory, at: nat)
    ensures Permitted(WindowLeaf(), Store, Supervisor) && WriteLeaf(mem, at, WindowLeaf(), Store) == mem
  {
  }

  /** A store through the window that makes ppn the page of `home`. */
  function Remap(satp: Satp, home: nat, ppn: nat): Instruction {
    StoreTo(WindowAddress(home, LeafSlot(satp, home)), NewLeaf(ppn), false)
  }

  /** One aligned doubleword. */
  function NewLeaf(ppn: nat): Stored {
    Stored(8, CodeLeaf(ppn, false), ZERO)
  }

  lemma LeafStored(satp: Satp, home: nat, ppn: nat, ppn': nat)
    ensures StoreWords(CodeTables(satp, home, ppn, false), LeafSlot(satp, home), NewLeaf(ppn'))
         == CodeTables(satp, home, ppn', false)
  {
    LeafSlotIsLow(satp, home);
    LeafWritten(satp, home, ppn, ppn');
  }

  lemma {:induction false} RemapExecutes(c: Core, satp: Satp, home: nat, ppn: nat, ppn': nat, phys: nat)
    requires Running(c, satp, home, ppn, home, phys) && satp.mode == 8
    requires c.NoneValid() && Page(home) == Page(home + 4)
    ensures Running(c.Execute(Remap(satp, home, ppn')), satp, home, ppn', home + 4, phys)
  {
    WindowIsWritable(c, satp, home, ppn, home, phys);
    LeafStored(satp, home, ppn, ppn');
  }

  lemma {:induction false} RemapStep(c: Core, satp: Satp, home: nat, ppn: nat, ppn': nat, phys: nat)
    requires Running(c, satp, home, ppn, home, phys) && Page(phys) != 0 && satp.mode == 8
    requires c.NoneValid() && Page(home) == Page(home + 4)
    ensures Running(c.Next(Input(QUIET, Remap(satp, home, ppn'))), satp, home, ppn', home + 4, phys)
  {
    var p := c.Pending(QUIET);
    NothingPending(p.regs);
    FetchesOld(p, satp, home, ppn, home, phys);
    RemapExecutes(p.FetchPc().0, satp, home, ppn, ppn', phys);
  }

  /** The fence keeps the saved page. */
  lemma {:induction false} FenceStep(c: Core, satp: Satp, home: nat, ppn: nat, pc: nat, phys: nat)
    requires Running(c, satp, home, ppn, pc, phys) && Page(phys) != 0 && Page(pc) == Page(pc + 4)
    ensures var c' := c.Next(Input(QUIET, SfenceVma));
      Running(c', satp, home, ppn, pc + 4, phys) && c'.Coherent()
  {
    var p := c.Pending(QUIET);
    NothingPending(p.regs);
    FetchesOld(p, satp, home, ppn, pc, phys);
    var f := p.FetchPc().0;
    FenceCoherent(f);
    SameBuffer(f.Fence(), f.Fence().At(pc + 4));
  }

  /** Although no entry is stale, the next fetch is not where full translation of its pc leads. */
  predicate StaleFetch(c: Core)
    requires c.Sized()
  {
    var full := Translation(c.mem, c.satp, c.regs.priv, c.regs.pc, Fetch);
    c.Coherent() && c.FetchPc().1.Ok? && full.Ok? && full.pa != c.FetchPc().1.pa
  }

  lemma {:induction false} RunningIsStale(c: Core, satp: Satp, home: nat, ppn: nat, pc: nat, phys: nat)
    requires Running(c, satp, home, ppn, pc, phys) && c.Coherent()
    requires Page(phys) != 0 && Page(phys) != ppn && Page(home) == Page(pc)
    ensures StaleFetch(c)
  {
    FetchesOld(c, satp, home, ppn, pc, phys);
    PageTranslation(satp, home, pc, ppn);
    OtherPageOtherAddress(phys, ppn, pc);
  }

  lemma {:induction false} FenceIsStale(c: Core, satp: Satp, home: nat, ppn: nat, pc: nat, phys: nat)
    returns (c': Core)
    requires Running(c, satp, home, ppn, pc, phys) && Page(phys) != 0 && Page(phys) != ppn
    requires Page(home) == Page(pc) == Page(pc + 4)
    ensures c' == c.Next(Input(QUIET, SfenceVma)) && c'.Sized() && StaleFetch(c')
  {
    FenceStep(c, satp, home, ppn, pc, phys);
    c' := c.Next(Input(QUIET, SfenceVma));
    RunningIsStale(c', satp, home, ppn, pc + 4, phys);
  }

  lemma {:induction false} Remapped(satp: Satp, pc: nat, phys: nat, ppn: nat) returns (c: Core)
    requires satp.mode == 8 && Page(phys) != 0 && Page(pc) == Page(pc + 4)
    ensures Start(satp, pc, phys).Valid() && Start(satp, pc, phys).Fetched()
    ensures c == Start(satp, pc, phys).Next(Input(QUIET, Remap(satp, pc, ppn)))
    ensures c.Sized() && Running(c, satp, pc, ppn, pc + 4, phys)
  {
    StartValid(satp, pc, phys);
    ShrZero(12);
    RemapStep(Start(satp, pc, phys), satp, pc, Page(phys), ppn, phys);
    c := Start(satp, pc, phys).Next(Input(QUIET, Remap(satp, pc, ppn)));
  }

  /**
   A store that maps the running page elsewhere, then a fence: the next fetch still uses the old page,
   although full translation leads to the new one. This happens at every pc but the last two of a page.
   */
  lemma {:induction false} FenceAfterRemap(satp: Satp, pc: nat, phys: nat) returns (c: Core, c': Core)
    requires satp.mode == 8 && Page(phys) != 0 && pc % 4096 < 4088
    ensures Start(satp, pc, phys).Valid() && Start(satp, pc, phys).Fetched()
    ensures c == Start(satp, pc, phys).Next(Input(QUIET, Remap(satp, pc, Page(phys) + 1))) && c.Sized()
    ensures c' == c.Next(Input(QUIET, SfenceVma)) && c'.Sized() && StaleFetch(c')
  {
    TwoMore(pc);
    c := Remapped(satp, pc, phys, Page(phys) + 1);
    c' := FenceIsStale(c, satp, pc, Page(phys) + 1, pc + 4, phys);
  }

  lemma {:induction false} TwoMore(pc: nat)
    requires pc % 4096 < 4088
    ensures Page(pc) == Page(pc + 4) == Page(pc + 4 + 4)
  {
    SamePage(pc, 4);
    SamePage(pc, 8);
  }

  lemma {:induction false} SamePage(pc: nat, d: nat)
    requires pc % 4096 + d < 4096
    ensures Page(pc) == Page(pc + d)
  {
    PowersOfTwo();
    ShrIsQuotient(pc, 12);
    ShrIsQuotient(pc + d, 12);
    DivisionIs(pc + d, 4096, pc / 4096, pc % 4096 + d);
  }
}

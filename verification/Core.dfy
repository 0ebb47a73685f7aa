/**
 The hart as a value: registers, memory, the translation buffer and the saved page of the last
 fetch, with the step that each operation takes. The theorems are about these functions and about
 runs of them; the class Hart takes the same steps in place.
 */
module Cores {
  import opened Bits
  import opened Privilege
  import opened Stores
  import opened Sv39
  import opened Tlb
  import opened Traps

  const FETCH_PAGE_FAULT := Exception(12)
  const LOAD_PAGE_FAULT := Exception(13)
  const STORE_PAGE_FAULT := Exception(15)

  /** The trap value of an interrupt: all ones. */
  const NO_TVAL := 0xffff_ffff_ffff_ffff

  /**
   The instructions of the interpreter, by what they do to translation and traps. The doubleword
   atomic operations translate their address for a load first, whatever comes of it, and then for
   the store; the word ones are like stores. A load reserved is like a load.
   */
  datatype Instruction =
    | Go(next: nat)                  // completes at its own level and continues at `next`
    | LoadFrom(ea: nat)
    | StoreTo(ea: nat, data: Stored, loadFirst: bool)
    | SfenceVma
    | CsrSatp(v: Satp)
    | CsrSstatus(sstatus: Register)
    | CsrMstatus(mstatus: Register)
    | CsrOther(registers: State)     // any other trap register
    | SretInsn
    | MretInsn
    | Raise(cause: Cause, tval: nat)

  /** What one iteration of the interpreter meets: pending interrupts and the instruction at pc. */
  datatype Input = Input(mip: Register, instruction: Instruction)

  function ClearedTlb(tlb: seq<TlbEntry>): (t: seq<TlbEntry>)
    ensures |t| == |tlb|
  {
    seq(|tlb|, i requires 0 <= i < |tlb| => tlb[i].(valid := false))
  }

  /** The address an entry gives for va. */
  function EntryAddress(e: TlbEntry, va: nat): nat {
    LeafAddress(EntryBase(e.paddr), EntryMaskBits(e.paddr), va)
  }

  /** A leaf after an access. */
  function Marked(pte: Pte, access: Access): Pte {
    pte.(a := true, d := pte.d || access == Store)
  }

  function WriteLeaf(mem: Memory, at: nat, pte: Pte, access: Access): Memory {
    if Marked(pte, access) == pte then mem else mem[at := Marked(pte, access)]
  }

  /** Registers that only the trap code and CSR instructions use, taken from t. */
  function WithTrapRegisters(s: State, t: State): State {
    WithSupervisorTraps(WithMachineTraps(s, t), t)
  }

  function WithMachineTraps(s: State, t: State): State {
    s.(mideleg := t.mideleg, medeleg := t.medeleg, mie := t.mie, mip := t.mip, mtvec := t.mtvec, mepc := t.mepc,
       mcause := t.mcause, mtval := t.mtval)
  }

  function WithSupervisorTraps(s: State, t: State): State {
    s.(stvec := t.stvec, sepc := t.sepc, scause := t.scause, stval := t.stval)
  }

  /** The highest interrupt not above n that can be taken, or 0. */
  function Highest(s: State, n: nat): (irq: nat)
    requires n < 32
    ensures irq <= n && (irq > 0 ==> s.Takes(irq)) && forall k | irq < k <= n :: !s.Takes(k)
  {
    if n == 0 then 0 else if s.Takes(n) then n else Highest(s, n - 1)
  }

  /** `checked` records that the saved page was granted by a walk rather than by the buffer. */
  datatype Core = Core(
    mem: Memory, satp: Satp, tlb: seq<TlbEntry>, lastPc: nat, lastPhysPc: nat, checked: bool, regs: State)
  {
    predicate Sized() {
      |tlb| == TLB_SZ
    }

    predicate Unpaged() {
      UnpagedAt(regs.priv, satp)
    }

    /** Every valid entry was filled at a paged level under Sv39. */
    predicate FilledHere() {
      forall i | 0 <= i < |tlb| :: tlb[i].valid ==> satp.mode == 8 && !Unpaged()
    }

    /** Entry i, if valid, is what the walk gives under the current satp and privilege. */
    predicate Fresh(i: nat)
      requires i < |tlb|
    {
      Backed(tlb[i], mem, satp, regs.priv)
    }

    predicate NoneValid() {
      forall i | 0 <= i < |tlb| :: !tlb[i].valid
    }

    predicate Coherent() {
      Sized() && FilledHere() && forall i | 0 <= i < |tlb| :: Fresh(i)
    }

    /** The test for reusing the saved page. */
    predicate Reuses() {
      lastPhysPc != 0 && Page(lastPc) == Page(regs.pc)
    }

    /** Where the saved page is reused, full translation of pc forms the same address. */
    predicate ShortcutSound() {
      Reuses() ==> FetchesFrom(mem, satp, regs.priv, regs.pc, LeafAddress(lastPhysPc, 12, regs.pc), checked)
    }

    /** What holds in every state of a run, also while the buffer is stale. */
    predicate Steady() {
      Sized() && FilledHere() && ShortcutSound() && regs.Is64Bit()
    }

    predicate Valid() {
      Steady() && Coherent()
    }

    /** The instruction at pc has been fetched and not completed. */
    predicate Fetched() {
      Steady() && lastPc == regs.pc
    }

    /** The buffer can serve the access. */
    predicate Usable(va: nat, access: Access)
      requires Sized()
    {
      var e := tlb[TlbIndex(va)];
      e.valid && e.pfn == Page(va) && (e.dirty || access != Store)
    }

    function Insert(va: nat, paddr: nat, maskBits: nat, dirty: bool): (c: Core)
      requires Sized()
      ensures c.Sized()
    {
      this.(tlb := tlb[TlbIndex(va) := TlbEntry(Page(va), Or(paddr, maskBits), dirty, true)])
    }

    function Translate(ea: nat, access: Access): (r: (Core, Outcome))
      requires Sized()
      ensures r.0.Sized()
    {
      if Unpaged() then (this, Ok(ea))
      else if Usable(ea, access) then (this, Ok(EntryAddress(tlb[TlbIndex(ea)], ea)))
      else if satp.mode != 8 then (this, Abort)
      else match WalkTables(mem, satp, ea)
        case NotPresent(level) => (this, PageFault(level))
        case Aborted => (this, Abort)
        case Leaf(at, pte, maskBits) =>
          if !Permitted(pte, access, regs.priv) then (this, PageFault(0))
          else (this.(mem := WriteLeaf(mem, at, pte, access))
                    .Insert(ea, pte.PageBase(), maskBits, Marked(pte, access).d),
                Ok(LeafAddress(pte.PageBase(), maskBits, ea)))
    }

    function At(pc: nat): Core {
      this.(regs := regs.(pc := pc))
    }

    function Write(at: nat, d: Stored): Core {
      this.(mem := StoreWords(mem, at, d))
    }

    /** Before a store: as it is, or after translating the address for a load. */
    function Loaded(ea: nat, loadFirst: bool): (c: Core)
      requires Sized()
      ensures c.Sized()
    {
      if loadFirst then Translate(ea, Load).0 else this
    }

    function Fence(): Core {
      this.(tlb := ClearedTlb(tlb))
    }

    function WriteSatp(v: Satp): Core {
      if v.mode == 8 && v.asid == 0 then this.(satp := v, tlb := ClearedTlb(tlb), lastPhysPc := 0) else this
    }

    function SetPriv(p: Priv): Core {
      this.(regs := regs.(priv := p), tlb := if p == regs.priv then tlb else ClearedTlb(tlb))
    }

    /** Registers after a change of level, which drops the buffer if the level is another one. */
    function ToLevel(r: State): Core {
      SetPriv(r.priv).(regs := r)
    }

    function Trap(cause: Cause, tval: nat): Core
      requires cause.Valid()
    {
      ToLevel(regs.TrapEntry(cause, tval)).(lastPhysPc := 0)
    }

    function Sret(): Core {
      if regs.priv == User then Trap(ILLEGAL_INSTRUCTION, regs.pc) else ToLevel(regs.Sret())
    }

    function Mret(): Core {
      if regs.priv != Machine then Trap(ILLEGAL_INSTRUCTION, regs.pc) else ToLevel(regs.Mret())
    }

    /** The saved page, or a translation, for the instruction at pc. */
    function FetchPc(): (r: (Core, Outcome))
      requires Sized()
      ensures r.0.Sized()
    {
      if Reuses() then Saved(LeafAddress(lastPhysPc, 12, regs.pc), checked)
      else
        var (c, out) := Translate(regs.pc, Fetch);
        match out
        case Ok(pa) => c.Saved(pa, !Usable(regs.pc, Fetch))
        case PageFault(_) => (c.Trap(FETCH_PAGE_FAULT, regs.pc), out)
        case Abort => (c, out)
    }

    function Saved(pa: nat, walked: bool): (r: (Core, Outcome)) {
      (this.(lastPhysPc := pa, lastPc := regs.pc, checked := walked), Ok(pa))
    }

    function AccessData(ea: nat, access: Access, fault: Cause): (r: (Core, Outcome))
      requires Sized() && fault.Valid()
    {
      var (c, out) := Translate(ea, access);
      (if out.PageFault? then c.Trap(fault, ea) else c, out)
    }

    /** The fetched instruction. After a failed assertion of the source nothing more happens. */
    function Execute(i: Instruction): Core
      requires Sized() && Executable(i)
    {
      match i
      case Go(next) => At(next)
      case LoadFrom(ea) =>
        var (c, out) := AccessData(ea, Load, LOAD_PAGE_FAULT);
        if out.Ok? then c.At(regs.pc + 4) else c
      case StoreTo(ea, data, loadFirst) =>
        var (c, out) := Loaded(ea, loadFirst).AccessData(ea, Store, STORE_PAGE_FAULT);
        if out.Ok? then c.Write(out.pa, data).At(regs.pc + 4) else c
      case SfenceVma => Fence().At(regs.pc + 4)
      case CsrSatp(v) => WriteSatp(v).At(regs.pc + 4)
      case CsrSstatus(v) => this.(regs := regs.(mstatus := WriteSstatus(regs.mstatus, v), pc := regs.pc + 4))
      case CsrMstatus(v) => this.(regs := regs.(mstatus := WriteMstatus(regs.mstatus, v), pc := regs.pc + 4))
      case CsrOther(t) => this.(regs := WithTrapRegisters(regs, t).(pc := regs.pc + 4))
      case SretInsn => Sret()
      case MretInsn => Mret()
      case Raise(cause, tval) => Trap(cause, tval)
    }

    function Pending(mip: Register): Core {
      this.(regs := regs.(mip := mip))
    }

    /** One iteration: take an interrupt, or fetch and execute an instruction. */
    function Next(input: Input): Core
      requires Sized() && Executable(input.instruction)
    {
      var c := Pending(input.mip);
      var irq := Highest(c.regs, 31);
      if irq > 0 then c.Trap(Interrupt(irq), NO_TVAL)
      else
        var (f, out) := c.FetchPc();
        if out.Ok? then f.Execute(input.instruction) else f
    }

    /** A return to this level leaves the saved page good, or does not reuse it. */
    predicate SafeReturn(r: State) {
      SameView(satp, regs.priv, r.priv) || Page(r.pc) != Page(regs.pc)
    }

    /** What the instruction must respect for the saved page to stay sound. */
    ghost predicate AllowsInstruction(i: Instruction)
      requires Sized()
    {
      match i
      case StoreTo(ea, data, loadFirst) =>
        var (c, out) := Loaded(ea, loadFirst).Translate(ea, Store);
        out.Ok? ==> c.KeepsCode(out.pa, data)
      case SretInsn => regs.priv != User ==> SafeReturn(regs.Sret())
      case MretInsn => regs.priv == Machine ==> SafeReturn(regs.Mret())
      case _ => true
    }

    /** In the words that the walk of pc reads, a store changes at most A and D, or execution leaves the page. */
    ghost predicate KeepsCode(at: nat, d: Stored) {
      || Unpaged()
      || Page(regs.pc + 4) != Page(regs.pc)
      || SparesWalk(mem, satp, regs.pc, at, d)
    }

    /** In the words that the walk of a valid entry's page reads, a store at most turns on A and D. */
    ghost predicate KeepsEntries(at: nat, d: Stored) {
      forall i | 0 <= i < |tlb| && tlb[i].valid :: SparesEntry(mem, satp, Shl(tlb[i].pfn, 12), at, d)
    }

    ghost predicate KeepsBuffer(i: Instruction)
      requires Sized()
    {
      i.StoreTo? ==>
        var (c, out) := Loaded(i.ea, i.loadFirst).Translate(i.ea, Store);
        out.Ok? ==> c.KeepsEntries(out.pa, i.data)
    }

    ghost predicate KeepsBufferNext(input: Input)
      requires Sized()
    {
      var c := Pending(input.mip);
      Highest(c.regs, 31) == 0 && c.FetchPc().1.Ok? ==>
        c.FetchPc().0.KeepsBuffer(input.instruction)
    }

    /** The instruction, if one is fetched, respects the saved page. */
    ghost predicate Respects(input: Input)
      requires Sized()
    {
      var c := Pending(input.mip);
      Highest(c.regs, 31) == 0 && c.FetchPc().1.Ok? ==>
        c.FetchPc().0.AllowsInstruction(input.instruction)
    }

    /** The fetch does not consult a stale entry, and the instruction respects the saved page. */
    ghost predicate Allows(input: Input)
      requires Sized()
    {
      && (Highest(Pending(input.mip).regs, 31) == 0 ==>
            Reuses() || Unpaged() || Fresh(TlbIndex(regs.pc)))
      && Respects(input)
    }
  }

  predicate Executable(i: Instruction) {
    (i.Raise? ==> i.cause.Valid()) && (i.StoreTo? ==> i.data.Fits())
  }

  /** The two levels see the same mapping with the same rights. */
  predicate SameView(satp: Satp, from: Priv, to: Priv) {
    from == to || (UnpagedAt(from, satp) && UnpagedAt(to, satp))
  }

  // Translation.

  lemma MarkedLeaf(mem: Memory, at: nat, pte: Pte, access: Access)
    requires Word(mem, at) == pte
    ensures OnlyMoreAD(mem, WriteLeaf(mem, at, pte, access))
    ensures Word(WriteLeaf(mem, at, pte, access), at) == Marked(pte, access)
  {
    MarkedMore(mem, at, Marked(pte, access));
  }

  /** Nothing is in the buffer of c' that could be stale, unless it was in that of c. */
  predicate Kept(c: Core, c': Core)
    requires c.Sized()
  {
    && c'.Sized()
    && (c.FilledHere() ==> c'.FilledHere())
    && forall i | 0 <= i < TLB_SZ && c.Fresh(i) :: c'.Fresh(i)
  }

  /** A translation changes marks in memory and the buffer, and leaves fresh entries fresh. */
  lemma {:induction false} TranslateKeeps(c: Core, ea: nat, access: Access)
    requires c.Sized()
    ensures var c' := c.Translate(ea, access).0;
      && c' == c.(mem := c'.mem, tlb := c'.tlb)
      && c'.Sized() && OnlyMoreAD(c.mem, c'.mem)
      && Kept(c, c')
  {
    var (c', out) := c.Translate(ea, access);
    if !c.Unpaged() && !c.Usable(ea, access) && c.satp.mode == 8 && out.Ok? {
      Inserted(c, ea, access);
    }
  }

  /** The entry made from a walk is fresh, and the walk finds the leaf with its marks. */
  lemma {:induction false} Inserted(c: Core, ea: nat, access: Access)
    requires c.Sized() && !c.Unpaged() && !c.Usable(ea, access) && c.satp.mode == 8
    requires c.Translate(ea, access).1.Ok?
    ensures var (c', out) := c.Translate(ea, access);
      && c'.Sized() && OnlyMoreAD(c.mem, c'.mem) && c'.Fresh(TlbIndex(ea))
      && Mapped(c'.mem, c'.satp, c'.regs.priv, ea, access == Store)
      && out.pa == Target(WalkTables(c'.mem, c'.satp, ea), ea)
      && forall i | 0 <= i < TLB_SZ && c.Fresh(i) :: c'.Fresh(i)
  {
    var w := WalkTables(c.mem, c.satp, ea);
    LeafIsWord(c.mem, c.satp, ea);
    MarkedLeaf(c.mem, w.at, w.pte, access);
    var (c', out) := c.Translate(ea, access);
    MappedStays(c.mem, c'.mem, c.satp, c.regs.priv, ea, false);
    LeafIsWord(c'.mem, c.satp, ea);
    InsertedIsBacked(c'.mem, c'.satp, c'.regs.priv, ea, Marked(w.pte, access).d);
    forall i | 0 <= i < TLB_SZ && c.Fresh(i)
      ensures c'.Fresh(i)
    {
      if i != TlbIndex(ea) {
        BackedStays(c.tlb[i], c.mem, c'.mem, c.satp, c.regs.priv);
      }
    }
  }

  /**
   Buffer and walk agree. Where the entry consulted is fresh, a successful translation forms the
   address the walk forms, and the leaf is marked accessed and, after a store, dirty; without a
   usable entry the outcome is that of the walk and the checks.
   */
  lemma {:induction false} TranslateIsWalk(c: Core, ea: nat, access: Access)
    requires c.Sized() && (c.Unpaged() || c.Fresh(TlbIndex(ea)))
    ensures TranslationSound(c, ea, access)
  {
    var (c', out) := c.Translate(ea, access);
    if !c.Unpaged() && out.Ok? {
      if c.Usable(ea, access) {
        HitIsWalk(c.tlb[TlbIndex(ea)], c.mem, c.satp, c.regs.priv, ea);
      } else {
        Inserted(c, ea, access);
      }
    }
  }

  /** A load reserved translates twice, which is the same as once. */
  lemma {:induction false} LoadTwice(c: Core, ea: nat)
    requires c.Sized()
    ensures var once := c.Translate(ea, Load); once.0.Translate(ea, Load) == once
  {
    var (c', out) := c.Translate(ea, Load);
    if !c.Unpaged() && !c.Usable(ea, Load) && out.Ok? {
      LeafIsWord(c.mem, c.satp, ea);
      var w := WalkTables(c.mem, c.satp, ea);
      Packed(w.pte.ppn, w.maskBits);
    }
  }

  // The saved page.

  /** Marks do not disturb the saved page. */
  lemma {:induction false} ShortcutStays(c: Core, c': Core)
    requires c.ShortcutSound() && OnlyMoreAD(c.mem, c'.mem)
    requires c' == c.(mem := c'.mem, tlb := c'.tlb)
    ensures c'.ShortcutSound()
  {
    ADIsInvisible(c.mem, c'.mem, c.satp, c.regs.pc);
    if c.Reuses() {
      SameWalkFetches(c.mem, c'.mem, c.satp, c.regs.priv, c.regs.pc, LeafAddress(c.lastPhysPc, 12, c.regs.pc),
                      c.checked);
    }
  }

  /** At another pc the saved page is sound as well. */
  lemma {:induction false} ShortcutMoves(c: Core, pc: nat)
    requires c.ShortcutSound() && c.lastPc == c.regs.pc
    ensures c.At(pc).ShortcutSound()
  {
    if c.At(pc).Reuses() {
      FetchesAlongPage(c.mem, c.satp, c.regs.priv, c.regs.pc, pc, c.lastPhysPc, c.checked);
    }
  }

  /** A fetch translated with a fresh entry is granted by the level's own rights. */
  lemma {:induction false} TranslatedFetch(c: Core)
    requires c.Sized() && (c.Unpaged() || c.Fresh(TlbIndex(c.regs.pc)))
    ensures var (c', out) := c.Translate(c.regs.pc, Fetch);
      out.Ok? ==> FetchesFrom(c'.mem, c.satp, c.regs.priv, c.regs.pc, out.pa, !c.Usable(c.regs.pc, Fetch))
  {
    var (c', out) := c.Translate(c.regs.pc, Fetch);
    TranslateIsWalk(c, c.regs.pc, Fetch);
    TranslateKeeps(c, c.regs.pc, Fetch);
    ADIsInvisible(c.mem, c'.mem, c.satp, c.regs.pc);
  }

  /** The saved address is its own shortcut. */
  lemma {:induction false} SavedSound(c: Core, pa: nat, walked: bool)
    requires FetchesFrom(c.mem, c.satp, c.regs.priv, c.regs.pc, pa, walked)
    ensures c.Saved(pa, walked).0.ShortcutSound()
  {
    LeadsToItself(c.mem, c.satp, c.Unpaged(), c.regs.pc, pa);
  }

  /** A change of level leaves no entry that was filled for another one. */
  lemma ToLevelKeeps(c: Core, r: State)
    requires c.Sized()
    ensures Kept(c, c.ToLevel(r))
  {
    forall i | 0 <= i < TLB_SZ && c.Fresh(i)
      ensures c.ToLevel(r).Fresh(i)
    {
      assert c.ToLevel(r).tlb[i] == if r.priv == c.regs.priv then c.tlb[i] else c.tlb[i].(valid := false);
    }
  }

  /** A trap drops the saved page and keeps the rest in order. */
  lemma {:induction false} TrapSteady(c: Core, cause: Cause, tval: nat)
    requires c.Sized() && c.FilledHere() && c.regs.Is64Bit() && cause.Valid()
    ensures c.Trap(cause, tval).Steady()
  {
    ToLevelKeeps(c, c.regs.TrapEntry(cause, tval));
    StepIs64Bit(c.regs, Step.Trap(cause, tval));
  }

  /** The fetch in c led to c', and was sound if it gave an address. */
  ghost predicate SoundFetch(c: Core, c': Core, out: Outcome) {
    && c'.Steady() && OnlyMoreAD(c.mem, c'.mem) && c'.satp == c.satp
    && (out.Ok? ==> c'.regs == c.regs && c'.Fetched()
                    && FetchesFrom(c'.mem, c'.satp, c'.regs.priv, c'.regs.pc, out.pa, c'.checked))
    && (out.PageFault? ==> c'.regs == c.regs.TrapEntry(FETCH_PAGE_FAULT, c.regs.pc) && !c'.Reuses())
  }

  /**
   The fetch of one instruction. Whether the saved page is reused or not, what is fetched is at the
   address that full translation of pc forms and that the level may use; after a fetch that was
   walked, and on the same page ever after, it is exactly what full translation gives.
   */
  lemma {:induction false} FetchSteady(c: Core)
    requires c.Steady() && (c.Reuses() || c.Unpaged() || c.Fresh(TlbIndex(c.regs.pc)))
    ensures SoundFetch(c, c.FetchPc().0, c.FetchPc().1)
  {
    if c.Reuses() {
      SavedSound(c, LeafAddress(c.lastPhysPc, 12, c.regs.pc), c.checked);
    } else {
      TranslatedFetchSteady(c);
    }
  }

  lemma {:induction false} TranslatedFetchSteady(c: Core)
    requires c.Steady() && !c.Reuses() && (c.Unpaged() || c.Fresh(TlbIndex(c.regs.pc)))
    ensures SoundFetch(c, c.FetchPc().0, c.FetchPc().1)
  {
    var (t, out) := c.Translate(c.regs.pc, Fetch);
    TranslateKeeps(c, c.regs.pc, Fetch);
    ShortcutStays(c, t);
    match out {
      case Ok(pa) =>
        TranslatedFetch(c);
        SavedSound(t, pa, !c.Usable(c.regs.pc, Fetch));
      case PageFault(_) =>
        TrapSteady(t, FETCH_PAGE_FAULT, c.regs.pc);
      case Abort =>
    }
  }

  lemma {:induction false} AccessSteady(c: Core, ea: nat, access: Access, fault: Cause)
    requires c.Fetched() && fault.Valid()
    ensures var (c', out) := c.AccessData(ea, access, fault);
      && c'.Steady() && OnlyMoreAD(c.mem, c'.mem)
      && (!out.PageFault? ==> c'.Fetched() && c'.regs == c.regs && c' == c.Translate(ea, access).0)
  {
    var (t, out) := c.Translate(ea, access);
    TranslateKeeps(c, ea, access);
    ShortcutStays(c, t);
    if out.PageFault? {
      TrapSteady(t, fault, ea);
    }
  }

  /** A load access first does not disturb a store. */
  lemma {:induction false} LoadedSteady(c: Core, ea: nat, loadFirst: bool)
    requires c.Fetched()
    ensures var c' := c.Loaded(ea, loadFirst);
      c'.Fetched() && c'.regs == c.regs && OnlyMoreAD(c.mem, c'.mem) && Kept(c, c')
  {
    if loadFirst {
      TranslateKeeps(c, ea, Load);
      ShortcutStays(c, c.Loaded(ea, loadFirst));
    }
  }

  /** A store that the code page survives leaves the saved page sound at the next instruction. */
  lemma {:induction false} StoreSteady(c: Core, at: nat, d: Stored)
    requires c.Fetched() && d.Fits() && c.KeepsCode(at, d)
    ensures c.Write(at, d).At(c.regs.pc + 4).Steady()
  {
    var w, pc := c.Write(at, d), c.regs.pc + 4;
    if c.At(pc).Reuses() {
      if !c.Unpaged() {
        SparedWalk(c.mem, c.satp, c.regs.pc, at, d);
      }
      SameWalkFetches(c.mem, w.mem, c.satp, c.regs.priv, c.regs.pc, LeafAddress(c.lastPhysPc, 12, c.regs.pc),
                      c.checked);
      FetchesAlongPage(w.mem, c.satp, c.regs.priv, c.regs.pc, pc, c.lastPhysPc, c.checked);
    }
  }

  /** A safe return leaves the saved page sound. */
  lemma {:induction false} ReturnSteady(c: Core, r: State)
    requires c.Fetched() && c.SafeReturn(r) && r.Is64Bit()
    ensures c.ToLevel(r).Steady()
  {
    ToLevelKeeps(c, r);
    if c.ToLevel(r).Reuses() {
      FetchesAlongPage(c.mem, c.satp, c.regs.priv, c.regs.pc, r.pc, c.lastPhysPc, c.checked);
    }
  }

  lemma {:induction false} SretSteady(c: Core)
    requires c.Fetched() && c.AllowsInstruction(SretInsn)
    ensures c.Sret().Steady()
  {
    if c.regs.priv == User {
      TrapSteady(c, ILLEGAL_INSTRUCTION, c.regs.pc);
    } else {
      StepIs64Bit(c.regs, ExecSret);
      ReturnSteady(c, c.regs.Sret());
    }
  }

  lemma {:induction false} MretSteady(c: Core)
    requires c.Fetched() && c.AllowsInstruction(MretInsn)
    ensures c.Mret().Steady()
  {
    if c.regs.priv != Machine {
      TrapSteady(c, ILLEGAL_INSTRUCTION, c.regs.pc);
    } else {
      StepIs64Bit(c.regs, ExecMret);
      ReturnSteady(c, c.regs.Mret());
    }
  }

  lemma {:induction false} LoadSteady(c: Core, ea: nat)
    requires c.Fetched()
    ensures c.Execute(LoadFrom(ea)).Steady()
  {
    AccessSteady(c, ea, Load, LOAD_PAGE_FAULT);
    var (t, out) := c.AccessData(ea, Load, LOAD_PAGE_FAULT);
    if out.Ok? {
      ShortcutMoves(t, c.regs.pc + 4);
    }
  }

  lemma {:induction false} StoredSteady(c: Core, ea: nat, data: Stored, loadFirst: bool)
    requires c.Fetched() && data.Fits() && c.AllowsInstruction(StoreTo(ea, data, loadFirst))
    ensures c.Execute(StoreTo(ea, data, loadFirst)).Steady()
  {
    var l := c.Loaded(ea, loadFirst);
    LoadedSteady(c, ea, loadFirst);
    AccessSteady(l, ea, Store, STORE_PAGE_FAULT);
    var (t, out) := l.AccessData(ea, Store, STORE_PAGE_FAULT);
    StoreCompletes(c, ea, data, loadFirst);
    if out.Ok? {
      StoreSteady(t, out.pa, data);
    }
  }

  lemma StoreCompletes(c: Core, ea: nat, data: Stored, loadFirst: bool)
    requires c.Sized() && data.Fits() && c.AllowsInstruction(StoreTo(ea, data, loadFirst))
    ensures var (t, out) := c.Loaded(ea, loadFirst).AccessData(ea, Store, STORE_PAGE_FAULT);
      && c.Execute(StoreTo(ea, data, loadFirst))
         == (if out.Ok? then t.Write(out.pa, data).At(c.regs.pc + 4) else t)
      && (out.Ok? ==> t.KeepsCode(out.pa, data))
  {
  }

  lemma {:induction false} CsrSteady(c: Core, i: Instruction)
    requires c.Fetched() && (i.CsrSatp? || i.CsrSstatus? || i.CsrMstatus? || i.CsrOther?)
    ensures c.Execute(i).Steady()
  {
    ShortcutMoves(c, c.regs.pc + 4);
    if !i.CsrSatp? {
      SameFetch(c.At(c.regs.pc + 4), c.Execute(i));
    }
    match i
    case CsrSatp(v) =>
    case CsrSstatus(v) => StepIs64Bit(c.regs, SetSstatus(v));
    case CsrMstatus(v) => StepIs64Bit(c.regs, SetMstatus(v));
    case CsrOther(t) =>
  }

  /** Of the registers only pc and the level matter to a fetch. */
  lemma SameFetch(c: Core, c': Core)
    requires c.Sized() && c.FilledHere() && c.ShortcutSound()
    requires c' == c.(regs := c'.regs) && c'.regs.priv == c.regs.priv && c'.regs.pc == c.regs.pc
    ensures c'.Sized() && c'.FilledHere() && c'.ShortcutSound()
  {
  }

  lemma {:induction false} ExecuteSteady(c: Core, i: Instruction)
    requires c.Fetched() && Executable(i) && c.AllowsInstruction(i)
    ensures c.Execute(i).Steady()
  {
    match i
    case Go(next) => ShortcutMoves(c, next);
    case LoadFrom(ea) => LoadSteady(c, ea);
    case StoreTo(ea, data, loadFirst) => StoredSteady(c, ea, data, loadFirst);
    case SfenceVma => ShortcutMoves(c.Fence(), c.regs.pc + 4);
    case SretInsn => SretSteady(c);
    case MretInsn => MretSteady(c);
    case Raise(cause, tval) => TrapSteady(c, cause, tval);
    case _ => CsrSteady(c, i);
  }

  lemma {:induction false} NextSteady(c: Core, input: Input)
    requires c.Steady() && Executable(input.instruction) && c.Allows(input)
    ensures c.Next(input).Steady()
  {
    var p := c.Pending(input.mip);
    var irq := Highest(p.regs, 31);
    if irq > 0 {
      TrapSteady(p, Interrupt(irq), NO_TVAL);
    } else {
      FetchSteady(p);
      var (f, out) := p.FetchPc();
      if out.Ok? {
        ExecuteSteady(f, input.instruction);
      }
    }
  }

  // The buffer.

  lemma {:induction false} TrapKeeps(c: Core, cause: Cause, tval: nat)
    requires c.Sized() && cause.Valid()
    ensures Kept(c, c.Trap(cause, tval))
  {
    var l := c.ToLevel(c.regs.TrapEntry(cause, tval));
    ToLevelKeeps(c, c.regs.TrapEntry(cause, tval));
    SameBuffer(l, l.(lastPhysPc := 0));
  }

  lemma SameBuffer(c: Core, c': Core)
    requires c.Sized() && c'.tlb == c.tlb && c'.mem == c.mem && c'.satp == c.satp && c'.regs.priv == c.regs.priv
    ensures Kept(c, c')
  {
  }

  lemma KeptTwice(c: Core, c': Core, c'': Core)
    requires c.Sized() && Kept(c, c') && Kept(c', c'')
    ensures Kept(c, c'')
  {
  }

  /** A fence leaves nothing stale, whatever was written to the tables. */
  lemma FenceCoherent(c: Core)
    requires c.Sized()
    ensures c.Fence().Coherent() && forall i | 0 <= i < TLB_SZ :: !c.Fence().tlb[i].valid
    ensures Kept(c, c.Fence())
  {
  }

  lemma {:induction false} FetchKeeps(c: Core)
    requires c.Sized()
    ensures Kept(c, c.FetchPc().0)
  {
    if c.Reuses() {
      SameBuffer(c, c.FetchPc().0);
    } else {
      var (t, out) := c.Translate(c.regs.pc, Fetch);
      TranslateKeeps(c, c.regs.pc, Fetch);
      match out {
        case Ok(pa) => SameBuffer(t, c.FetchPc().0);
        case PageFault(_) => TrapKeeps(t, FETCH_PAGE_FAULT, c.regs.pc);
        case Abort =>
      }
      KeptTwice(c, t, c.FetchPc().0);
    }
  }

  lemma {:induction false} AccessKeeps(c: Core, ea: nat, access: Access, fault: Cause)
    requires c.Sized() && fault.Valid()
    ensures Kept(c, c.AccessData(ea, access, fault).0)
  {
    var (t, out) := c.Translate(ea, access);
    TranslateKeeps(c, ea, access);
    if out.PageFault? {
      TrapKeeps(t, fault, ea);
      KeptTwice(c, t, t.Trap(fault, ea));
    }
  }

  lemma LoadedKeeps(c: Core, ea: nat, loadFirst: bool)
    requires c.Sized()
    ensures Kept(c, c.Loaded(ea, loadFirst))
  {
    if loadFirst {
      TranslateKeeps(c, ea, Load);
    }
  }

  /** A store to words that no valid entry depends on, or that only turns on A and D in them. */
  lemma {:induction false} WriteKeeps(c: Core, at: nat, d: Stored)
    requires c.Sized() && d.Fits() && c.KeepsEntries(at, d)
    ensures Kept(c, c.Write(at, d))
  {
    forall i | 0 <= i < TLB_SZ && c.Fresh(i)
      ensures c.Write(at, d).Fresh(i)
    {
      if c.tlb[i].valid {
        SparedEntry(c.mem, c.satp, Shl(c.tlb[i].pfn, 12), at, d);
      }
      BackedStays(c.tlb[i], c.mem, c.Write(at, d).mem, c.satp, c.regs.priv);
    }
  }

  /**
   Which words the buffer depends on, exactly: all values may be stored in an aligned word without
   making a valid entry stale if and only if no valid entry's walk reads that word.
   */
  lemma {:induction false} StoreKeepsExactly(c: Core, at: nat)
    requires c.Coherent() && at % 8 == 0
    ensures (forall v: Pte :: c.Write(at, Stored(8, v, v)).Coherent())
       <==> (forall i | 0 <= i < TLB_SZ && c.tlb[i].valid :: !Reads(c.mem, c.satp, Shl(c.tlb[i].pfn, 12), at))
  {
    if i: nat :| i < TLB_SZ && c.tlb[i].valid && Reads(c.mem, c.satp, Shl(c.tlb[i].pfn, 12), at) {
      ReadIsNeeded(c.mem, c.satp, Shl(c.tlb[i].pfn, 12), at);
      assert !c.Write(at, Stored(8, ZERO, ZERO)).Fresh(i);
    } else {
      forall v: Pte
        ensures c.Write(at, Stored(8, v, v)).Coherent()
      {
        ElsewhereKeeps(c, at, Stored(8, v, v));
      }
    }
  }

  lemma {:induction false} ElsewhereKeeps(c: Core, at: nat, d: Stored)
    requires c.Coherent() && at % 8 == 0 && d.Fits()
    requires forall i | 0 <= i < TLB_SZ && c.tlb[i].valid :: !Reads(c.mem, c.satp, Shl(c.tlb[i].pfn, 12), at)
    ensures c.Write(at, d).Coherent()
  {
    forall i | 0 <= i < TLB_SZ && c.tlb[i].valid
      ensures SparesEntry(c.mem, c.satp, Shl(c.tlb[i].pfn, 12), at, d)
    {
      UnreadIsSpared(c.mem, c.satp, Shl(c.tlb[i].pfn, 12), at, d);
    }
    WriteKeeps(c, at, d);
  }

  lemma {:induction false} MemoryKeeps(c: Core, i: Instruction)
    requires c.Sized() && (i.LoadFrom? || i.StoreTo?) && Executable(i) && c.KeepsBuffer(i)
    ensures Kept(c, c.Execute(i))
  {
    match i
    case LoadFrom(ea) =>
      AccessKeeps(c, ea, Load, LOAD_PAGE_FAULT);
      var (t, out) := c.AccessData(ea, Load, LOAD_PAGE_FAULT);
      if out.Ok? {
        SameBuffer(t, c.Execute(i));
        KeptTwice(c, t, c.Execute(i));
      }
    case StoreTo(ea, data, loadFirst) =>
      var l := c.Loaded(ea, loadFirst);
      LoadedKeeps(c, ea, loadFirst);
      AccessKeeps(l, ea, Store, STORE_PAGE_FAULT);
      var (t, out) := l.AccessData(ea, Store, STORE_PAGE_FAULT);
      KeptTwice(c, l, t);
      if out.Ok? {
        WriteKeeps(t, out.pa, data);
        SameBuffer(t.Write(out.pa, data), c.Execute(i));
        KeptTwice(c, t, t.Write(out.pa, data));
        KeptTwice(c, t.Write(out.pa, data), c.Execute(i));
      }
  }

  lemma {:induction false} ExecuteKeeps(c: Core, i: Instruction)
    requires c.Sized() && Executable(i) && c.KeepsBuffer(i)
    ensures Kept(c, c.Execute(i))
  {
    match i
    case LoadFrom(_) => MemoryKeeps(c, i);
    case StoreTo(_, _, _) => MemoryKeeps(c, i);
    case SretInsn =>
      ToLevelKeeps(c, c.regs.Sret());
      TrapKeeps(c, ILLEGAL_INSTRUCTION, c.regs.pc);
    case MretInsn =>
      ToLevelKeeps(c, c.regs.Mret());
      TrapKeeps(c, ILLEGAL_INSTRUCTION, c.regs.pc);
    case Raise(cause, tval) => TrapKeeps(c, cause, tval);
    case _ =>
  }

  lemma {:induction false} NextKeeps(c: Core, input: Input)
    requires c.Sized() && Executable(input.instruction) && c.KeepsBufferNext(input)
    ensures Kept(c, c.Next(input))
  {
    var p := c.Pending(input.mip);
    var irq := Highest(p.regs, 31);
    SameBuffer(c, p);
    if irq > 0 {
      TrapKeeps(p, Interrupt(irq), NO_TVAL);
    } else {
      FetchKeeps(p);
      var (f, out) := p.FetchPc();
      KeptTwice(c, p, f);
      if out.Ok? {
        ExecuteKeeps(f, input.instruction);
        KeptTwice(c, f, c.Next(input));
      }
    }
    KeptTwice(c, p, c.Next(input));
  }

  /** Any access in c is translated as the walk and the checks say. */
  predicate TranslationSound(c: Core, ea: nat, access: Access)
    requires c.Sized()
  {
    var (c', out) := c.Translate(ea, access);
    && (out.Ok? ==> LeadsTo(c'.mem, c'.satp, c'.Unpaged(), ea, out.pa))
    && (out.Ok? && !c.Unpaged() ==> Mapped(c'.mem, c'.satp, c'.regs.priv, ea, access == Store))
    && (!c.Unpaged() && !c.Usable(ea, access) && c.satp.mode == 8 ==>
          out == Translation(c.mem, c.satp, c.regs.priv, ea, access))
  }
}

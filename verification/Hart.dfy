/**
 The hart in place: the registers, memory and caches that translation, traps and returns change. Each
 method takes the step that the value model gives for it, so what is proved about the model, in one
 step or over a run, holds of the object.
 */
module Harts {
  import opened Bits
  import opened Cores
  import opened Privilege
  import opened Runs
  import opened Stores
  import opened Sv39
  import opened Tlb
  import opened Traps

  class Hart {
    var mem: Memory
    var satp: Satp
    const tlb: array<TlbEntry>
    var lastPc: nat
    var lastPhysPc: nat

    var priv: Priv
    var pc: nat
    var mstatus: Register
    var mideleg: Register
    var medeleg: Register
    var mie: Register
    var mip: Register
    var mtvec: nat
    var mepc: nat
    var mcause: Cause
    var mtval: nat
    var stvec: nat
    var sepc: nat
    var scause: Cause
    var stval: nat

    /** Whether the saved page was granted by a walk; nothing in the source depends on it. */
    ghost var checked: bool

    function View(): State
      reads this`priv, this`pc, this`mstatus, this`mideleg, this`medeleg, this`mie, this`mip, this`mtvec,
            this`mepc, this`mcause, this`mtval, this`stvec, this`sepc, this`scause, this`stval
    {
      State(priv, pc, mstatus, mideleg, medeleg, mie, mip, mtvec, mepc, mcause, mtval, stvec, sepc, scause, stval)
    }

    ghost function Model(): Core
      reads this, tlb
    {
      Core(mem, satp, tlb[..], lastPc, lastPhysPc, checked, View())
    }

    predicate Sized() {
      tlb.Length == TLB_SZ
    }

    predicate Unpaged()
      reads this`priv, this`satp
    {
      UnpagedAt(priv, satp)
    }

    /** Reset: machine level, paging off, 64-bit lower levels, both caches empty. */
    constructor ()
      ensures Sized() && Model().Valid() && fresh(tlb)
      ensures priv == Machine && satp.mode == 0 && lastPhysPc == 0
    {
      mem, satp, lastPc, lastPhysPc := map[], Satp(0, 0, 0), 0, 0;
      tlb := new TlbEntry[TLB_SZ](_ => TlbEntry(0, 0, false, false));
      priv, pc := Machine, 0;
      var zero := seq(64, _ => false);
      mstatus := zero[UXL + 1 := true][SXL + 1 := true];
      mideleg, medeleg, mie, mip := zero, zero, zero, zero;
      mtvec, mepc, mtval, stvec, sepc, stval := 0, 0, 0, 0, 0, 0;
      mcause, scause := Exception(0), Exception(0);
      checked := false;
    }

    /** No entry is valid afterwards; everything else in them stays. */
    method ClearTlb()
      requires Sized()
      modifies tlb
      ensures tlb[..] == ClearedTlb(old(tlb[..]))
      ensures forall i | 0 <= i < TLB_SZ :: !tlb[i].valid
    {
      for i := 0 to TLB_SZ
        invariant forall k | 0 <= k < i :: tlb[k] == old(tlb[k]).(valid := false)
        invariant forall k | i <= k < TLB_SZ :: tlb[k] == old(tlb[k])
      {
        tlb[i] := tlb[i].(valid := false);
      }
    }

    method InsertTlb(va: nat, paddr: nat, maskBits: nat, dirty: bool)
      requires Sized()
      modifies tlb
      ensures Model() == old(Model()).Insert(va, paddr, maskBits, dirty)
      ensures tlb[TlbIndex(va)] == TlbEntry(Page(va), Or(paddr, maskBits), dirty, true)
      ensures forall i | 0 <= i < TLB_SZ && i != TlbIndex(va) :: tlb[i] == old(tlb[i])
    {
      var h := TlbIndex(va);
      tlb[h] := TlbEntry(Page(va), Or(paddr, maskBits), dirty, true);
    }

    /** A hit is on a valid entry for the page; if it is fresh, it gives the address the walk forms. */
    method LookupTlb(va: nat) returns (pa: nat, hit: bool, dirty: bool)
      requires Sized()
      ensures hit == (tlb[TlbIndex(va)].valid && tlb[TlbIndex(va)].pfn == Page(va))
      ensures hit ==> dirty == tlb[TlbIndex(va)].dirty && pa == EntryAddress(tlb[TlbIndex(va)], va)
      ensures hit && Model().Fresh(TlbIndex(va)) ==>
                Mapped(mem, satp, priv, va, dirty) && pa == Target(WalkTables(mem, satp, va), va)
    {
      var e := tlb[TlbIndex(va)];
      pa, hit, dirty := 0, false, false;
      if !e.valid {
        return;
      }
      if e.pfn != Page(va) {
        return;
      }
      var maskBits := EntryMaskBits(e.paddr);
      var ppn := EntryBase(e.paddr);
      pa := Or(Shl(Shr(ppn, maskBits), maskBits), Low(va, maskBits));
      dirty := e.dirty;
      hit := true;
      if Backed(e, mem, satp, priv) {
        HitIsWalk(e, mem, satp, priv, va);
      }
    }

    /**
     Translate one access. In a coherent hart a successful translation, by the buffer or by a walk, is
     the address the walk forms, the leaf is marked accessed and after a store dirty, and the hart
     stays coherent; memory changes in these marks only.
     */
    method Translate(ea: nat, access: Access) returns (out: Outcome)
      requires Sized()
      modifies this`mem, tlb
      ensures (Model(), out) == old(Model()).Translate(ea, access)
      ensures OnlyMoreAD(old(mem), mem)
      ensures old(Model()).Coherent() ==> Model().Coherent() && TranslationSound(old(Model()), ea, access)
    {
      TranslateKeeps(Model(), ea, access);
      if Model().Fresh(TlbIndex(ea)) {
        TranslateIsWalk(Model(), ea, access);
      }
      out := TranslateInPlace(ea, access);
    }

    method TranslateInPlace(ea: nat, access: Access) returns (out: Outcome)
      requires Sized()
      modifies this`mem, tlb
      ensures (Model(), out) == old(Model()).Translate(ea, access)
    {
      if Unpaged() {
        return Ok(ea);
      }
      var pa, hit, dirty := LookupTlb(ea);
      if hit && (dirty || access != Store) {
        return Ok(pa);
      }
      if satp.mode != 8 {
        return Abort;
      }
      match WalkTables(mem, satp, ea) {
        case NotPresent(level) =>
          return PageFault(level);
        case Aborted =>
          return Abort;
        case Leaf(at, pte, maskBits) =>
          if !Permitted(pte, access, priv) {
            return PageFault(0);
          }
          var r := MarkLeaf(at, pte, access);
          InsertTlb(ea, r.PageBase(), maskBits, r.d);
          out := Ok(LeafAddress(r.PageBase(), maskBits, ea));
      }
    }

    /** Set the accessed and, for a store, the dirty bit of a leaf and of its word. */
    method MarkLeaf(at: nat, pte: Pte, access: Access) returns (r: Pte)
      requires Word(mem, at) == pte
      modifies this`mem
      ensures r == Marked(pte, access) && Word(mem, at) == r
      ensures mem == WriteLeaf(old(mem), at, pte, access) && OnlyMoreAD(old(mem), mem)
    {
      MarkedLeaf(mem, at, pte, access);
      r := pte;
      if !r.a {
        r := r.(a := true);
        mem := mem[at := r];
        WrittenTwice(old(mem), at, r, Marked(pte, access));
      }
      if !r.d && access == Store {
        r := r.(d := true);
        mem := mem[at := r];
      }
    }

    /** A store, by the values it leaves in the words it reaches. */
    method StoreBytes(at: nat, d: Stored)
      requires d.Fits()
      modifies this`mem
      ensures Model() == old(Model()).Write(at, d)
      ensures forall slot: nat | slot % 8 == 0 ::
                Word(mem, slot) == if Overlaps(at, d.width, slot) then Piece(at, d, slot) else Word(old(mem), slot)
    {
      forall slot: nat | slot % 8 == 0
        ensures Word(StoreWords(mem, at, d), slot)
             == if Overlaps(at, d.width, slot) then Piece(at, d, slot) else Word(mem, slot)
      {
        StoredWord(mem, at, d, slot);
      }
      if d.width > 0 {
        mem := mem[at - at % 8 := d.first];
      }
      if at % 8 + d.width > 8 {
        mem := mem[at - at % 8 + 8 := d.second];
      }
    }

    /** sfence.vma drops the buffer and not the saved page. */
    method Sfence()
      requires Sized()
      modifies tlb
      ensures Model() == old(Model()).Fence()
      ensures Model().Coherent() && forall i | 0 <= i < TLB_SZ :: !tlb[i].valid
      ensures old(Model()).Steady() ==> Model().Valid()
    {
      FenceCoherent(Model());
      ClearTlb();
    }

    /** A write to satp is taken only with Sv39 and address space 0; then both caches are dropped. */
    method WriteSatp(v: Satp)
      requires Sized()
      modifies this`satp, this`lastPhysPc, tlb
      ensures Model() == old(Model()).WriteSatp(v)
      ensures v.mode == 8 && v.asid == 0 ==>
                satp == v && lastPhysPc == 0 && forall i | 0 <= i < TLB_SZ :: !tlb[i].valid
    {
      if v.mode == 8 && v.asid == 0 {
        satp := v;
        ClearTlb();
        lastPhysPc := 0;
      }
    }

    method SetPriv(p: Priv)
      requires Sized()
      modifies this`priv, tlb
      ensures Model() == old(Model()).SetPriv(p)
      ensures p != old(priv) ==> forall i | 0 <= i < TLB_SZ :: !tlb[i].valid
    {
      if priv != p {
        ClearTlb();
      }
      priv := p;
    }

    /** Take a trap. */
    method HandleException(cause: Cause, tval: nat)
      requires Sized() && cause.Valid()
      modifies this, tlb
      ensures Model() == old(Model()).Trap(cause, tval)
      ensures View() == old(View()).TrapEntry(cause, tval) && lastPhysPc == 0
    {
      var delegate := false;
      lastPhysPc := 0;
      if priv == User || priv == Supervisor {
        if cause.Interrupt? {
          delegate := mideleg[cause.number];
        } else {
          delegate := medeleg[cause.number];
        }
      }
      if delegate {
        EnterSupervisor(cause, tval);
      } else {
        EnterMachine(cause, tval);
      }
    }

    method EnterSupervisor(cause: Cause, tval: nat)
      requires Sized() && cause.Valid() && View().Delegated(cause)
      modifies this`scause, this`sepc, this`stval, this`mstatus, this`priv, this`pc, tlb
      ensures Model() == old(Model()).ToLevel(old(View()).TrapEntry(cause, tval))
    {
      SaveForSupervisor(cause, tval);
      SetPriv(Supervisor);
      pc := stvec;
    }

    method SaveForSupervisor(cause: Cause, tval: nat)
      requires cause.Valid() && View().Delegated(cause)
      modifies this`scause, this`sepc, this`stval, this`mstatus
      ensures View() == old(View()).TrapEntry(cause, tval).(priv := priv, pc := pc)
    {
      scause, sepc, stval := cause, pc, tval;
      mstatus := mstatus[SPIE := mstatus[Rank(priv)]];
      mstatus := mstatus[SPP := priv == Supervisor];
      mstatus := mstatus[SIE := false];
    }

    method EnterMachine(cause: Cause, tval: nat)
      requires Sized() && cause.Valid() && !View().Delegated(cause)
      modifies this`mcause, this`mepc, this`mtval, this`mstatus, this`priv, this`pc, tlb
      ensures Model() == old(Model()).ToLevel(old(View()).TrapEntry(cause, tval))
    {
      SaveForMachine(cause, tval);
      SetPriv(Machine);
      pc := mtvec;
    }

    method SaveForMachine(cause: Cause, tval: nat)
      requires cause.Valid() && !View().Delegated(cause)
      modifies this`mcause, this`mepc, this`mtval, this`mstatus
      ensures View() == old(View()).TrapEntry(cause, tval).(priv := priv, pc := pc)
    {
      mcause, mepc, mtval := cause, pc, tval;
      mstatus := mstatus[MPIE := mstatus[Rank(priv)]];
      mstatus := WithPriv(mstatus, MPP, priv);
      mstatus := mstatus[MIE := false];
    }

    method ExecuteSret()
      requires Sized()
      modifies this, tlb
      ensures Model() == old(Model()).Sret() && View() == old(View()).Sret()
    {
      if priv == User {
        HandleException(ILLEGAL_INSTRUCTION, pc);
      } else {
        LegalSret();
      }
    }

    method LegalSret()
      requires Sized() && priv != User
      modifies this`mstatus, this`priv, this`pc, tlb
      ensures Model() == old(Model()).ToLevel(old(View()).Sret())
    {
      var spp := if mstatus[SPP] then Supervisor else User;
      mstatus := mstatus[Rank(spp) := mstatus[SPIE]];
      mstatus := mstatus[SPIE := true];
      mstatus := mstatus[SPP := false];
      SetPriv(spp);
      pc := sepc;
    }

    method ExecuteMret()
      requires Sized()
      modifies this, tlb
      ensures Model() == old(Model()).Mret() && View() == old(View()).Mret()
    {
      if priv != Machine {
        HandleException(ILLEGAL_INSTRUCTION, pc);
      } else {
        LegalMret();
      }
    }

    method LegalMret()
      requires Sized() && priv == Machine
      modifies this`mstatus, this`priv, this`pc, tlb
      ensures Model() == old(Model()).ToLevel(old(View()).Mret())
    {
      var mpp := PrivOf(mstatus[MPP], mstatus[MPP + 1]);
      mstatus := mstatus[Rank(mpp) := mstatus[MPIE]];
      mstatus := mstatus[MPIE := true];
      mstatus := WithPriv(mstatus, MPP, User);
      SetPriv(mpp);
      pc := mepc;
    }

    /** The fetch of one instruction: the saved page, or a translation. */
    method FetchPc() returns (out: Outcome)
      requires Sized()
      modifies this, tlb
      ensures (Model(), out) == old(Model()).FetchPc()
      ensures old(Model()).Valid() ==> SoundFetch(old(Model()), Model(), out)
    {
      if Model().Valid() {
        FetchSteady(Model());
      }
      if Page(lastPc) == Page(pc) && lastPhysPc != 0 {
        out := ReusePage();
      } else {
        out := TranslatePc();
      }
    }

    method ReusePage() returns (out: Outcome)
      requires Sized() && Model().Reuses()
      modifies this`lastPhysPc, this`lastPc
      ensures (Model(), out) == old(Model()).FetchPc()
    {
      var physPc := LeafAddress(lastPhysPc, 12, pc);
      lastPhysPc := physPc;
      lastPc := pc;
      out := Ok(physPc);
    }

    method TranslatePc() returns (out: Outcome)
      requires Sized() && !Model().Reuses()
      modifies this, tlb
      ensures (Model(), out) == old(Model()).FetchPc()
    {
      ghost var walked := !Model().Usable(pc, Fetch);
      out := TranslateInPlace(pc, Fetch);
      if out.Ok? {
        lastPhysPc := out.pa;
        lastPc := pc;
        checked := walked;
      } else if out.PageFault? {
        HandleException(FETCH_PAGE_FAULT, pc);
      }
    }

    /** A data access of the fetched instruction. */
    method AccessData(ea: nat, access: Access, fault: Cause) returns (out: Outcome)
      requires Sized() && fault.Valid()
      modifies this, tlb
      ensures (Model(), out) == old(Model()).AccessData(ea, access, fault)
    {
      out := TranslateInPlace(ea, access);
      if out.PageFault? {
        HandleException(fault, ea);
      }
    }

    method ExecuteLoad(ea: nat)
      requires Sized()
      modifies this, tlb
      ensures Model() == old(Model()).Execute(LoadFrom(ea))
    {
      var out := AccessData(ea, Load, LOAD_PAGE_FAULT);
      if out.Ok? {
        pc := pc + 4;
      }
    }

    method LoadIf(ea: nat, loadFirst: bool)
      requires Sized()
      modifies this`mem, tlb
      ensures Model() == old(Model()).Loaded(ea, loadFirst)
    {
      if loadFirst {
        var _ := TranslateInPlace(ea, Load);
      }
    }

    method ExecuteStore(ea: nat, data: Stored, loadFirst: bool)
      requires Sized() && data.Fits()
      modifies this, tlb
      ensures Model() == old(Model()).Execute(StoreTo(ea, data, loadFirst))
    {
      LoadIf(ea, loadFirst);
      var out := AccessData(ea, Store, STORE_PAGE_FAULT);
      if out.Ok? {
        StoreBytes(out.pa, data);
        pc := pc + 4;
      }
    }

    /** Writes to the status registers leave the register widths alone. */
    method WriteStatus(v: Register, machine: bool)
      modifies this`mstatus
      ensures mstatus == if machine then WriteMstatus(old(mstatus), v) else WriteSstatus(old(mstatus), v)
      ensures old(View()).Is64Bit() ==> View().Is64Bit()
    {
      mstatus := if machine then WriteMstatus(mstatus, v) else WriteSstatus(mstatus, v);
    }

    /** Writes to the other trap registers. */
    method WriteTrapRegisters(t: State)
      modifies this`mideleg, this`medeleg, this`mie, this`mip, this`mtvec, this`mepc, this`mcause, this`mtval,
               this`stvec, this`sepc, this`scause, this`stval
      ensures View() == WithTrapRegisters(old(View()), t)
    {
      WriteMachineTraps(t);
      WriteSupervisorTraps(t);
    }

    method WriteMachineTraps(t: State)
      modifies this`mideleg, this`medeleg, this`mie, this`mip, this`mtvec, this`mepc, this`mcause, this`mtval
      ensures View() == WithMachineTraps(old(View()), t)
    {
      WriteDelegation(t);
      mtvec, mepc, mcause, mtval := t.mtvec, t.mepc, t.mcause, t.mtval;
    }

    method WriteDelegation(t: State)
      modifies this`mideleg, this`medeleg, this`mie, this`mip
      ensures View() == old(View()).(mideleg := t.mideleg, medeleg := t.medeleg, mie := t.mie, mip := t.mip)
    {
      mideleg, medeleg, mie, mip := t.mideleg, t.medeleg, t.mie, t.mip;
    }

    method WriteSupervisorTraps(t: State)
      modifies this`stvec, this`sepc, this`scause, this`stval
      ensures View() == WithSupervisorTraps(old(View()), t)
    {
      stvec, sepc, scause, stval := t.stvec, t.sepc, t.scause, t.stval;
    }

    /** The fetched instruction. */
    method Execute(i: Instruction)
      requires Sized() && Executable(i)
      modifies this, tlb
      ensures Model() == old(Model()).Execute(i)
    {
      match i {
        case Go(next) => pc := next;
        case LoadFrom(ea) => ExecuteLoad(ea);
        case StoreTo(ea, data, loadFirst) => ExecuteStore(ea, data, loadFirst);
        case SretInsn => ExecuteSret();
        case MretInsn => ExecuteMret();
        case Raise(cause, tval) => HandleException(cause, tval);
        case CsrSstatus(v) => ExecuteStatus(v, false);
        case CsrMstatus(v) => ExecuteStatus(v, true);
        case CsrOther(t) => ExecuteCsr(t);
        case _ => ExecuteDrop(i);
      }
    }

    /** Instructions that drop cached translations. */
    method ExecuteDrop(i: Instruction)
      requires Sized() && (i.SfenceVma? || i.CsrSatp?)
      modifies this`satp, this`lastPhysPc, this`pc, tlb
      ensures Model() == old(Model()).Execute(i)
    {
      match i {
        case SfenceVma => Sfence();
        case CsrSatp(v) => WriteSatp(v);
      }
      pc := pc + 4;
    }

    method ExecuteStatus(v: Register, machine: bool)
      requires Sized()
      modifies this`mstatus, this`pc
      ensures Model() == old(Model()).Execute(if machine then CsrMstatus(v) else CsrSstatus(v))
    {
      WriteStatus(v, machine);
      pc := pc + 4;
    }

    method ExecuteCsr(t: State)
      requires Sized()
      modifies this`mideleg, this`medeleg, this`mie, this`mip, this`mtvec, this`mepc, this`mcause, this`mtval,
               this`stvec, this`sepc, this`scause, this`stval, this`pc
      ensures Model() == old(Model()).Execute(CsrOther(t))
    {
      WriteTrapRegisters(t);
      pc := pc + 4;
    }

    /** One iteration of the interpreter. */
    method Step(input: Input)
      requires Sized() && Executable(input.instruction)
      modifies this, tlb
      ensures Model() == old(Model()).Next(input)
    {
      mip := input.mip;
      var irq := TakeInterrupt(View());
      OneChoice(View(), irq, Highest(View(), 31));
      if irq > 0 {
        HandleException(Interrupt(irq), NO_TVAL);
      } else {
        var out := FetchPc();
        if out.Ok? {
          Execute(input.instruction);
        }
      }
    }

    /** The interpreter loop: the object goes through a run of the model. */
    method Run(inputs: seq<Input>) returns (ghost cs: seq<Core>)
      requires Sized() && forall k | 0 <= k < |inputs| :: Executable(inputs[k].instruction)
      modifies this, tlb
      ensures Runs.IsRun(cs, inputs) && cs[0] == old(Model()) && cs[|inputs|] == Model()
    {
      cs := [Model()];
      for n := 0 to |inputs|
        invariant Runs.IsRun(cs, inputs[..n]) && cs[0] == old(Model()) && cs[n] == Model()
      {
        Step(inputs[n]);
        RunExtends(cs, inputs[..n], Model(), inputs[n]);
        cs := cs + [Model()];
        assert inputs[..n + 1] == inputs[..n] + [inputs[n]];
      }
      assert inputs[..|inputs|] == inputs;
    }
  }

  lemma WrittenTwice(mem: Memory, at: nat, p: Pte, q: Pte)
    ensures mem[at := p][at := q] == mem[at := q]
  {
  }

  lemma OneChoice(s: State, irq: nat, irq': nat)
    requires IsChoice(s, irq) && IsChoice(s, irq')
    ensures irq == irq'
  {
  }
}

/**
 Traps and interrupts on the raw bits of the registers: what a trap saves and where it continues, what the
 returns do to mstatus, which interrupts are taken, and that a handler is not interrupted before it allows it.
 */
module TrapLaws {
  import opened Bits
  import opened Cores
  import opened Privilege
  import opened Runs
  import opened Stores
  import opened Sv39
  import opened Tlb
  import opened Traps

  /**
   Right after a trap, whatever becomes pending and enabled: at machine level no interrupt is taken, and at
   supervisor level none that is delegated to it, so none that would overwrite what the trap saved.
   */
  lemma {:induction false} QuietAfterTrap(s: State, cause: Cause, tval: nat, mip: Register, mie: Register, irq: nat)
    requires cause.Valid()
    requires IsChoice(s.TrapEntry(cause, tval).(mip := mip, mie := mie), irq) && irq > 0
    ensures var h := s.TrapEntry(cause, tval);
      h.priv == Supervisor && !h.mideleg[irq]
      && h.(mip := mip, mie := mie).TrapEntry(Interrupt(irq), NO_TVAL).priv == Machine
  {
    ChoiceIsHighest(s.TrapEntry(cause, tval).(mip := mip, mie := mie), irq);
  }

  /** The supervisor handles a cause below machine level if the delegation register of its kind says so. */
  predicate ToSupervisor(s: State, cause: Cause)
    requires cause.Valid()
  {
    && (s.priv == User || s.priv == Supervisor)
    && match cause
       case Interrupt(n) => s.mideleg[n]
       case Exception(n) => s.medeleg[n]
  }

  /** Registers that trap handling at machine level uses. */
  predicate SameMachineTraps(s: State, t: State) {
    t.mtvec == s.mtvec && t.mepc == s.mepc && t.mcause == s.mcause && t.mtval == s.mtval
  }

  predicate SameSupervisorTraps(s: State, t: State) {
    t.stvec == s.stvec && t.sepc == s.sepc && t.scause == s.scause && t.stval == s.stval
  }

  predicate SameMasks(s: State, t: State) {
    t.mideleg == s.mideleg && t.medeleg == s.medeleg && t.mie == s.mie && t.mip == s.mip
  }

  /** The enable bit of the level: bit 0, 1, 2 or 3. */
  predicate EnableBit(s: State) {
    match s.priv
    case User => s.mstatus[0]
    case Supervisor => s.mstatus[1]
    case Hypervisor => s.mstatus[2]
    case Machine => s.mstatus[3]
  }

  /** What a trap writes, bit by bit. */
  lemma {:induction false} TrapSaves(s: State, cause: Cause, tval: nat)
    requires cause.Valid()
    ensures var t := s.TrapEntry(cause, tval);
      SameMasks(s, t) &&
      if ToSupervisor(s, cause) then
        && t.priv == Supervisor && t.pc == s.stvec && t.stvec == s.stvec
        && t.sepc == s.pc && t.scause == cause && t.stval == tval && SameMachineTraps(s, t)
        && t.mstatus[8] == (s.priv == Supervisor) && t.mstatus[5] == EnableBit(s) && !t.mstatus[1]
        && forall i | 0 <= i < 64 && i !in {1, 5, 8} :: t.mstatus[i] == s.mstatus[i]
      else
        && t.priv == Machine && t.pc == s.mtvec && t.mtvec == s.mtvec
        && t.mepc == s.pc && t.mcause == cause && t.mtval == tval && SameSupervisorTraps(s, t)
        && t.mstatus[11] == (s.priv == Supervisor || s.priv == Machine)
        && t.mstatus[12] == (s.priv == Hypervisor || s.priv == Machine)
        && t.mstatus[7] == EnableBit(s) && !t.mstatus[3]
        && forall i | 0 <= i < 64 && i !in {3, 7, 11, 12} :: t.mstatus[i] == s.mstatus[i]
  {
  }

  /** What sret writes: the saved enable bit goes back to bit 0 or 1, and the saved level becomes user. */
  lemma {:induction false} SretWrites(s: State)
    requires s.priv != User
    ensures var t := s.Sret();
      && SameMasks(s, t) && SameMachineTraps(s, t) && SameSupervisorTraps(s, t)
      && t.pc == s.sepc && t.priv == (if s.mstatus[8] then Supervisor else User)
      && t.mstatus[if s.mstatus[8] then 1 else 0] == s.mstatus[5] && t.mstatus[5] && !t.mstatus[8]
      && t.mstatus[if s.mstatus[8] then 0 else 1] == s.mstatus[if s.mstatus[8] then 0 else 1]
      && forall i | 2 <= i < 64 && i !in {5, 8} :: t.mstatus[i] == s.mstatus[i]
  {
  }

  /** The number held in bits 11 and 12. */
  function SavedLevel(s: State): nat {
    FromBool(s.mstatus[11]) + 2 * FromBool(s.mstatus[12])
  }

  /** What mret writes: the saved enable bit goes back to the bit numbered by the saved level. */
  lemma {:induction false} MretWrites(s: State)
    requires s.priv == Machine
    ensures var t, n := s.Mret(), SavedLevel(s);
      && SameMasks(s, t) && SameMachineTraps(s, t) && SameSupervisorTraps(s, t)
      && t.pc == s.mepc
      && t.priv == (if n == 0 then User else if n == 1 then Supervisor else if n == 2 then Hypervisor else Machine)
      && t.mstatus[n] == s.mstatus[7] && t.mstatus[7] && !t.mstatus[11] && !t.mstatus[12]
      && forall i | 0 <= i < 64 && i !in {n, 7, 11, 12} :: t.mstatus[i] == s.mstatus[i]
  {
  }

  /** Returns that the level does not allow are traps with cause 2 and the address of the instruction. */
  lemma ReturnsRefused(s: State)
    ensures s.priv == User ==> s.Sret() == s.TrapEntry(Exception(2), s.pc)
    ensures s.priv != Machine ==> s.Mret() == s.TrapEntry(Exception(2), s.pc)
  {
  }

  // The masks of the status writes.

  lemma HexDigit(high: nat, d: nat, i: nat)
    requires d < 16
    ensures Bit(16 * high + d, i) == if i < 4 then Bit(d, i) else Bit(high, i - 4)
  {
    assert Pow2(4) == 16;
    ShlIsProduct(high, 4);
    OrIsSum(high, d, 4);
    OrBit(Shl(high, 4), d, i);
    ShlBit(high, 4, i);
    if i >= 4 {
      HighBit(d, 4, i);
    }
  }

  lemma DigitBits(i: nat)
    requires i < 4
    ensures Bit(0x1, i) == (i == 0) && Bit(0x3, i) == (i < 2) && Bit(0x7, i) == (i < 3)
    ensures Bit(0x9, i) == (i == 0 || i == 3) && Bit(0xb, i) == (i != 2)
    ensures Bit(0xd, i) == (i != 1) && Bit(0xe, i) == (i != 0)
  {
    assert i >= 2 ==> Bit(0x1, i) == Bit(0x1 / 2, i - 1) == Bit(0x1 / 2 / 2, i - 2);
    assert i >= 2 ==> Bit(0x3, i) == Bit(0x3 / 2, i - 1) == Bit(0x3 / 2 / 2, i - 2);
    assert i >= 2 ==> Bit(0x7, i) == Bit(0x7 / 2, i - 1) == Bit(0x7 / 2 / 2, i - 2);
    assert i >= 2 ==> Bit(0x9, i) == Bit(0x9 / 2, i - 1) == Bit(0x9 / 2 / 2, i - 2);
    assert i >= 2 ==> Bit(0xb, i) == Bit(0xb / 2, i - 1) == Bit(0xb / 2 / 2, i - 2);
    assert i >= 2 ==> Bit(0xd, i) == Bit(0xd / 2, i - 1) == Bit(0xd / 2 / 2, i - 2);
    assert i >= 2 ==> Bit(0xe, i) == Bit(0xe / 2, i - 1) == Bit(0xe / 2 / 2, i - 2);
  }

  /** Five hexadecimal digits and nothing above them. */
  lemma FiveDigits(e: nat, d: nat, c: nat, b: nat, a: nat, i: nat)
    requires a < 16 && b < 16 && c < 16 && d < 16 && e < 16
    ensures Bit(16 * (16 * (16 * (16 * e + d) + c) + b) + a, i)
         == if i < 4 then Bit(a, i) else if i < 8 then Bit(b, i - 4) else if i < 12 then Bit(c, i - 8)
            else if i < 16 then Bit(d, i - 12) else i < 20 && Bit(e, i - 16)
  {
    HexDigit(16 * (16 * (16 * e + d) + c) + b, a, i);
    if i >= 4 {
      HexDigit(16 * (16 * e + d) + c, b, i - 4);
    }
    if i >= 8 {
      HexDigit(16 * e + d, c, i - 8);
    }
    if i >= 12 {
      HexDigit(e, d, i - 12);
    }
    if i >= 20 {
      assert Pow2(4) == 16;
      HighBit(e, 4, i - 16);
    }
  }

  /** A write to sstatus changes the bits of 0xde133 and no others. */
  lemma {:induction false} SstatusMask(m: Register, v: Register, i: nat)
    requires i < 64
    ensures WriteSstatus(m, v)[i] == if Bit(0xde133, i) then v[i] else m[i]
  {
    FiveDigits(0xd, 0xe, 0x1, 0x3, 0x3, i);
    DigitBits(i % 4);
  }

  /** A write to mstatus changes the bits of 0xe79bb and no others. */
  lemma {:induction false} MstatusMask(m: Register, v: Register, i: nat)
    requires i < 64
    ensures WriteMstatus(m, v)[i] == if Bit(0xe79bb, i) then v[i] else m[i]
  {
    FiveDigits(0xe, 0x7, 0x9, 0xb, 0xb, i);
    DigitBits(i % 4);
  }

  // The interpreter's iteration.

  /** What the other instructions do to the registers; the bits of the status writes are those of the masks. */
  lemma {:induction false} ExecuteRegisters(c: Core, i: Instruction)
    requires c.Sized() && Executable(i) && !i.LoadFrom? && !i.StoreTo?
    ensures var r, next := c.regs, c.Execute(i).regs;
      match i
      case Go(pc) => next == r.(pc := pc)
      case SfenceVma => next == r.(pc := r.pc + 4)
      case CsrSatp(_) => next == r.(pc := r.pc + 4)
      case CsrSstatus(v) =>
        && next == r.(mstatus := next.mstatus, pc := r.pc + 4)
        && forall k | 0 <= k < 64 :: next.mstatus[k] == if Bit(0xde133, k) then v[k] else r.mstatus[k]
      case CsrMstatus(v) =>
        && next == r.(mstatus := next.mstatus, pc := r.pc + 4)
        && forall k | 0 <= k < 64 :: next.mstatus[k] == if Bit(0xe79bb, k) then v[k] else r.mstatus[k]
      case CsrOther(t) => next == t.(priv := r.priv, mstatus := r.mstatus, pc := r.pc + 4)
      case SretInsn => next == r.Sret()
      case MretInsn => next == r.Mret()
      case Raise(cause, tval) => next == r.TrapEntry(cause, tval)
  {
    match i
    case CsrSstatus(v) =>
      forall k: nat | k < 64
        ensures WriteSstatus(c.regs.mstatus, v)[k] == if Bit(0xde133, k) then v[k] else c.regs.mstatus[k]
      {
        SstatusMask(c.regs.mstatus, v, k);
      }
    case CsrMstatus(v) =>
      forall k: nat | k < 64
        ensures WriteMstatus(c.regs.mstatus, v)[k] == if Bit(0xe79bb, k) then v[k] else c.regs.mstatus[k]
      {
        MstatusMask(c.regs.mstatus, v, k);
      }
    case _ =>
  }

  /** satp is written with mode 8 and address space 0 only; no other instruction changes it. */
  lemma {:induction false} SatpWrites(c: Core, i: Instruction)
    requires c.Sized() && Executable(i)
    ensures c.Execute(i).satp == if i.CsrSatp? && i.v.mode == 8 && i.v.asid == 0 then i.v else c.satp
  {
    match i
    case LoadFrom(ea) => TranslateKeeps(c, ea, Load);
    case StoreTo(ea, data, loadFirst) =>
      TranslateKeeps(c, ea, Load);
      TranslateKeeps(c.Loaded(ea, loadFirst), ea, Store);
    case _ =>
  }

  /** An interrupt that is taken interrupts the instruction at pc, with all ones as its value. */
  lemma {:induction false} InterruptTaken(c: Core, input: Input, irq: nat)
    requires c.Sized() && Executable(input.instruction)
    requires IsChoice(c.regs.(mip := input.mip), irq) && irq > 0
    ensures c.Next(input).regs == c.regs.(mip := input.mip).TrapEntry(Interrupt(irq), 0xffff_ffff_ffff_ffff)
    ensures c.Next(input).mem == c.mem && c.Next(input).lastPhysPc == 0
  {
    assert IsChoice(c.regs.(mip := input.mip), Highest(c.regs.(mip := input.mip), 31));
  }

  /** Loads and stores either complete and go on behind the instruction, or fault with their address. */
  lemma {:induction false} DataAccess(c: Core, ea: nat, data: Stored, loadFirst: bool)
    requires c.Sized() && data.Fits()
    ensures var out, r := c.Translate(ea, Load).1, c.Execute(LoadFrom(ea)).regs;
      && (out.Ok? ==> r == c.regs.(pc := c.regs.pc + 4))
      && (out.PageFault? ==> r == c.regs.TrapEntry(Exception(13), ea))
    ensures var out, r := c.Loaded(ea, loadFirst).Translate(ea, Store).1, c.Execute(StoreTo(ea, data, loadFirst)).regs;
      && (out.Ok? ==> r == c.regs.(pc := c.regs.pc + 4))
      && (out.PageFault? ==> r == c.regs.TrapEntry(Exception(15), ea))
  {
    TranslateKeeps(c, ea, Load);
    TranslateKeeps(c.Loaded(ea, loadFirst), ea, Store);
  }

  /** A fetch that faults does so with its pc. */
  lemma {:induction false} FetchFault(c: Core)
    requires c.Sized() && !c.Reuses() && c.Translate(c.regs.pc, Fetch).1.PageFault?
    ensures c.FetchPc().0.regs == c.regs.TrapEntry(Exception(12), c.regs.pc)
  {
    TranslateKeeps(c, c.regs.pc, Fetch);
  }

  /** The supervisor's saved registers survive interrupts that come while its enable bit is clear. */
  lemma {:induction false} InterruptSpares(c: Core, input: Input)
    requires c.Sized() && Executable(input.instruction) && !Fetches(c, input)
    requires c.regs.priv == Supervisor && !c.regs.mstatus[1]
    ensures var n := c.Next(input).regs;
      n.priv == Machine && SameSupervisorTraps(c.regs, n) && n.mstatus[5] == c.regs.mstatus[5]
      && n.mstatus[8] == c.regs.mstatus[8]
  {
    var p := c.regs.(mip := input.mip);
    var irq := Highest(p, 31);
    ChoiceIsHighest(p, irq);
    InterruptTaken(c, input, irq);
    TrapSaves(p, Interrupt(irq), NO_TVAL);
  }

  /** A machine-level handler that has not been left and has not written mstatus. */
  predicate InHandler(c: Core) {
    c.regs.priv == Machine && !c.regs.mstatus[3]
  }

  predicate StaysInHandler(i: Instruction) {
    !i.CsrMstatus? && !i.SretInsn? && !i.MretInsn?
  }

  lemma {:induction false} HandlerStep(c: Core, input: Input)
    requires c.Sized() && Executable(input.instruction) && InHandler(c) && StaysInHandler(input.instruction)
    ensures Fetches(c, input) && InHandler(c.Next(input))
  {
    var p := c.Pending(input.mip);
    ChoiceIsHighest(p.regs, Highest(p.regs, 31));
    FetchRegisters(p);
    var (f, out) := p.FetchPc();
    if out.Ok? {
      HandlerExecutes(f, input.instruction);
    }
  }

  lemma {:induction false} HandlerExecutes(c: Core, i: Instruction)
    requires c.Sized() && Executable(i) && InHandler(c) && StaysInHandler(i)
    ensures InHandler(c.Execute(i))
  {
    match i
    case LoadFrom(ea) => TranslateKeeps(c, ea, Load);
    case StoreTo(ea, data, loadFirst) =>
      TranslateKeeps(c, ea, Load);
      TranslateKeeps(c.Loaded(ea, loadFirst), ea, Store);
    case _ =>
  }

  /**
   A machine-level handler is not interrupted: after a trap to machine level, whatever becomes pending, no
   interrupt is taken until an instruction writes mstatus or returns.
   */
  lemma {:induction false} HandlerUndisturbed(cs: seq<Core>, inputs: seq<Input>, j: nat, k: nat)
    requires Runs.IsRun(cs, inputs) && j <= k <= |inputs| && InHandler(cs[j])
    requires forall n | j <= n <= k && n < |inputs| :: StaysInHandler(inputs[n].instruction)
    ensures InHandler(cs[k]) && (k < |inputs| ==> Fetches(cs[k], inputs[k]))
  {
    if j < k {
      HandlerUndisturbed(cs, inputs, j, k - 1);
      assert Follows(cs, inputs, k - 1);
      HandlerStep(cs[k - 1], inputs[k - 1]);
    }
    if k < |inputs| {
      assert Follows(cs, inputs, k);
      HandlerStep(cs[k], inputs[k]);
    }
  }
}

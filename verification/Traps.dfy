/**
 Trap entry, the two return instructions, interrupt selection and the writes to mstatus, as
 functions on the part of the machine state they use. Registers whose bits matter are held as bits.
 */
module Traps {
  import opened Privilege

  /** A 64-bit register, bit 0 first. */
  type Register = b: seq<bool> | |b| == 64 witness seq(64, _ => false)

  datatype Cause = Interrupt(number: nat) | Exception(number: nat)
  {
    predicate Valid() {
      number < 32
    }
  }

  const ILLEGAL_INSTRUCTION := Exception(2)

  // Bit numbers in mstatus. The enable bit of a privilege level is at its own number.
  const SIE := 1
  const MIE := 3
  const SPIE := 5
  const MPIE := 7
  const SPP := 8
  const MPP := 11
  const UXL := 32
  const SXL := 34

  function PrivOf(low: bool, high: bool): Priv {
    if high then (if low then Machine else Hypervisor) else (if low then Supervisor else User)
  }

  /** A two-bit field with the number of p. */
  function WithPriv(m: Register, at: nat, p: Priv): Register
    requires at < 63
  {
    m[at := p == Supervisor || p == Machine][at + 1 := p == Hypervisor || p == Machine]
  }

  datatype State = State(
    priv: Priv,
    pc: nat,
    mstatus: Register,
    mideleg: Register,
    medeleg: Register,
    mie: Register,
    mip: Register,
    mtvec: nat,
    mepc: nat,
    mcause: Cause,
    mtval: nat,
    stvec: nat,
    sepc: nat,
    scause: Cause,
    stval: nat)
  {
    /** Both lower levels run with 64-bit registers. */
    predicate Is64Bit() {
      !mstatus[UXL] && mstatus[UXL + 1] && !mstatus[SXL] && mstatus[SXL + 1]
    }

    predicate Delegated(cause: Cause)
      requires cause.Valid()
    {
      (priv == User || priv == Supervisor)
      && if cause.Interrupt? then mideleg[cause.number] else medeleg[cause.number]
    }

    /** handle_exception */
    function TrapEntry(cause: Cause, tval: nat): State
      requires cause.Valid()
    {
      if Delegated(cause) then
        this.(scause := cause, sepc := pc, stval := tval,
              mstatus := mstatus[SPIE := mstatus[Rank(priv)]][SPP := priv == Supervisor][SIE := false],
              priv := Supervisor, pc := stvec)
      else
        this.(mcause := cause, mepc := pc, mtval := tval,
              mstatus := WithPriv(mstatus[MPIE := mstatus[Rank(priv)]], MPP, priv)[MIE := false],
              priv := Machine, pc := mtvec)
    }

    function Sret(): State {
      if priv == User then TrapEntry(ILLEGAL_INSTRUCTION, pc)
      else
        var spp := if mstatus[SPP] then Supervisor else User;
        this.(mstatus := mstatus[Rank(spp) := mstatus[SPIE]][SPIE := true][SPP := false],
              priv := spp, pc := sepc)
    }

    function Mret(): State {
      if priv != Machine then TrapEntry(ILLEGAL_INSTRUCTION, pc)
      else
        var mpp := PrivOf(mstatus[MPP], mstatus[MPP + 1]);
        this.(mstatus := WithPriv(mstatus[Rank(mpp) := mstatus[MPIE]][MPIE := true], MPP, User),
              priv := mpp, pc := mepc)
    }

    /** The interrupts that may be taken at the current level. */
    predicate Enabled(n: nat)
      requires n < 64
    {
      match priv
      case Machine => mstatus[MIE] && !mideleg[n]
      case Supervisor => !mideleg[n] || mstatus[SIE]
      case _ => true
    }

    predicate Takes(n: nat)
      requires n < 64
    {
      mip[n] && mie[n] && Enabled(n)
    }
  }

  /** The bits a write to sstatus changes. */
  predicate SstatusWritable(i: nat) {
    i in {0, 1, 4, 5, 8, 13, 14, 15, 16, 18, 19}
  }

  /** The bits a write to mstatus changes. */
  predicate MstatusWritable(i: nat) {
    i in {0, 1, 3, 4, 5, 7, 8, 11, 12, 13, 14, 17, 18, 19}
  }

  function WriteSstatus(m: Register, v: Register): Register {
    seq(64, i requires 0 <= i < 64 => if SstatusWritable(i) then v[i] else m[i])
  }

  function WriteMstatus(m: Register, v: Register): Register {
    seq(64, i requires 0 <= i < 64 => if MstatusWritable(i) then v[i] else m[i])
  }

  /** The fields that trap entry at a level saves, and that the matching return uses. */
  predicate SavedKept(level: Priv, s: State, t: State) {
    match level
    case Supervisor => t.sepc == s.sepc && t.mstatus[SPIE] == s.mstatus[SPIE] && t.mstatus[SPP] == s.mstatus[SPP]
    case Machine =>
      && t.mepc == s.mepc && t.mstatus[MPIE] == s.mstatus[MPIE]
      && t.mstatus[MPP] == s.mstatus[MPP] && t.mstatus[MPP + 1] == s.mstatus[MPP + 1]
    case _ => true
  }

  /** The return instruction of a level. */
  function Return(level: Priv, s: State): State {
    if level == Supervisor then s.Sret() else s.Mret()
  }

  predicate SameEnabled(s: State, t: State) {
    forall n | 0 <= n < 64 :: s.Enabled(n) == t.Enabled(n)
  }

  /**
   Trap and return are inverse: if the handler leaves the saved fields of its level and the
   delegation of interrupts alone, the return restores privilege and pc, and the same interrupts
   can be taken as before the trap.
   */
  lemma {:induction false} TrapThenReturn(s: State, cause: Cause, tval: nat, h: State)
    requires cause.Valid()
    requires h.priv == s.TrapEntry(cause, tval).priv
    requires SavedKept(h.priv, s.TrapEntry(cause, tval), h) && h.mideleg == s.mideleg
    ensures var r := Return(h.priv, h);
      r.priv == s.priv && r.pc == s.pc && SameEnabled(r, s)
  {
  }

  /** What code running at some level does: work, and traps that are handled and returned from. */
  datatype Activity =
    | Done
    | Work(next: State, rest: Activity)
    | Trapped(cause: Cause, tval: nat, handler: Activity, rest: Activity)

  function Play(s: State, a: Activity): State
    decreases a, 0
  {
    match a
    case Done => s
    case Work(next, rest) => Play(next, rest)
    case Trapped(cause, tval, handler, rest) =>
      if cause.Valid() then Play(AfterTrap(s, cause, tval, handler), rest) else s
  }

  function AfterTrap(s: State, cause: Cause, tval: nat, handler: Activity): State
    requires cause.Valid()
    decreases handler, 1
  {
    var entered := s.TrapEntry(cause, tval);
    Return(entered.priv, Play(entered, handler))
  }

  /**
   The activity respects the levels in `busy`, whose handlers have not returned: work stays at its
   level and leaves their saved fields alone, and no trap enters one of them again.
   */
  predicate Balanced(s: State, busy: set<Priv>, a: Activity)
    decreases a
  {
    match a
    case Done => true
    case Work(next, rest) =>
      && next.priv == s.priv && next.mideleg == s.mideleg
      && (forall level | level in busy :: SavedKept(level, s, next))
      && Balanced(next, busy, rest)
    case Trapped(cause, tval, handler, rest) =>
      && cause.Valid()
      && var entered := s.TrapEntry(cause, tval);
      && entered.priv !in busy
      && Balanced(entered, busy + {entered.priv}, handler)
      && Balanced(AfterTrap(s, cause, tval, handler), busy, rest)
  }

  lemma EntryKeepsOthers(s: State, cause: Cause, tval: nat, level: Priv)
    requires cause.Valid() && level != s.TrapEntry(cause, tval).priv
    ensures SavedKept(level, s, s.TrapEntry(cause, tval))
  {
  }

  lemma ReturnKeepsOthers(s: State, level: Priv, other: Priv)
    requires s.priv == level && (level == Supervisor || level == Machine) && other != level
    ensures SavedKept(other, s, Return(level, s)) && Return(level, s).mideleg == s.mideleg
  {
  }

  /** A balanced activity ends at the level it started at, with the saved fields of all busy levels. */
  lemma {:induction false} BalancedKeeps(s: State, busy: set<Priv>, a: Activity)
    requires Balanced(s, busy, a)
    ensures Play(s, a).priv == s.priv && Play(s, a).mideleg == s.mideleg
    ensures forall level | level in busy :: SavedKept(level, s, Play(s, a))
    decreases a, 0
  {
    match a
    case Done =>
    case Work(next, rest) =>
      BalancedKeeps(next, busy, rest);
    case Trapped(cause, tval, handler, rest) =>
      var entered := s.TrapEntry(cause, tval);
      var after := AfterTrap(s, cause, tval, handler);
      NestedTrapThenReturn(s, busy, cause, tval, handler);
      BalancedKeeps(after, busy, rest);
  }

  /**
   Nested traps: whatever a handler does, including handling further traps at levels that are not
   busy, its return restores privilege, pc and the set of interrupts that can be taken.
   */
  lemma {:induction false} NestedTrapThenReturn(s: State, busy: set<Priv>, cause: Cause, tval: nat, handler: Activity)
    requires cause.Valid()
    requires s.TrapEntry(cause, tval).priv !in busy
    requires Balanced(s.TrapEntry(cause, tval), busy + {s.TrapEntry(cause, tval).priv}, handler)
    ensures var after := AfterTrap(s, cause, tval, handler);
      && after.priv == s.priv && after.pc == s.pc && after.mideleg == s.mideleg && SameEnabled(after, s)
      && (forall level | level in busy :: SavedKept(level, s, after))
    decreases handler, 1
  {
    var entered := s.TrapEntry(cause, tval);
    var ended := Play(entered, handler);
    BalancedKeeps(entered, busy + {entered.priv}, handler);
    TrapThenReturn(s, cause, tval, ended);
    forall level | level in busy
      ensures SavedKept(level, s, AfterTrap(s, cause, tval, handler))
    {
      EntryKeepsOthers(s, cause, tval, level);
      ReturnKeepsOthers(ended, entered.priv, level);
    }
  }

  /** Everything that can change privilege or mstatus. */
  datatype Step =
    | Trap(cause: Cause, tval: nat)
    | ExecSret
    | ExecMret
    | SetSstatus(v: Register)
    | SetMstatus(v: Register)
    | Other(next: State)

  predicate Possible(s: State, step: Step) {
    match step
    case Trap(cause, _) => cause.Valid()
    case Other(next) => next.priv == s.priv && next.mstatus == s.mstatus
    case _ => true
  }

  function Do(s: State, step: Step): State
    requires Possible(s, step)
  {
    match step
    case Trap(cause, tval) => s.TrapEntry(cause, tval)
    case ExecSret => s.Sret()
    case ExecMret => s.Mret()
    case SetSstatus(v) => s.(mstatus := WriteSstatus(s.mstatus, v))
    case SetMstatus(v) => s.(mstatus := WriteMstatus(s.mstatus, v))
    case Other(next) => next
  }

  /** A return instruction that is not allowed at the current level traps instead. */
  predicate IsTrap(s: State, step: Step) {
    step.Trap? || (step.ExecSret? && s.priv == User) || (step.ExecMret? && s.priv != Machine)
  }

  /**
   Privilege safety of a step: privilege rises only by a trap, which continues at a trap vector and
   never lowers it; a return never raises it; nothing else changes it.
   */
  lemma PrivilegeSafety(s: State, step: Step)
    requires Possible(s, step)
    ensures Rank(Do(s, step).priv) > Rank(s.priv) ==> IsTrap(s, step)
    ensures IsTrap(s, step) ==>
              && Rank(Do(s, step).priv) >= Rank(s.priv)
              && Do(s, step).pc == (if Do(s, step).priv == Machine then s.mtvec else s.stvec)
              && (Do(s, step).priv == Machine || Do(s, step).priv == Supervisor)
    ensures (step.ExecSret? || step.ExecMret?) && !IsTrap(s, step) ==> Rank(Do(s, step).priv) <= Rank(s.priv)
    ensures !IsTrap(s, step) && !step.ExecSret? && !step.ExecMret? ==> Do(s, step).priv == s.priv
  {
  }

  lemma StepIs64Bit(s: State, step: Step)
    requires Possible(s, step) && s.Is64Bit()
    ensures Do(s, step).Is64Bit()
  {
  }

  /** ss are the states of a run with the given steps. */
  ghost predicate IsRun(ss: seq<State>, steps: seq<Step>) {
    && |ss| == |steps| + 1
    && (forall k | 0 <= k < |steps| :: Possible(ss[k], steps[k]) && ss[k + 1] == Do(ss[k], steps[k]))
  }

  /** The register widths are the same in every state of every run, so no return ever finds another. */
  lemma {:induction false} RunIs64Bit(ss: seq<State>, steps: seq<Step>, k: nat)
    requires IsRun(ss, steps) && ss[0].Is64Bit() && k <= |steps|
    ensures ss[k].Is64Bit()
  {
    if k > 0 {
      RunIs64Bit(ss, steps, k - 1);
      StepIs64Bit(ss[k - 1], steps[k - 1]);
      assert ss[k - 1 + 1] == Do(ss[k - 1], steps[k - 1]);
    }
  }

  /** Between two states of a run with no trap in between, privilege does not rise. */
  lemma {:induction false} NoRiseWithoutTrap(ss: seq<State>, steps: seq<Step>, j: nat, k: nat)
    requires IsRun(ss, steps) && j <= k <= |steps|
    requires forall n | j <= n < k :: !IsTrap(ss[n], steps[n])
    ensures Rank(ss[k].priv) <= Rank(ss[j].priv)
  {
    if j < k {
      NoRiseWithoutTrap(ss, steps, j, k - 1);
      PrivilegeSafety(ss[k - 1], steps[k - 1]);
      assert ss[k - 1 + 1] == Do(ss[k - 1], steps[k - 1]);
    }
  }

  /** irq is the interrupt to take: the highest-numbered one of 1 to 31 that can be, or 0 for none. */
  predicate IsChoice(s: State, irq: nat) {
    && irq < 32
    && (irq > 0 ==> s.Takes(irq))
    && (forall n | irq < n < 32 :: !s.Takes(n))
  }

  /** At its level and with its enable bits the hart holds interrupt n back. */
  predicate HeldBack(s: State, n: nat)
    requires n < 64
  {
    || (s.priv == Machine && (!s.mstatus[3] || s.mideleg[n]))
    || (s.priv == Supervisor && s.mideleg[n] && !s.mstatus[1])
  }

  /** irq is the highest of the interrupts 1 to 31 that are pending, enabled and not held back, or 0. */
  predicate IsHighest(s: State, irq: nat) {
    && irq < 32
    && (irq > 0 ==> s.mip[irq] && s.mie[irq] && !HeldBack(s, irq))
    && forall n | irq < n < 32 :: !(s.mip[n] && s.mie[n]) || HeldBack(s, n)
  }

  lemma ChoiceIsHighest(s: State, irq: nat)
    requires IsChoice(s, irq)
    ensures IsHighest(s, irq)
  {
    forall n | irq < n < 32
      ensures !(s.mip[n] && s.mie[n]) || HeldBack(s, n)
    {
      assert !s.Takes(n);
    }
  }

  /**
   Interrupt 0 and those above 31 are never chosen, even when they are the only ones pending. At machine level
   nothing is taken with bit 3 of mstatus clear; at supervisor level nothing delegated with bit 1 clear, and with
   bit 1 set whatever is pending and enabled.
   */
  method TakeInterrupt(s: State) returns (irq: nat)
    ensures IsChoice(s, irq) && IsHighest(s, irq)
    ensures s.priv == Machine && !s.mstatus[3] ==> irq == 0
    ensures s.priv == Supervisor && !s.mstatus[1] && irq > 0 ==> !s.mideleg[irq]
    ensures s.priv == Supervisor && s.mstatus[1] ==>
              && (irq > 0 ==> s.mip[irq] && s.mie[irq])
              && forall n | irq < n < 32 :: !(s.mip[n] && s.mie[n])
  {
    irq := HighestPending(s);
    ChoiceIsHighest(s, irq);
  }

  /** The scan from bit 31 down. */
  method HighestPending(s: State) returns (irq: nat)
    ensures IsChoice(s, irq)
  {
    var pending := seq(64, i requires 0 <= i < 64 => s.mip[i] && s.mie[i]);
    var enabled := seq(64, _ => false);
    match s.priv {
      case Machine =>
        if s.mstatus[MIE] {
          enabled := seq(64, i requires 0 <= i < 64 => !s.mideleg[i]);
        }
      case Supervisor =>
        enabled := seq(64, i requires 0 <= i < 64 => !s.mideleg[i]);
        if s.mstatus[SIE] {
          enabled := seq(64, i requires 0 <= i < 64 => enabled[i] || s.mideleg[i]);
        }
      case _ =>
        enabled := seq(64, _ => true);
    }
    pending := seq(64, i requires 0 <= i < 64 => pending[i] && enabled[i]);
    assert forall n | 0 <= n < 64 :: pending[n] == s.Takes(n);
    for p := 32 downto 0
      invariant forall n | p <= n < 32 :: !s.Takes(n)
    {
      if pending[p] {
        return p;
      }
    }
    irq := 0;
  }

  /**
   An interrupt delegated to the supervisor is never chosen while in machine mode, and the level
   that handles a chosen interrupt is the machine exactly when it is not delegated or interrupts
   the hypervisor level.
   */
  lemma WhoHandles(s: State, irq: nat, tval: nat)
    requires IsChoice(s, irq) && irq > 0
    ensures s.priv == Machine ==> !s.mideleg[irq]
    ensures s.TrapEntry(Interrupt(irq), tval).priv == Machine <==> s.priv == Hypervisor || !s.mideleg[irq]
  {
  }
}

/**
 Runs of the interpreter loop on the hart as a value: when both caches agree with the walk, from which
 states on, and what can raise privilege.
 */
module Runs {
  import opened Bits
  import opened Cores
  import opened Privilege
  import opened Sv39
  import opened Tlb
  import opened Traps

  /** cs are the states of a run that meets the inputs. */
  ghost predicate IsRun(cs: seq<Core>, inputs: seq<Input>) {
    && |cs| == |inputs| + 1
    && (forall k | 0 <= k < |cs| :: cs[k].Sized())
    && (forall k | 0 <= k < |inputs| :: Follows(cs, inputs, k))
  }

  /** The iteration on input k leads from state k to the next one. */
  ghost predicate Follows(cs: seq<Core>, inputs: seq<Input>, k: nat)
    requires k < |inputs| < |cs|
  {
    && Executable(inputs[k].instruction)
    && cs[k].Sized() && cs[k + 1] == cs[k].Next(inputs[k])
  }

  lemma RunExtends(cs: seq<Core>, inputs: seq<Input>, c: Core, input: Input)
    requires IsRun(cs, inputs) && Executable(input.instruction)
    requires c == cs[|inputs|].Next(input) && c.Sized()
    ensures IsRun(cs + [c], inputs + [input])
  {
    forall k | 0 <= k < |inputs + [input]|
      ensures Follows(cs + [c], inputs + [input], k)
    {
      assert k < |inputs| ==> Follows(cs, inputs, k);
    }
  }

  /** No interrupt is taken, so that the next instruction is fetched. */
  predicate Fetches(c: Core, input: Input) {
    Highest(c.Pending(input.mip).regs, 31) == 0
  }

  /** What a fetch that succeeds meets. */
  predicate FetchSound(c: Core, input: Input)
    requires c.Sized()
  {
    var (f, out) := c.Pending(input.mip).FetchPc();
    out.Ok? ==> FetchesFrom(f.mem, f.satp, f.regs.priv, f.regs.pc, out.pa, f.checked)
  }

  /** The iteration executes this instruction. */
  predicate Executes(c: Core, input: Input)
    requires c.Sized()
  {
    Fetches(c, input) && c.Pending(input.mip).FetchPc().1.Ok?
  }

  /**
   Fetch reuse is sound over every run. As long as no fetch consults a stale entry, stores change the
   words that the walk of the running page reads at most in A and D, and a return to a level with
   another view goes to another page, every fetch is at the address that full translation of its pc
   forms, and the level may use the leaf.
   */
  lemma {:induction false} RunFetchesSoundly(cs: seq<Core>, inputs: seq<Input>, j: nat, k: nat)
    requires IsRun(cs, inputs) && j <= k <= |inputs| && cs[j].Steady()
    requires forall n | j <= n <= k && n < |inputs| :: cs[n].Allows(inputs[n])
    ensures cs[k].Steady()
    ensures k < |inputs| && Fetches(cs[k], inputs[k]) ==> FetchSound(cs[k], inputs[k])
  {
    if j < k {
      RunFetchesSoundly(cs, inputs, j, k - 1);
      assert Follows(cs, inputs, k - 1);
      NextSteady(cs[k - 1], inputs[k - 1]);
    }
    if k < |inputs| && Fetches(cs[k], inputs[k]) {
      FetchIsSound(cs[k], inputs[k]);
    }
  }

  lemma {:induction false} FetchIsSound(c: Core, input: Input)
    requires c.Steady() && Fetches(c, input)
    requires c.Reuses() || c.Unpaged() || c.Fresh(TlbIndex(c.regs.pc))
    ensures FetchSound(c, input)
  {
    var p := c.Pending(input.mip);
    assert c.Fresh(TlbIndex(c.regs.pc)) == p.Fresh(TlbIndex(p.regs.pc));
    FetchSteady(p);
  }

  /**
   The buffer agrees with the walk from any state on in which it does, as long as stores leave alone,
   up to turning on A and D, the words that the walks of the valid entries read: every valid entry is
   what the walk gives under the current satp and privilege, and every access in every state is
   translated as the walk says.
   */
  lemma {:induction false} RunCoherent(cs: seq<Core>, inputs: seq<Input>, j: nat, k: nat)
    requires IsRun(cs, inputs) && j <= k <= |inputs| && cs[j].Coherent()
    requires forall n | j <= n < k :: cs[n].KeepsBufferNext(inputs[n])
    ensures cs[k].Coherent()
    ensures forall ea, access :: TranslationSound(cs[k], ea, access)
  {
    StaysCoherent(cs, inputs, j, k);
    CoherentTranslates(cs[k]);
  }

  lemma {:induction false} StaysCoherent(cs: seq<Core>, inputs: seq<Input>, j: nat, k: nat)
    requires IsRun(cs, inputs) && j <= k <= |inputs| && cs[j].Coherent()
    requires forall n | j <= n < k :: cs[n].KeepsBufferNext(inputs[n])
    ensures cs[k].Coherent()
  {
    if j < k {
      StaysCoherent(cs, inputs, j, k - 1);
      assert Follows(cs, inputs, k - 1);
      NextKeeps(cs[k - 1], inputs[k - 1]);
      KeptCoherent(cs[k - 1], cs[k]);
    }
  }

  lemma KeptCoherent(c: Core, c': Core)
    requires c.Coherent() && Kept(c, c')
    ensures c'.Coherent()
  {
  }

  lemma {:induction false} CoherentTranslates(c: Core)
    requires c.Coherent()
    ensures forall ea, access :: TranslationSound(c, ea, access)
  {
    forall ea, access
      ensures TranslationSound(c, ea, access)
    {
      TranslateIsWalk(c, ea, access);
    }
  }

  lemma {:induction false} FetchRegisters(c: Core)
    requires c.Sized()
    ensures var (f, out) := c.FetchPc();
      && (!out.PageFault? ==> f.regs == c.regs)
      && (out.PageFault? ==> f.regs == c.regs.TrapEntry(FETCH_PAGE_FAULT, c.regs.pc) && f.lastPhysPc == 0)
      && (f.regs.priv != c.regs.priv ==> f.NoneValid())
  {
    TranslateKeeps(c, c.regs.pc, Fetch);
  }

  /** A fence, or a write to satp that is taken. */
  predicate IsFlush(i: Instruction) {
    i.SfenceVma? || (i.CsrSatp? && i.v.mode == 8 && i.v.asid == 0)
  }

  /**
   The buffer is flushed by a fence, by an accepted write to satp and by every change of level; a write
   to satp drops the saved page as well.
   */
  lemma {:induction false} Flushes(c: Core, input: Input)
    requires c.Sized() && Executable(input.instruction)
    ensures c.Next(input).regs.priv != c.regs.priv ==> c.Next(input).NoneValid()
    ensures Executes(c, input) && IsFlush(input.instruction) ==> c.Next(input).NoneValid()
    ensures Executes(c, input) && IsFlush(input.instruction) && input.instruction.CsrSatp? ==>
              c.Next(input).lastPhysPc == 0
  {
    var p := c.Pending(input.mip);
    if Fetches(c, input) {
      var (f, out) := p.FetchPc();
      FetchRegisters(p);
      if out.Ok? {
        ExecuteFlushes(f, input.instruction);
      }
    }
  }

  lemma {:induction false} ExecuteFlushes(c: Core, i: Instruction)
    requires c.Sized() && Executable(i)
    ensures c.Execute(i).regs.priv != c.regs.priv || IsFlush(i) ==> c.Execute(i).NoneValid()
    ensures IsFlush(i) && i.CsrSatp? ==> c.Execute(i).lastPhysPc == 0
  {
    match i
    case LoadFrom(ea) =>
      TranslateKeeps(c, ea, Load);
    case StoreTo(ea, data, loadFirst) =>
      if loadFirst {
        TranslateKeeps(c, ea, Load);
      }
      TranslateKeeps(c.Loaded(ea, loadFirst), ea, Store);
    case _ =>
  }

  /**
   Whatever was written to the tables before, the buffer is right since the last flush if since then
   stores left alone, up to turning on A and D, the words that the walks of the valid entries read.
   */
  lemma {:induction false} RunSinceFlush(cs: seq<Core>, inputs: seq<Input>, j: nat, k: nat)
    requires IsRun(cs, inputs) && j <= k <= |inputs| && cs[j].NoneValid()
    requires forall n | j <= n < k :: cs[n].KeepsBufferNext(inputs[n])
    ensures cs[k].Coherent()
    ensures forall ea, access :: TranslationSound(cs[k], ea, access)
  {
    RunCoherent(cs, inputs, j, k);
  }

  /**
   Both caches agree with the walk over every run from a valid state in which stores and returns
   respect the valid entries and the running page.
   */
  lemma {:induction false} RunValid(cs: seq<Core>, inputs: seq<Input>, j: nat, k: nat)
    requires IsRun(cs, inputs) && j <= k <= |inputs| && cs[j].Valid()
    requires forall n | j <= n < k :: cs[n].KeepsBufferNext(inputs[n]) && cs[n].Respects(inputs[n])
    ensures cs[k].Valid()
    ensures k < |inputs| && Fetches(cs[k], inputs[k]) ==> FetchSound(cs[k], inputs[k])
  {
    if j < k {
      RunValid(cs, inputs, j, k - 1);
      assert Follows(cs, inputs, k - 1);
      NextSteady(cs[k - 1], inputs[k - 1]);
      NextKeeps(cs[k - 1], inputs[k - 1]);
      KeptCoherent(cs[k - 1], cs[k]);
    }
    if k < |inputs| && Fetches(cs[k], inputs[k]) {
      assert cs[k].Fresh(TlbIndex(cs[k].regs.pc));
      FetchIsSound(cs[k], inputs[k]);
    }
  }

  /**
   The same from any state in which both caches are empty, as after a write to satp or a trap to
   another level, whatever was written to the tables before.
   */
  lemma {:induction false} RunSinceDrop(cs: seq<Core>, inputs: seq<Input>, j: nat, k: nat)
    requires IsRun(cs, inputs) && j <= k <= |inputs|
    requires cs[j].NoneValid() && cs[j].lastPhysPc == 0 && cs[j].regs.Is64Bit()
    requires forall n | j <= n < k :: cs[n].KeepsBufferNext(inputs[n]) && cs[n].Respects(inputs[n])
    ensures cs[k].Valid()
    ensures k < |inputs| && Fetches(cs[k], inputs[k]) ==> FetchSound(cs[k], inputs[k])
  {
    RunValid(cs, inputs, j, k);
  }

  // Privilege.

  /** A trap vector of c was entered, and both caches are empty. */
  predicate Enters(c: Core, c': Core) {
    && c'.regs.pc == (if c'.regs.priv == Machine then c.regs.mtvec else c.regs.stvec)
    && (c'.regs.priv == Machine || c'.regs.priv == Supervisor)
    && c'.NoneValid() && c'.lastPhysPc == 0
  }

  /** Only a trap raises privilege, and it goes to a trap vector with both caches empty. */
  lemma {:induction false} PrivilegeRises(c: Core, input: Input)
    requires c.Sized() && Executable(input.instruction)
    requires Rank(c.Next(input).regs.priv) > Rank(c.regs.priv)
    ensures Enters(c, c.Next(input))
  {
    Flushes(c, input);
    var p := c.Pending(input.mip);
    if Fetches(c, input) {
      var (f, out) := p.FetchPc();
      FetchRegisters(p);
      if out.Ok? {
        ExecuteRises(f, input.instruction);
      }
    }
  }

  lemma {:induction false} ExecuteRises(c: Core, i: Instruction)
    requires c.Sized() && Executable(i) && Rank(c.Execute(i).regs.priv) > Rank(c.regs.priv)
    ensures Enters(c, c.Execute(i))
  {
    ExecuteFlushes(c, i);
    match i
    case LoadFrom(ea) => AccessRises(c, ea, Load, LOAD_PAGE_FAULT);
    case StoreTo(ea, data, loadFirst) =>
      if loadFirst {
        TranslateKeeps(c, ea, Load);
      }
      AccessRises(c.Loaded(ea, loadFirst), ea, Store, STORE_PAGE_FAULT);
    case _ =>
  }

  /** A data access changes registers only by its fault, which drops the saved page. */
  lemma {:induction false} AccessRises(c: Core, ea: nat, access: Access, fault: Cause)
    requires c.Sized() && fault.Valid()
    ensures var (c', out) := c.AccessData(ea, access, fault);
      if out.PageFault? then c'.regs == c.regs.TrapEntry(fault, ea) && c'.lastPhysPc == 0 else c'.regs == c.regs
  {
    TranslateKeeps(c, ea, access);
  }

  /** If privilege is higher at the end of a stretch of a run, some iteration in it took a trap that raised it. */
  lemma {:induction false} RunPrivilege(cs: seq<Core>, inputs: seq<Input>, j: nat, k: nat)
    requires IsRun(cs, inputs) && j <= k <= |inputs| && Rank(cs[k].regs.priv) > Rank(cs[j].regs.priv)
    ensures exists n | j <= n < k :: Enters(cs[n], cs[n + 1])
  {
    assert Follows(cs, inputs, k - 1);
    if Rank(cs[k].regs.priv) > Rank(cs[k - 1].regs.priv) {
      PrivilegeRises(cs[k - 1], inputs[k - 1]);
      assert Enters(cs[k - 1], cs[k - 1 + 1]);
    } else {
      RunPrivilege(cs, inputs, j, k - 1);
    }
  }
}

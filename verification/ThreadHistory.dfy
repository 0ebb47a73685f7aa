/**
 The speculative branch histories of one thread: the objects the predictor updates on every branch,
 the checkpoint it leaves in the branch's BranchInfo, and the squash that goes back to it.

 ThreadHistory carries, as ghost state, the whole unbounded history it stands for. Valid() says
 that every concrete field is the function of that history it is meant to be; the methods say
 what they do to the history.
 */
module ThreadHistories {
  import opened Bits
  import opened History
  import opened TageParams
  import opened GlobalHistory

  class FoldedHistory {
    var comp: uint32
    const compLength: nat
    const origLength: nat
    const outpoint: nat

    constructor (originalLength: nat, compressedLength: nat)
      requires originalLength > 0 && 1 <= compressedLength <= 31
      ensures comp == 0 && WellFormed()
      ensures origLength == originalLength && compLength == compressedLength
    {
      comp := 0;
      origLength := originalLength;
      compLength := compressedLength;
      outpoint := originalLength % compressedLength;
    }

    predicate WellFormed() {
      origLength > 0 && 1 <= compLength <= 31 && outpoint == origLength % compLength
    }

    /** The register holds the fold of the origLength newest outcomes of h. */
    predicate Folds(h: Outcomes)
      requires WellFormed()
      reads this
    {
      comp == Fold(h, origLength, compLength)
    }

    /** h[at..] is the history after b was recorded; the register still folds the one before. */
    method Update(h: array<bool>, at: nat, ghost past: Outcomes, ghost b: bool)
      requires WellFormed() && Folds(past)
      requires at + origLength < h.Length
      requires h[at] == b && h[at + origLength] == Recent(past + [b], origLength)
      modifies this
      ensures Folds(past + [b])
    {
      FoldBound(past, origLength, compLength);
      FoldStepIsFold(past, b, origLength, compLength);
      Word32();
      ShiftedInFits(comp, h[at], compLength);
      comp := Low(Or(Shl(comp, 1), FromBool(h[at])), 32);
      ShlBound(h[at + origLength], outpoint, 32);
      XorBound(comp, Shl(FromBool(h[at + origLength]), outpoint), 32);
      comp := Xor(comp, Shl(FromBool(h[at + origLength]), outpoint));
      ShrShrinks(comp, compLength);
      XorBound(comp, Shr(comp, compLength), 32);
      comp := Xor(comp, Shr(comp, compLength));
      Pow2Monotone(compLength, 32);
      comp := Low(comp, compLength);
    }
  }

  /** The register is narrow enough for the shift not to lose a bit of the 32-bit word. */
  lemma ShiftedInFits(comp: nat, newest: bool, width: nat)
    requires width <= 31 && comp < Pow2(width)
    ensures Low(Or(Shl(comp, 1), FromBool(newest)), 32) == Or(Shl(comp, 1), FromBool(newest)) < Pow2(32)
  {
    Pow2Monotone(width + 1, 32);
    Pow2Monotone(1, 32);
    assert Shl(comp, 1) == 2 * Shl(comp, 0);
    OrBound(Shl(comp, 1), FromBool(newest), 32);
    LowOfNarrow(Or(Shl(comp, 1), FromBool(newest)), 32);
  }

  lemma {:induction false} ShrShrinks(x: nat, n: nat)
    ensures Shr(x, n) <= x
  {
    if n > 0 {
      ShrShrinks(x / 2, n - 1);
    }
  }

  /** The contents of the three folded registers of one table: one for its index, two for its tag. */
  datatype Registers = Registers(index: nat, tag0: nat, tag1: nat)

  /** The newest outcomes of h folded to the widths of table i. */
  function FoldsOf(p: Params, i: nat, h: Outcomes): Registers
    requires p.Valid() && 1 <= i <= p.nHistoryTables
  {
    Registers(Fold(h, p.histLengths[i], p.logTagTableSizes[i]),
              Fold(h, p.histLengths[i], p.tagTableTagWidths[i]),
              Fold(h, p.histLengths[i], p.tagTableTagWidths[i] - 1))
  }

  function AllFolds(p: Params, h: Outcomes): (r: seq<Registers>)
    requires p.Valid()
    ensures |r| == p.nHistoryTables + 1
  {
    seq(p.nHistoryTables + 1, i requires 0 <= i <= p.nHistoryTables =>
      if i == 0 then Registers(0, 0, 0) else FoldsOf(p, i, h))
  }

  /**
   What a branch carries from prediction to resolution. The first group of fields is the
   checkpoint of the histories, the second what tagePredict found in the tables.
   */
  class BranchInfo {
    var pathHist: nat
    var ptGhist: nat
    var ci: seq<uint32>
    var ct0: seq<uint32>
    var ct1: seq<uint32>

    var tableIndices: seq<nat>
    var tableTags: seq<nat>
    var bimodalIndex: nat
    var hitBank: nat
    var hitBankIndex: nat
    var altBank: nat
    var altBankIndex: nat
    var tagePred: bool
    var altTaken: bool
    var longestMatchPred: bool
    var pseudoNewAlloc: bool
    var condBranch: bool
    var branchPC: nat

    constructor (p: Params)
      requires p.Valid()
      ensures |ci| == |ct0| == |ct1| == |tableIndices| == |tableTags| == p.nHistoryTables + 1
    {
      pathHist, ptGhist := 0, 0;
      ci := seq(p.nHistoryTables + 1, _ => 0);
      ct0 := seq(p.nHistoryTables + 1, _ => 0);
      ct1 := seq(p.nHistoryTables + 1, _ => 0);
      tableIndices := seq(p.nHistoryTables + 1, _ => 0);
      tableTags := seq(p.nHistoryTables + 1, _ => 0);
      bimodalIndex, hitBank, hitBankIndex, altBank, altBankIndex := 0, 0, 0, 0, 0;
      tagePred, altTaken, longestMatchPred, pseudoNewAlloc, condBranch := false, false, false, false, false;
      branchPC := 0;
    }

    /** Room for one saved register per table. */
    predicate Sized(p: Params)
      reads this
    {
      |ci| == |ct0| == |ct1| == p.nHistoryTables + 1
    }

    /** The saved registers of table i fold the history h. */
    predicate SavedAt(p: Params, i: nat, h: Outcomes)
      requires p.Valid() && Sized(p) && 1 <= i <= p.nHistoryTables
      reads this
    {
      Registers(ci[i], ct0[i], ct1[i]) == FoldsOf(p, i, h)
    }

    predicate Saved(p: Params, h: Outcomes)
      requires p.Valid() && Sized(p)
      reads this
    {
      forall i | 1 <= i <= p.nHistoryTables :: SavedAt(p, i, h)
    }

    /**
     This is the checkpoint of the newest branch of the history h with path bits path: the position
     and the path history after it, the folded registers before it.
     */
    predicate Checkpoints(p: Params, h: Outcomes, path: Outcomes)
      requires p.Valid()
      reads this
    {
      && |h| > 0
      && Sized(p)
      && ptGhist == Slot(p, |h|)
      && pathHist == PathValue(path, p.pathHistBits)
      && Saved(p, h[..|h| - 1])
    }
  }

  predicate HasLengths(r: FoldedHistory, originalLength: nat, compressedLength: nat) {
    r.WellFormed() && r.origLength == originalLength && r.compLength == compressedLength
  }

  /** One zeroed register per table, and an unused one for number 0. */
  method NewRegisters(lengths: seq<nat>, widths: seq<nat>) returns (rs: seq<FoldedHistory>)
    requires |lengths| == |widths| > 0
    requires forall i | 1 <= i < |lengths| :: 1 <= lengths[i] && 1 <= widths[i] <= 31
    ensures |rs| == |lengths|
    ensures forall i | 0 <= i < |rs| :: fresh(rs[i]) && rs[i].comp == 0
    ensures forall i, j | 0 <= i < j < |rs| :: rs[i] != rs[j]
    ensures forall i | 1 <= i < |rs| :: HasLengths(rs[i], lengths[i], widths[i])
  {
    var unused := new FoldedHistory(1, 1);
    rs := [unused];
    for i := 1 to |lengths|
      invariant |rs| == i
      invariant forall k | 0 <= k < i :: fresh(rs[k]) && rs[k].comp == 0
      invariant forall j, k | 0 <= j < k < i :: rs[j] != rs[k]
      invariant forall k | 1 <= k < i :: HasLengths(rs[k], lengths[k], widths[k])
    {
      var r := new FoldedHistory(lengths[i], widths[i]);
      assert r !in rs;
      rs := rs + [r];
    }
  }

  /** The three registers of every table. */
  method NewFolds(p: Params)
    returns (indices: seq<FoldedHistory>, tags0: seq<FoldedHistory>, tags1: seq<FoldedHistory>)
    requires p.Valid()
    ensures |indices| == |tags0| == |tags1| == p.nHistoryTables + 1
    ensures forall i, j | 0 <= i < j <= p.nHistoryTables ::
              indices[i] != indices[j] && tags0[i] != tags0[j] && tags1[i] != tags1[j]
    ensures forall i, j | 0 <= i <= p.nHistoryTables && 0 <= j <= p.nHistoryTables ::
              indices[i] != tags0[j] && indices[i] != tags1[j] && tags0[i] != tags1[j]
    ensures forall i | 0 <= i <= p.nHistoryTables ::
              indices[i].comp == 0 && tags0[i].comp == 0 && tags1[i].comp == 0
    ensures forall i | 1 <= i <= p.nHistoryTables ::
              && HasLengths(indices[i], p.histLengths[i], p.logTagTableSizes[i])
              && HasLengths(tags0[i], p.histLengths[i], p.tagTableTagWidths[i])
              && HasLengths(tags1[i], p.histLengths[i], p.tagTableTagWidths[i] - 1)
    ensures forall r | r in indices + tags0 + tags1 :: fresh(r)
  {
    var narrower := seq(p.nHistoryTables + 1, i requires 0 <= i <= p.nHistoryTables =>
      if i == 0 then 0 else p.tagTableTagWidths[i] - 1);
    indices := NewRegisters(p.histLengths, p.logTagTableSizes);
    tags0 := NewRegisters(p.histLengths, p.tagTableTagWidths);
    tags1 := NewRegisters(p.histLengths, narrower);
  }

  lemma NothingFolded(p: Params)
    requires p.Valid()
    ensures forall i | 0 <= i <= p.nHistoryTables :: AllFolds(p, [])[i] == Registers(0, 0, 0)
  {
    forall i | 1 <= i <= p.nHistoryTables
      ensures AllFolds(p, [])[i] == Registers(0, 0, 0)
    {
      FoldOfNothing(p.histLengths[i], p.logTagTableSizes[i]);
      FoldOfNothing(p.histLengths[i], p.tagTableTagWidths[i]);
      FoldOfNothing(p.histLengths[i], p.tagTableTagWidths[i] - 1);
    }
  }

  /** Correcting outcome m keeps the windows of the histories up to it. */
  lemma CutKeeps(p: Params, tab: Buffer, h: Outcomes, m: nat, taken: bool, k: nat)
    requires p.Valid() && |tab| == p.histBufferSize && 0 < m <= |h| && k <= m
    requires m - k < Lifetime(p, k) && Intact(p, tab, h, k)
    ensures Intact(p, tab[Slot(p, m) := taken], h[..m - 1] + [taken], k)
  {
    var h' := h[..m - 1] + [taken];
    if k == m {
      RewriteNewest(p, tab, h, m, taken);
    } else {
      assert h'[..k] == h[..k];
      RewriteKeeps(p, tab, h, k, m, h', taken);
    }
  }

  /** The windows that recording an outcome leaves in the buffer, that of the new history among them. */
  ghost function StillLive(p: Params, live: set<nat>, length: nat): set<nat>
    requires p.Valid()
  {
    (set m | m in live && length - m < Lifetime(p, m)) + {length}
  }

  class ThreadHistory {
    const p: Params
    const globalHistory: array<bool>
    const computeIndices: seq<FoldedHistory>
    const computeTags0: seq<FoldedHistory>
    const computeTags1: seq<FoldedHistory>
    var pathHist: nat
    /** The pointer to the newest outcome, as an offset into globalHistory. */
    var gHist: nat
    var ptGhist: nat

    /** All outcomes recorded and not squashed, and the path bits recorded with them. */
    ghost var outcomes: Outcomes
    ghost var path: Outcomes
    /** The lengths of the histories whose windows are still in the buffer, which can be squashed to. */
    ghost var live: set<nat>

    /** The state set up by init(): a zeroed buffer and zeroed registers. */
    constructor (p: Params)
      requires p.Valid()
      ensures Valid() && this.p == p && outcomes == [] && path == [] && live == {0}
      ensures fresh(globalHistory)
      ensures forall r | r in computeIndices + computeTags0 + computeTags1 :: fresh(r)
    {
      var tab := new bool[p.histBufferSize](_ => false);
      var indices, tags0, tags1 := NewFolds(p);
      this.p := p;
      globalHistory := tab;
      computeIndices, computeTags0, computeTags1 := indices, tags0, tags1;
      pathHist, gHist, ptGhist := 0, 0, 0;
      outcomes, path, live := [], [], {0};
      new;
      NothingFolded(p);
    }

    /** The registers are separate objects with the lengths of initFoldedHistories. */
    ghost predicate Shape() {
      && p.Valid()
      && globalHistory.Length == p.histBufferSize
      && |computeIndices| == |computeTags0| == |computeTags1| == p.nHistoryTables + 1
      && (forall i | 1 <= i <= p.nHistoryTables :: ShapeAt(i))
      && (forall i, j | 0 <= i < j <= p.nHistoryTables :: computeIndices[i] != computeIndices[j])
      && (forall i, j | 0 <= i < j <= p.nHistoryTables :: computeTags0[i] != computeTags0[j])
      && (forall i, j | 0 <= i < j <= p.nHistoryTables :: computeTags1[i] != computeTags1[j])
      && (forall i, j | 0 <= i <= p.nHistoryTables && 0 <= j <= p.nHistoryTables ::
            computeIndices[i] != computeTags0[j])
      && (forall i, j | 0 <= i <= p.nHistoryTables && 0 <= j <= p.nHistoryTables ::
            computeIndices[i] != computeTags1[j])
      && (forall i, j | 0 <= i <= p.nHistoryTables && 0 <= j <= p.nHistoryTables ::
            computeTags0[i] != computeTags1[j])
    }

    ghost predicate ShapeAt(i: nat)
      requires p.Valid() && 1 <= i <= p.nHistoryTables
      requires |computeIndices| == |computeTags0| == |computeTags1| == p.nHistoryTables + 1
    {
      && HasLengths(computeIndices[i], p.histLengths[i], p.logTagTableSizes[i])
      && HasLengths(computeTags0[i], p.histLengths[i], p.tagTableTagWidths[i])
      && HasLengths(computeTags1[i], p.histLengths[i], p.tagTableTagWidths[i] - 1)
    }

    function RegistersOf(i: nat): Registers
      requires |computeIndices| == |computeTags0| == |computeTags1| == p.nHistoryTables + 1
      requires i <= p.nHistoryTables
      reads computeIndices, computeTags0, computeTags1
    {
      Registers(computeIndices[i].comp, computeTags0[i].comp, computeTags1[i].comp)
    }

    /** The tables below i hold the registers `after`, the others still hold `before`. */
    ghost predicate SteppedBelow(i: nat, before: seq<Registers>, after: seq<Registers>)
      requires Shape() && |before| == |after| == p.nHistoryTables + 1
      reads computeIndices, computeTags0, computeTags1
    {
      forall k | 1 <= k <= p.nHistoryTables :: RegistersOf(k) == if k < i then after[k] else before[k]
    }

    ghost predicate BufferValid()
      requires Shape()
      reads this, globalHistory
    {
      && gHist == ptGhist == Slot(p, |outcomes|)
      && |outcomes| in live
      && forall m | m in live :: Lives(m)
    }

    /** The window of the history of length m is in the buffer, and fewer outcomes than its lifetime followed. */
    ghost predicate Lives(m: nat)
      requires Shape()
      reads this`outcomes, globalHistory
    {
      m <= |outcomes| && |outcomes| - m < Lifetime(p, m) && Intact(p, globalHistory[..], outcomes, m)
    }

    ghost predicate Valid()
      reads this, globalHistory, computeIndices, computeTags0, computeTags1
    {
      && Shape()
      && BufferValid()
      && |path| == |outcomes|
      && pathHist == PathValue(path, p.pathHistBits)
      && SteppedBelow(1, AllFolds(p, outcomes), AllFolds(p, outcomes))
    }

    /** Shift one outcome into the circular buffer. */
    method UpdateGHist(dir: bool)
      requires Shape() && gHist == ptGhist < Period(p)
      modifies this`gHist, this`ptGhist, globalHistory
      ensures gHist == ptGhist == NextSlot(p, old(ptGhist))
      ensures globalHistory[..] == Recorded(p, old(globalHistory[..]), old(ptGhist), dir)
    {
      if ptGhist == 0 {
        for i := 0 to p.maxHist
          invariant ptGhist == 0
          invariant forall k | 0 <= k < globalHistory.Length ::
            globalHistory[k] == if Period(p) <= k < Period(p) + i then old(globalHistory[k - Period(p)])
                                else old(globalHistory[k])
        {
          globalHistory[p.histBufferSize - p.maxHist + i] := globalHistory[i];
        }
        ptGhist := p.histBufferSize - p.maxHist;
        gHist := ptGhist;
      }
      ptGhist := ptGhist - 1;
      gHist := gHist - 1;
      globalHistory[gHist] := dir;
    }

    /** Step the three registers of table i. */
    method StepTable(i: nat, ghost past: Outcomes, ghost b: bool,
                     ghost before: seq<Registers>, ghost after: seq<Registers>)
      requires Shape() && 1 <= i <= p.nHistoryTables
      requires gHist < Period(p) && Window(p, globalHistory[..], gHist, past + [b])
      requires |before| == |after| == p.nHistoryTables + 1 && SteppedBelow(i, before, after)
      requires before[i] == FoldsOf(p, i, past) && after[i] == FoldsOf(p, i, past + [b])
      modifies computeIndices[i], computeTags0[i], computeTags1[i]
      ensures SteppedBelow(i + 1, before, after)
    {
      assert ShapeAt(i);
      assert RegistersOf(i) == before[i];
      assert globalHistory[gHist] == b;
      computeIndices[i].Update(globalHistory, gHist, past, b);
      computeTags0[i].Update(globalHistory, gHist, past, b);
      computeTags1[i].Update(globalHistory, gHist, past, b);
      assert RegistersOf(i) == after[i];
      assert forall k | 1 <= k <= p.nHistoryTables && k != i :: RegistersOf(k) == old(RegistersOf(k));
    }

    /** Save (when asked to) and step the registers of every table. */
    method StepRegisters(save: bool, bi: BranchInfo, ghost past: Outcomes, ghost b: bool,
                         ghost before: seq<Registers>, ghost after: seq<Registers>)
      requires Shape() && bi.Sized(p)
      requires gHist < Period(p) && Window(p, globalHistory[..], gHist, past + [b])
      requires |before| == |after| == p.nHistoryTables + 1 && SteppedBelow(1, before, after)
      requires forall i | 1 <= i <= p.nHistoryTables :: before[i] == FoldsOf(p, i, past)
      requires forall i | 1 <= i <= p.nHistoryTables :: after[i] == FoldsOf(p, i, past + [b])
      modifies computeIndices, computeTags0, computeTags1, bi`ci, bi`ct0, bi`ct1
      ensures SteppedBelow(p.nHistoryTables + 1, before, after)
      ensures bi.Sized(p)
      ensures save ==> bi.Saved(p, past)
      ensures !save ==> bi.ci == old(bi.ci) && bi.ct0 == old(bi.ct0) && bi.ct1 == old(bi.ct1)
    {
      for i := 1 to p.nHistoryTables + 1
        invariant bi.Sized(p)
        invariant save ==> forall k | 1 <= k < i :: Registers(bi.ci[k], bi.ct0[k], bi.ct1[k]) == before[k]
        invariant !save ==> bi.ci == old(bi.ci) && bi.ct0 == old(bi.ct0) && bi.ct1 == old(bi.ct1)
        invariant SteppedBelow(i, before, after)
      {
        if save {
          bi.ci := bi.ci[i := computeIndices[i].comp];
          bi.ct0 := bi.ct0[i := computeTags0[i].comp];
          bi.ct1 := bi.ct1[i := computeTags1[i].comp];
          assert RegistersOf(i) == before[i];
        }
        StepTable(i, past, b, before, after);
      }
    }

    /** Put back every saved register and step it with the corrected newest outcome. */
    method RestoreRegisters(bi: BranchInfo, ghost past: Outcomes, ghost b: bool)
      requires Shape() && bi.Sized(p) && bi.Saved(p, past)
      requires gHist < Period(p) && Window(p, globalHistory[..], gHist, past + [b])
      modifies computeIndices, computeTags0, computeTags1
      ensures SteppedBelow(1, AllFolds(p, past + [b]), AllFolds(p, past + [b]))
    {
      ghost var now := seq(p.nHistoryTables + 1, i requires 0 <= i <= p.nHistoryTables
                           reads computeIndices, computeTags0, computeTags1 => RegistersOf(i));
      ghost var after := AllFolds(p, past + [b]);
      for i := 1 to p.nHistoryTables + 1
        invariant SteppedBelow(i, now, after)
      {
        RestoreTable(i, bi, past, now, after);
        StepTable(i, past, b, now[i := FoldsOf(p, i, past)], after);
        assert SteppedBelow(i + 1, now, after);
      }
    }

    method RestoreTable(i: nat, bi: BranchInfo, ghost past: Outcomes,
                        ghost now: seq<Registers>, ghost after: seq<Registers>)
      requires Shape() && bi.Sized(p) && bi.Saved(p, past) && 1 <= i <= p.nHistoryTables
      requires |now| == |after| == p.nHistoryTables + 1 && SteppedBelow(i, now, after)
      modifies computeIndices[i], computeTags0[i], computeTags1[i]
      ensures SteppedBelow(i, now[i := FoldsOf(p, i, past)], after)
    {
      assert bi.SavedAt(p, i, past);
      computeIndices[i].comp := bi.ci[i];
      computeTags0[i].comp := bi.ct0[i];
      computeTags1[i].comp := bi.ct1[i];
      assert forall k | 1 <= k <= p.nHistoryTables && k != i :: RegistersOf(k) == old(RegistersOf(k));
    }

    /**
     Record a branch. With speculative updates its BranchInfo becomes a checkpoint that a squash
     can return to.
     */
    method UpdateHistories(branchPc: nat, taken: bool, bi: BranchInfo, speculative: bool)
      requires Valid() && bi.Sized(p)
      modifies this, globalHistory, computeIndices, computeTags0, computeTags1
      modifies bi`ptGhist, bi`pathHist, bi`ci, bi`ct0, bi`ct1
      ensures Valid() && bi.Sized(p)
      ensures speculative != p.speculativeHistUpdate ==>
                outcomes == old(outcomes) && path == old(path) && live == old(live)
      ensures speculative == p.speculativeHistUpdate ==>
                && outcomes == old(outcomes) + [taken]
                && path == old(path) + [Bit(branchPc, p.instShiftAmt)]
                && live == StillLive(p, old(live), |outcomes|)
      ensures speculative && p.speculativeHistUpdate ==> bi.Checkpoints(p, outcomes, path)
      ensures !speculative || !p.speculativeHistUpdate ==>
                bi.ptGhist == old(bi.ptGhist) && bi.pathHist == old(bi.pathHist)
                && bi.ci == old(bi.ci) && bi.ct0 == old(bi.ct0) && bi.ct1 == old(bi.ct1)
    {
      if speculative != p.speculativeHistUpdate {
        return;
      }
      RecordOutcome(taken, Bit(branchPc, p.instShiftAmt));
      if speculative {
        bi.ptGhist := ptGhist;
        bi.pathHist := pathHist;
      }
      ghost var past := old(outcomes);
      assert outcomes == past + [taken] && outcomes[..|outcomes|] == outcomes;
      StepRegisters(speculative, bi, past, taken, AllFolds(p, past), AllFolds(p, outcomes));
    }

    /** The part of updateHistories that is not about the folded registers. */
    method RecordOutcome(taken: bool, pathbit: bool)
      requires Shape() && BufferValid() && |path| == |outcomes|
      requires pathHist == PathValue(path, p.pathHistBits)
      modifies this, globalHistory
      ensures BufferValid() && |path| == |outcomes|
      ensures pathHist == PathValue(path, p.pathHistBits)
      ensures outcomes == old(outcomes) + [taken] && path == old(path) + [pathbit]
      ensures live == StillLive(p, old(live), |outcomes|)
    {
      UpdateGHist(taken);
      UpdatePath(pathbit);
      Extend(taken, pathbit, old(globalHistory[..]));
    }

    method UpdatePath(pathbit: bool)
      requires pathHist == PathValue(path, p.pathHistBits)
      modifies this`pathHist
      ensures pathHist == PathValue(path + [pathbit], p.pathHistBits)
    {
      pathHist := Shl(pathHist, 1) + FromBool(pathbit);
      pathHist := Low(pathHist, p.pathHistBits);
      assert (path + [pathbit])[..|path|] == path;
    }

    /** The ghost side of recording an outcome. */
    ghost method Extend(taken: bool, pathbit: bool, before: Buffer)
      requires Shape() && |before| == p.histBufferSize && |path| == |outcomes|
      requires |outcomes| in live
      requires forall m | m in live ::
                 m <= |outcomes| && |outcomes| - m < Lifetime(p, m) && Intact(p, before, outcomes, m)
      requires globalHistory[..] == Recorded(p, before, Slot(p, |outcomes|), taken)
      requires gHist == ptGhist == NextSlot(p, Slot(p, |outcomes|))
      modifies this`outcomes, this`path, this`live
      ensures BufferValid()
      ensures outcomes == old(outcomes) + [taken] && path == old(path) + [pathbit]
      ensures live == StillLive(p, old(live), |outcomes|)
    {
      RecordExtends(p, before, outcomes, taken);
      forall m | m in live && |outcomes| + 1 - m < Lifetime(p, m)
        ensures Intact(p, globalHistory[..], outcomes + [taken], m)
      {
        RecordKeeps(p, before, outcomes, taken, m);
      }
      outcomes, path := outcomes + [taken], path + [pathbit];
      live := StillLive(p, live, |outcomes|);
    }

    /** The ghost side of replacing outcome m, counted from the oldest, and dropping what follows. */
    ghost method CutBack(m: nat, taken: bool, before: Buffer)
      requires Shape() && |before| == p.histBufferSize && |path| == |outcomes|
      requires m in live && m > 0
      requires forall k | k in live ::
                 k <= |outcomes| && |outcomes| - k < Lifetime(p, k) && Intact(p, before, outcomes, k)
      requires globalHistory[..] == before[Slot(p, m) := taken]
      requires gHist == ptGhist == Slot(p, m)
      modifies this`outcomes, this`path, this`live
      ensures BufferValid()
      ensures outcomes == old(outcomes)[..m - 1] + [taken] && path == old(path)[..m]
      ensures live == set k | k in old(live) && k <= m
    {
      var h' := outcomes[..m - 1] + [taken];
      forall k | k in live && k <= m
        ensures Intact(p, globalHistory[..], h', k)
      {
        CutKeeps(p, before, outcomes, m, taken, k);
      }
      outcomes, path := h', path[..m];
      live := set k | k in live && k <= m;
    }

    /**
     Squash is exact rollback: whatever was recorded after branch number m, the histories become
     those of a run in which that branch was recorded with the corrected outcome and nothing
     followed.
     */
    method Squash(taken: bool, bi: BranchInfo, ghost m: nat)
      requires Valid()
      requires p.speculativeHistUpdate ==>
                 m in live && m > 0 && bi.Checkpoints(p, outcomes[..m], path[..m])
      modifies this, globalHistory, computeIndices, computeTags0, computeTags1
      ensures Valid() && live == if p.speculativeHistUpdate then set k | k in old(live) && k <= m else old(live)
      ensures p.speculativeHistUpdate ==>
                outcomes == old(outcomes)[..m - 1] + [taken] && path == old(path)[..m]
      ensures !p.speculativeHistUpdate ==> outcomes == old(outcomes) && path == old(path)
    {
      if !p.speculativeHistUpdate {
        return;
      }
      pathHist := bi.pathHist;
      ptGhist := bi.ptGhist;
      gHist := ptGhist;
      globalHistory[gHist] := taken;
      CutBack(m, taken, old(globalHistory[..]));
      ghost var past := old(outcomes)[..m - 1];
      assert outcomes[..|outcomes|] == outcomes == past + [taken];
      assert past == old(outcomes)[..m][..m - 1];
      RestoreRegisters(bi, past, taken);
    }

    /** A BTB miss: the branch just recorded turns out to be not taken. */
    method BtbUpdate(bi: BranchInfo)
      requires Valid()
      requires p.speculativeHistUpdate ==> bi.Checkpoints(p, outcomes, path)
      modifies this, globalHistory, computeIndices, computeTags0, computeTags1
      ensures Valid() && live == old(live) && path == old(path)
      ensures outcomes == if p.speculativeHistUpdate then old(outcomes)[..|old(outcomes)| - 1] + [false]
                          else old(outcomes)
    {
      if p.speculativeHistUpdate {
        globalHistory[gHist] := false;
        CutBack(|outcomes|, false, old(globalHistory[..]));
        ghost var past := old(outcomes)[..|old(outcomes)| - 1];
        assert outcomes[..|outcomes|] == outcomes == past + [false];
        assert path == old(path);
        RestoreRegisters(bi, past, false);
      }
    }
  }
}

/**
 The predictor object: the tagged tables, the bimodal table and the counters it updates in place.
 Contents() is the value of its tables; every method is specified by a function or predicate on it.
 */
module TagePredictor {
  import opened Bits
  import opened History
  import opened TageParams
  import opened ThreadHistories
  import opened TageTables

  function BIndex(p: Params, pc: nat): (index: nat)
    requires p.Valid()
    ensures index < Pow2(p.logTagTableSizes[0])
  {
    Low(Shr(pc, p.instShiftAmt), p.logTagTableSizes[0])
  }

  /** Shuffle the path history for one table. */
  function F(p: Params, path: nat, size: nat, bank: nat): nat
    requires p.Valid() && 1 <= bank <= p.nHistoryTables
  {
    var log := p.logTagTableSizes[bank];
    var a := Low(path, size);
    var a1 := Low(a, log);
    var high := Shr(a, log);
    var a2 := Low(Shl(high, bank), log) + Shr(high, log - bank);
    var mixed := Xor(a1, a2);
    Low(Shl(mixed, bank), log) + Shr(mixed, log - bank)
  }

  /** The entry of table `bank` that the branch uses. */
  function GIndex(p: Params, folded: nat, path: nat, pc: nat, bank: nat): (index: nat)
    requires p.Valid() && 1 <= bank <= p.nHistoryTables
    ensures index < Pow2(p.logTagTableSizes[bank])
  {
    var log := p.logTagTableSizes[bank];
    var hlen := if p.histLengths[bank] > p.pathHistBits then p.pathHistBits else p.histLengths[bank];
    var shiftedPc := Low(Shr(pc, p.instShiftAmt), 32);
    Low(Xor(Xor(Xor(shiftedPc, Shr(shiftedPc, log - bank + 1)), folded), F(p, path, hlen, bank)), log)
  }

  /** The partial tag the branch carries in table `bank`. */
  function GTag(p: Params, folded0: nat, folded1: nat, pc: nat, bank: nat): (tag: nat)
    requires p.Valid() && 1 <= bank <= p.nHistoryTables
    ensures tag < Pow2(p.tagTableTagWidths[bank])
  {
    Low(Xor(Xor(Shr(pc, p.instShiftAmt), folded0), Shl(folded1, 1)), p.tagTableTagWidths[bank])
  }

  function LookupOf(bi: BranchInfo): Lookup
    reads bi
  {
    Lookup(bi.tableIndices, bi.tableTags, bi.bimodalIndex, bi.hitBank, bi.hitBankIndex, bi.altBank,
           bi.altBankIndex, bi.tagePred, bi.altTaken, bi.longestMatchPred, bi.pseudoNewAlloc)
  }

  /** The indices and tags of q are those of the branch at pc after the history h with path bits path. */
  predicate IndexedFor(p: Params, q: Lookup, h: Outcomes, path: Outcomes, pc: nat)
    requires p.Valid()
  {
    && |q.tableIndices| == |q.tableTags| == p.nHistoryTables + 1
    && q.bimodalIndex == BIndex(p, pc)
    && forall i | 1 <= i <= p.nHistoryTables :: IndexedAt(p, q.tableIndices[i], q.tableTags[i], h, path, pc, i)
  }

  predicate IndexedAt(p: Params, index: nat, tag: nat, h: Outcomes, path: Outcomes, pc: nat, i: nat)
    requires p.Valid() && 1 <= i <= p.nHistoryTables
  {
    var r := FoldsOf(p, i, h);
    && index == GIndex(p, r.index, PathValue(path, p.pathHistBits), pc, i)
    && tag == GTag(p, r.tag0, r.tag1, pc, i)
  }

  method SetLookup(bi: BranchInfo, q: Lookup)
    modifies bi`tableIndices, bi`tableTags, bi`bimodalIndex, bi`hitBank, bi`hitBankIndex, bi`altBank,
             bi`altBankIndex, bi`tagePred, bi`altTaken, bi`longestMatchPred, bi`pseudoNewAlloc
    ensures LookupOf(bi) == q
  {
    bi.tableIndices, bi.tableTags, bi.bimodalIndex := q.tableIndices, q.tableTags, q.bimodalIndex;
    bi.hitBank, bi.hitBankIndex := q.hitBank, q.hitBankIndex;
    bi.altBank, bi.altBankIndex := q.altBank, q.altBankIndex;
    bi.tagePred, bi.altTaken := q.tagePred, q.altTaken;
    bi.longestMatchPred, bi.pseudoNewAlloc := q.longestMatchPred, q.pseudoNewAlloc;
  }

  method NewTables(p: Params) returns (tables: seq<array<TageEntry>>)
    requires p.Valid()
    ensures |tables| == p.nHistoryTables + 1
    ensures forall i | 0 <= i < |tables| :: fresh(tables[i])
    ensures forall i, j | 0 <= i < j < |tables| :: tables[i] != tables[j]
    ensures forall i | 1 <= i < |tables| :: tables[i].Length == Pow2(p.logTagTableSizes[i])
    ensures forall i | 1 <= i < |tables| ::
              forall j | 0 <= j < tables[i].Length :: tables[i][j] == TageEntry(0, 0, 0)
  {
    var unused := new TageEntry[0];
    tables := [unused];
    for i := 1 to p.nHistoryTables + 1
      invariant |tables| == i
      invariant forall k | 0 <= k < i :: fresh(tables[k])
      invariant forall j, k | 0 <= j < k < i :: tables[j] != tables[k]
      invariant forall k | 1 <= k < i :: tables[k].Length == Pow2(p.logTagTableSizes[k])
      invariant forall k | 1 <= k < i ::
                  forall j | 0 <= j < tables[k].Length :: tables[k][j] == TageEntry(0, 0, 0)
    {
      var table := new TageEntry[Pow2(p.logTagTableSizes[i])](_ => TageEntry(0, 0, 0));
      assert table !in tables;
      tables := tables + [table];
    }
  }

  datatype Prospect = Nothing | Becomes(tables: Tables)

  class TageBase {
    const p: Params
    const gtable: seq<array<TageEntry>>
    const btablePrediction: array<bool>
    const btableHysteresis: array<bool>
    var useAltPredForNewlyAllocated: int
    var tCounter: nat

    ghost predicate Valid() {
      && p.Valid()
      && |gtable| == p.nHistoryTables + 1
      && (forall i | 1 <= i <= p.nHistoryTables :: gtable[i].Length == Pow2(p.logTagTableSizes[i]))
      && (forall i, j | 0 <= i < j <= p.nHistoryTables :: gtable[i] != gtable[j])
      && btablePrediction.Length == Pow2(p.logTagTableSizes[0])
      && btableHysteresis.Length == Pow2(p.logTagTableSizes[0] - p.logRatioBiModalHystEntries)
      && btablePrediction != btableHysteresis
    }

    ghost function Contents(): (t: Tables)
      requires Valid()
      reads this, gtable, btablePrediction, btableHysteresis
      ensures t.Sized(p)
    {
      Tables(GTables(), btablePrediction[..], btableHysteresis[..], useAltPredForNewlyAllocated, tCounter)
    }

    ghost function GTables(): (t: seq<seq<TageEntry>>)
      requires Valid()
      reads gtable
      ensures |t| == |gtable|
    {
      seq(|gtable|, i requires 0 <= i < |gtable| reads gtable => gtable[i][..])
    }

    /** The state set up by init(): empty tables, weakly not-taken bimodal entries. */
    constructor (p: Params)
      requires p.Valid()
      ensures Valid() && this.p == p
      ensures fresh(btablePrediction) && fresh(btableHysteresis) && forall a | a in gtable :: fresh(a)
      ensures tCounter == p.initialTCounterValue && useAltPredForNewlyAllocated == 0
      ensures forall i | 0 <= i < btablePrediction.Length :: !btablePrediction[i]
      ensures forall i | 0 <= i < btableHysteresis.Length :: btableHysteresis[i]
      ensures forall i | 1 <= i <= p.nHistoryTables ::
                forall j | 0 <= j < gtable[i].Length :: gtable[i][j] == TageEntry(0, 0, 0)
    {
      var tables := NewTables(p);
      var prediction := new bool[Pow2(p.logTagTableSizes[0])](_ => false);
      var hysteresis := new bool[Pow2(p.logTagTableSizes[0] - p.logRatioBiModalHystEntries)](_ => true);
      this.p := p;
      gtable, btablePrediction, btableHysteresis := tables, prediction, hysteresis;
      useAltPredForNewlyAllocated, tCounter := 0, p.initialTCounterValue;
    }

    /** Compute the selected entries and the tags of the branch in every table. */
    method CalculateIndicesAndTags(th: ThreadHistory, pc: nat, q: Lookup) returns (q': Lookup)
      requires Valid() && th.Valid() && th.p == p
      requires |q.tableIndices| == |q.tableTags| == p.nHistoryTables + 1
      ensures q'.Sized(p) && IndexedFor(p, q', th.outcomes, th.path, pc)
    {
      var indices: seq<nat>, tags: seq<nat> := q.tableIndices, q.tableTags;
      for i := 1 to p.nHistoryTables + 1
        invariant |indices| == |tags| == p.nHistoryTables + 1
        invariant forall k | 1 <= k < i :: IndexedAt(p, indices[k], tags[k], th.outcomes, th.path, pc, k)
      {
        assert th.RegistersOf(i) == FoldsOf(p, i, th.outcomes);
        var index := GIndex(p, th.computeIndices[i].comp, th.pathHist, pc, i);
        var tag := GTag(p, th.computeTags0[i].comp, th.computeTags1[i].comp, pc, i);
        assert IndexedAt(p, index, tag, th.outcomes, th.path, pc, i);
        indices := indices[i := index];
        tags := tags[i := tag];
      }
      q' := q.(tableIndices := indices, tableTags := tags, bimodalIndex := BIndex(p, pc));
      forall i | 1 <= i <= p.nHistoryTables
        ensures indices[i] < Pow2(p.logTagTableSizes[i])
      {
        assert IndexedAt(p, indices[i], tags[i], th.outcomes, th.path, pc, i);
      }
    }

    /** Scan the tables downwards from top for one whose entry carries the branch's tag. */
    method FindMatch(q: Lookup, top: nat) returns (bank: nat)
      requires Valid() && q.Sized(p) && top <= p.nHistoryTables
      ensures LongestMatch(p, Contents(), q, top, bank)
    {
      bank := top;
      while bank > 0
        invariant bank <= top
        invariant forall i | bank < i <= top :: !Matches(p, Contents(), q.tableIndices, q.tableTags, i)
      {
        if p.noSkip[bank] && gtable[bank][q.tableIndices[bank]].tag == q.tableTags[bank] {
          break;
        }
        bank := bank - 1;
      }
    }

    /** Find what the tables say about the conditional branch at pc. */
    method LookUp(th: ThreadHistory, pc: nat, q: Lookup) returns (q': Lookup)
      requires Valid() && th.Valid() && th.p == p
      requires |q.tableIndices| == |q.tableTags| == p.nHistoryTables + 1
      ensures q'.InRange(p) && IsPrediction(p, Contents(), q')
      ensures IndexedFor(p, q', th.outcomes, th.path, pc)
    {
      q' := CalculateIndicesAndTags(th, pc, q);
      ghost var indexed := q';
      q' := FindBanks(q');
      q' := Choose(q');
      assert q'.tableIndices == indexed.tableIndices && q'.tableTags == indexed.tableTags;
    }

    /**
     Predict the branch at pc. For a conditional branch the BranchInfo gets the longest match, the
     alternate and the prediction; the entries are those selected by the architectural history.
     */
    method TagePredict(th: ThreadHistory, pc: nat, condBranch: bool, bi: BranchInfo) returns (predTaken: bool)
      requires Valid() && th.Valid() && th.p == p
      requires |bi.tableIndices| == |bi.tableTags| == p.nHistoryTables + 1
      modifies bi`tableIndices, bi`tableTags, bi`bimodalIndex, bi`hitBank, bi`hitBankIndex, bi`altBank,
               bi`altBankIndex, bi`tagePred, bi`altTaken, bi`longestMatchPred, bi`pseudoNewAlloc,
               bi`branchPC, bi`condBranch
      ensures condBranch ==>
                && LookupOf(bi).InRange(p)
                && IsPrediction(p, old(Contents()), LookupOf(bi))
                && IndexedFor(p, LookupOf(bi), old(th.outcomes), old(th.path), pc)
                && predTaken == bi.tagePred
      ensures !condBranch ==> predTaken && LookupOf(bi) == old(LookupOf(bi))
      ensures bi.branchPC == pc && bi.condBranch == condBranch
    {
      predTaken := true;
      var q := LookupOf(bi);
      if condBranch {
        q := LookUp(th, pc, q);
        SetLookup(bi, q);
        predTaken := q.tagePred;
      }
      bi.branchPC := pc;
      bi.condBranch := condBranch;
      assert condBranch ==> LookupOf(bi) == q;
    }

    /** q's two banks are the longest match and the longest match below it. */
    ghost predicate HasBanks(q: Lookup)
      requires Valid()
      reads this, gtable, btablePrediction, btableHysteresis
    {
      && q.InRange(p)
      && LongestMatch(p, Contents(), q, p.nHistoryTables, q.hitBank)
      && LongestMatch(p, Contents(), q, if q.hitBank > 0 then q.hitBank - 1 else 0, q.altBank)
      && (q.hitBank > 0 ==> q.hitBankIndex == q.tableIndices[q.hitBank])
      && (q.altBank > 0 ==> q.altBankIndex == q.tableIndices[q.altBank])
    }

    method FindBanks(q: Lookup) returns (q': Lookup)
      requires Valid() && q.Sized(p)
      ensures HasBanks(q')
      ensures q'.tableIndices == q.tableIndices && q'.tableTags == q.tableTags
      ensures q'.bimodalIndex == q.bimodalIndex
    {
      var hit := FindMatch(q, p.nHistoryTables);
      q' := q.(hitBank := hit, altBank := 0);
      if hit > 0 {
        var alt := FindMatch(q, hit - 1);
        q' := q'.(hitBankIndex := q.tableIndices[hit], altBank := alt);
        if alt > 0 {
          q' := q'.(altBankIndex := q.tableIndices[alt]);
        }
      }
    }

    /** The prediction and the alternate prediction, given the two banks. */
    method Choose(q: Lookup) returns (q': Lookup)
      requires Valid() && HasBanks(q)
      ensures q'.InRange(p) && IsPrediction(p, Contents(), q')
      ensures q'.tableIndices == q.tableIndices && q'.tableTags == q.tableTags
      ensures q'.bimodalIndex == q.bimodalIndex
    {
      if q.hitBank > 0 {
        var altTaken := btablePrediction[q.bimodalIndex];
        if q.altBank > 0 {
          altTaken := gtable[q.altBank][q.tableIndices[q.altBank]].ctr >= 0;
        }
        var e := gtable[q.hitBank][q.tableIndices[q.hitBank]];
        assert e == Contents().gtable[q.hitBank][q.tableIndices[q.hitBank]];
        var longestMatchPred, pseudoNewAlloc := e.ctr >= 0, Weak(e.ctr);
        var tagePred := altTaken;
        if useAltPredForNewlyAllocated < 0 || !pseudoNewAlloc {
          tagePred := longestMatchPred;
        }
        q' := q.(altTaken := altTaken, longestMatchPred := longestMatchPred,
                 pseudoNewAlloc := pseudoNewAlloc, tagePred := tagePred);
      } else {
        var bimodal := btablePrediction[q.bimodalIndex];
        q' := q.(altTaken := bimodal, tagePred := bimodal, longestMatchPred := bimodal);
      }
    }

    /** Overwrite one entry of one tagged table. */
    method Store(i: nat, j: nat, e: TageEntry)
      requires Valid() && 1 <= i <= p.nHistoryTables && j < gtable[i].Length
      modifies gtable[i]
      ensures Contents() == old(Contents()).Put(i, j, e)
    {
      gtable[i][j] := e;
      assert GTables() == old(GTables())[i := old(GTables())[i][j := e]];
    }

    method DoBaseUpdate(index: nat, taken: bool)
      requires Valid() && index < btablePrediction.Length
      modifies btablePrediction, btableHysteresis
      ensures Contents() == BaseUpdate(p, old(Contents()), index, taken)
    {
      HysteresisInRange(index, p.logTagTableSizes[0], p.logRatioBiModalHystEntries);
      var shared := Shr(index, p.logRatioBiModalHystEntries);
      var inter := 2 * FromBool(btablePrediction[index]) + FromBool(btableHysteresis[shared]);
      if taken {
        if inter < 3 {
          inter := inter + 1;
        }
      } else if inter > 0 {
        inter := inter - 1;
      }
      btablePrediction[index] := inter / 2 == 1;
      btableHysteresis[shared] := inter % 2 == 1;
      assert GTables() == old(GTables());
    }

    method AnyUseless(q: Lookup) returns (found: bool)
      requires Valid() && q.Sized(p)
      ensures found == SomeUseless(p, Contents(), q, q.hitBank)
    {
      found := false;
      var i := p.nHistoryTables;
      while i > q.hitBank
        invariant i <= p.nHistoryTables
        invariant found == SomeUseless(p, Contents(), q, if i > q.hitBank then i else q.hitBank)
      {
        if gtable[i][q.tableIndices[i]].u == 0 {
          assert Contents().gtable[i][q.tableIndices[i]].u == 0;
          found := true;
        }
        i := i - 1;
      }
    }

    /** Replace the branch's entry in table i if it is useless. */
    method TryAllocate(i: nat, taken: bool, q: Lookup) returns (done: bool)
      requires Valid() && q.Sized(p) && 1 <= i <= p.nHistoryTables
      modifies gtable[i]
      ensures done == (old(Contents()).gtable[i][q.tableIndices[i]].u == 0)
      ensures Contents() == if done then
                old(Contents()).Put(i, q.tableIndices[i], TageEntry(if taken then 0 else -1, q.tableTags[i], 0))
              else old(Contents())
    {
      var e := gtable[i][q.tableIndices[i]];
      assert Contents().gtable[i][q.tableIndices[i]] == e;
      done := e.u == 0;
      if done {
        Store(i, q.tableIndices[i], TageEntry(if taken then 0 else -1, q.tableTags[i], e.u));
      }
    }

    /** What allocating from table i upwards, at most `left` entries, would give. */
    ghost function ProspectOf(i: nat, left: nat, taken: bool, q: Lookup): Prospect
      reads this, gtable, btablePrediction, btableHysteresis
    {
      if Valid() && q.Sized(p) && 1 <= i then Becomes(Allocate(p, Contents(), q, taken, i, left)) else Nothing
    }

    ghost predicate Leads(i: nat, left: nat, taken: bool, q: Lookup, result: Tables)
      reads this, gtable, btablePrediction, btableHysteresis
    {
      ProspectOf(i, left, taken, q) == Becomes(result)
    }

    method AllocateAt(i: nat, taken: bool, q: Lookup, budget: nat, ghost result: Tables) returns (left: nat)
      requires Leads(i, budget, taken, q, result) && i <= p.nHistoryTables && budget > 0
      modifies gtable[i]
      ensures Leads(i + 1, left, taken, q, result)
    {
      AllocateUnfolds(p, Contents(), q, taken, i, budget);
      var done := TryAllocate(i, taken, q);
      left := if done then budget - 1 else budget;
    }

    method AllocateFrom(x: nat, taken: bool, q: Lookup, ghost result: Tables)
      requires Leads(x, p.maxNumAlloc, taken, q, result)
      modifies gtable
      ensures Contents() == result
    {
      var left := p.maxNumAlloc;
      var i := x;
      while i <= p.nHistoryTables && left > 0
        invariant Leads(i, left, taken, q, result)
        decreases p.nHistoryTables + 1 - i
      {
        left := AllocateAt(i, taken, q, left, result);
        i := i + 1;
      }
      AllAllocated(i, left, taken, q, result);
    }

    lemma AllAllocated(i: nat, left: nat, taken: bool, q: Lookup, result: Tables)
      requires Leads(i, left, taken, q, result) && (i > p.nHistoryTables || left == 0)
      ensures Contents() == result
    {
    }

    /** Allocate an entry with a longer history, or make one available and allocate that. */
    method AllocateEntries(taken: bool, q: Lookup, nrand: nat)
      requires Valid() && q.Sized(p) && q.hitBank < p.nHistoryTables
      modifies gtable
      ensures Contents() == AllocateFor(p, old(Contents()), q, taken, nrand)
    {
      var found := AnyUseless(q);
      var x := FirstCandidate(p, q.hitBank, nrand);
      if !found {
        var e := gtable[x][q.tableIndices[x]];
        assert Contents().gtable[x][q.tableIndices[x]] == e;
        Store(x, q.tableIndices[x], e.(u := 0));
      }
      AllocateFrom(x, taken, q, Allocate(p, Contents(), q, taken, x, p.maxNumAlloc));
    }

    /** Age every useful counter when the update counter has reached a multiple of the period. */
    method HandleUReset()
      requires Valid()
      modifies gtable
      ensures Contents() == if ResetDue(p, tCounter) then Age(old(Contents())) else old(Contents())
    {
      if tCounter % Pow2(p.logUResetPeriod) == 0 {
        ghost var before := GTables();
        for i := 1 to p.nHistoryTables + 1
          invariant forall k | 0 <= k < |gtable| ::
            gtable[k][..] == if 1 <= k < i then AgeTable(before[k]) else before[k]
        {
          AgeInPlace(gtable[i]);
        }
        assert GTables() == Age(old(Contents())).gtable;
      }
    }

    /** Allocation, then the periodic ageing. */
    method HandleAllocAndUReset(alloc: bool, taken: bool, q: Lookup, nrand: nat)
      requires Valid() && q.Sized(p) && (alloc ==> q.hitBank < p.nHistoryTables)
      modifies this`tCounter, gtable
      ensures Contents() == Tick(p, if alloc then AllocateFor(p, old(Contents()), q, taken, nrand)
                                    else old(Contents()))
    {
      if alloc {
        AllocateEntries(taken, q, nrand);
      }
      CountUpdate();
    }

    method CountUpdate()
      requires Valid()
      modifies this`tCounter, gtable
      ensures Contents() == Tick(p, old(Contents()))
    {
      tCounter := tCounter + 1;
      HandleUReset();
    }

    /** Train the entries the prediction came from. */
    method HandleTageUpdate(taken: bool, q: Lookup)
      requires Valid() && q.InRange(p)
      modifies gtable, btablePrediction, btableHysteresis
      ensures Contents() == TageUpdate(p, old(Contents()), q, taken)
    {
      if q.hitBank > 0 {
        var e := gtable[q.hitBank][q.hitBankIndex];
        assert Contents().gtable[q.hitBank][q.hitBankIndex] == e;
        var e1 := e.(ctr := CtrUpdate(e.ctr, taken, p.tagTableCounterBits));
        Store(q.hitBank, q.hitBankIndex, e1);
        if e.u == 0 {
          if q.altBank > 0 {
            var a := gtable[q.altBank][q.altBankIndex];
            assert Contents().gtable[q.altBank][q.altBankIndex] == a;
            Store(q.altBank, q.altBankIndex, a.(ctr := CtrUpdate(a.ctr, taken, p.tagTableCounterBits)));
          } else {
            DoBaseUpdate(q.bimodalIndex, taken);
          }
        }
        if q.tagePred != q.altTaken {
          Store(q.hitBank, q.hitBankIndex,
                e1.(u := UnsignedCtrUpdate(e1.u, q.tagePred == taken, p.tagTableUBits)));
        }
      } else {
        DoBaseUpdate(q.bimodalIndex, taken);
      }
    }

    /** Whether to allocate, and the choice between longest match and alternate for weak entries. */
    method TrainChoice(taken: bool, q: Lookup) returns (alloc: bool)
      requires Valid()
      modifies this`useAltPredForNewlyAllocated
      ensures alloc == WantsAllocation(p, q, taken)
      ensures Contents() == ChoiceTrained(p, old(Contents()), q, taken)
    {
      alloc := q.tagePred != taken && q.hitBank < p.nHistoryTables;
      if q.hitBank > 0 && q.pseudoNewAlloc {
        if q.longestMatchPred == taken {
          alloc := false;
        }
        if q.longestMatchPred != q.altTaken {
          useAltPredForNewlyAllocated :=
            CtrUpdate(useAltPredForNewlyAllocated, q.altTaken == taken, p.useAltOnNaBits);
        }
      }
    }

    /** The whole update for a resolved conditional branch. */
    method DoCondBranchUpdate(taken: bool, bi: BranchInfo, nrand: nat)
      requires Valid() && LookupOf(bi).InRange(p)
      modifies this, gtable, btablePrediction, btableHysteresis
      ensures Contents() == CondBranchUpdate(p, old(Contents()), LookupOf(bi), taken, nrand)
    {
      var q := LookupOf(bi);
      var alloc := TrainChoice(taken, q);
      HandleAllocAndUReset(alloc, taken, q, nrand);
      HandleTageUpdate(taken, q);
    }
  }

  method AgeInPlace(table: array<TageEntry>)
    modifies table
    ensures table[..] == AgeTable(old(table[..]))
  {
    for j := 0 to table.Length
      invariant forall k | 0 <= k < j :: table[k] == old(table[k]).(u := old(table[k]).u / 2)
      invariant forall k | j <= k < table.Length :: table[k] == old(table[k])
    {
      assert Shr(table[j].u, 1) == Shr(table[j].u / 2, 0);
      table[j] := table[j].(u := Shr(table[j].u, 1));
    }
  }
}

/**
 The tagged and bimodal tables of the predictor as values, the prediction they give, and the
 effect of one conditional-branch update. TageBase runs the same steps on the arrays.
 */
module TageTables {
  import opened Bits
  import opened TageParams

  datatype TageEntry = TageEntry(ctr: int, tag: nat, u: nat)

  datatype Tables = Tables(
    gtable: seq<seq<TageEntry>>,
    btablePrediction: seq<bool>,
    btableHysteresis: seq<bool>,
    useAltPredForNewlyAllocated: int,
    tCounter: nat)
  {
    /** One table per history length, each as long as its index is wide. */
    predicate Sized(p: Params)
      requires p.Valid()
    {
      && |gtable| == p.nHistoryTables + 1
      && (forall i | 1 <= i <= p.nHistoryTables :: |gtable[i]| == Pow2(p.logTagTableSizes[i]))
      && |btablePrediction| == Pow2(p.logTagTableSizes[0])
      && |btableHysteresis| == Pow2(p.logTagTableSizes[0] - p.logRatioBiModalHystEntries)
    }

    function Put(i: nat, j: nat, e: TageEntry): (t: Tables)
      requires i < |gtable| && j < |gtable[i]|
    {
      this.(gtable := gtable[i := gtable[i][j := e]])
    }
  }

  /** What tagePredict leaves in the BranchInfo. */
  datatype Lookup = Lookup(
    tableIndices: seq<nat>,
    tableTags: seq<nat>,
    bimodalIndex: nat,
    hitBank: nat,
    hitBankIndex: nat,
    altBank: nat,
    altBankIndex: nat,
    tagePred: bool,
    altTaken: bool,
    longestMatchPred: bool,
    pseudoNewAlloc: bool)
  {
    predicate Sized(p: Params)
      requires p.Valid()
    {
      && |tableIndices| == |tableTags| == p.nHistoryTables + 1
      && (forall i | 1 <= i <= p.nHistoryTables :: tableIndices[i] < Pow2(p.logTagTableSizes[i]))
      && bimodalIndex < Pow2(p.logTagTableSizes[0])
    }

    /** The fields an update uses are within the tables. */
    predicate InRange(p: Params)
      requires p.Valid()
    {
      && Sized(p)
      && altBank <= hitBank <= p.nHistoryTables
      && (hitBank > 0 ==> altBank < hitBank && hitBankIndex < Pow2(p.logTagTableSizes[hitBank]))
      && (altBank > 0 ==> altBankIndex < Pow2(p.logTagTableSizes[altBank]))
    }
  }

  /** Table i is enabled and its entry selected for the branch carries the branch's tag. */
  predicate Matches(p: Params, t: Tables, indices: seq<nat>, tags: seq<nat>, i: nat)
    requires p.Valid() && t.Sized(p) && 1 <= i <= p.nHistoryTables
    requires |indices| == |tags| == p.nHistoryTables + 1
    requires indices[i] < Pow2(p.logTagTableSizes[i])
  {
    p.noSkip[i] && t.gtable[i][indices[i]].tag == tags[i]
  }

  /** bank is the highest matching table not above top, or 0 when there is none. */
  predicate LongestMatch(p: Params, t: Tables, q: Lookup, top: nat, bank: nat)
    requires p.Valid() && t.Sized(p) && q.Sized(p) && top <= p.nHistoryTables
  {
    && bank <= top
    && (bank > 0 ==> Matches(p, t, q.tableIndices, q.tableTags, bank))
    && (forall i | bank < i <= top :: !Matches(p, t, q.tableIndices, q.tableTags, i))
  }

  predicate Weak(ctr: int) {
    -1 <= 2 * ctr + 1 <= 1
  }

  /** q is what the tables predict for the branch with q's indices and tags. */
  predicate IsPrediction(p: Params, t: Tables, q: Lookup)
    requires p.Valid() && t.Sized(p) && q.Sized(p)
  {
    && LongestMatch(p, t, q, p.nHistoryTables, q.hitBank)
    && LongestMatch(p, t, q, if q.hitBank > 0 then q.hitBank - 1 else 0, q.altBank)
    && (q.altBank > 0 ==> q.altBankIndex == q.tableIndices[q.altBank])
    && q.altTaken == (if q.altBank > 0 then t.gtable[q.altBank][q.tableIndices[q.altBank]].ctr >= 0
                      else t.btablePrediction[q.bimodalIndex])
    && (q.hitBank == 0 ==> q.tagePred == q.longestMatchPred == q.altTaken)
    && (q.hitBank > 0 ==>
          var e := t.gtable[q.hitBank][q.tableIndices[q.hitBank]];
          && q.hitBankIndex == q.tableIndices[q.hitBank]
          && q.longestMatchPred == (e.ctr >= 0)
          && q.pseudoNewAlloc == Weak(e.ctr)
          && q.tagePred == if t.useAltPredForNewlyAllocated < 0 || !Weak(e.ctr) then q.longestMatchPred
                           else q.altTaken)
  }

  /** Up-down saturating counter of nbits bits. */
  function CtrUpdate(ctr: int, taken: bool, nbits: nat): int
    requires nbits > 0
  {
    if taken then (if ctr < Pow2(nbits - 1) - 1 then ctr + 1 else ctr)
    else (if ctr + Pow2(nbits - 1) > 0 then ctr - 1 else ctr)
  }

  function UnsignedCtrUpdate(ctr: nat, up: bool, nbits: nat): nat {
    if up then (if ctr < Pow2(nbits) - 1 then ctr + 1 else ctr)
    else (if ctr > 0 then ctr - 1 else ctr)
  }

  /** Where a bimodal entry keeps its hysteresis bit, which it shares with its neighbours. */
  lemma {:induction false} HysteresisInRange(x: nat, n: nat, k: nat)
    requires k <= n && x < Pow2(n)
    ensures Shr(x, k) < Pow2(n - k)
  {
    if k > 0 {
      HysteresisInRange(x / 2, n - 1, k - 1);
    }
  }

  function BaseUpdate(p: Params, t: Tables, index: nat, taken: bool): (t': Tables)
    requires p.Valid() && t.Sized(p) && index < |t.btablePrediction|
    ensures t'.Sized(p) && t'.gtable == t.gtable
  {
    HysteresisInRange(index, p.logTagTableSizes[0], p.logRatioBiModalHystEntries);
    var shared := Shr(index, p.logRatioBiModalHystEntries);
    var inter := 2 * FromBool(t.btablePrediction[index]) + FromBool(t.btableHysteresis[shared]);
    var inter' := if taken then (if inter < 3 then inter + 1 else inter)
                  else (if inter > 0 then inter - 1 else inter);
    t.(btablePrediction := t.btablePrediction[index := inter' >= 2],
       btableHysteresis := t.btableHysteresis[shared := inter' % 2 == 1])
  }

  /** Some table above the hit has a useless entry for the branch. */
  predicate SomeUseless(p: Params, t: Tables, q: Lookup, above: nat)
    requires p.Valid() && t.Sized(p) && q.Sized(p)
  {
    exists i :: above < i <= p.nHistoryTables && t.gtable[i][q.tableIndices[i]].u == 0
  }

  /** The table from which allocation searches upwards: one of the three above the hit. */
  function FirstCandidate(p: Params, hitBank: nat, nrand: nat): (x: nat)
    requires p.Valid() && hitBank < p.nHistoryTables
    ensures hitBank < x <= p.nHistoryTables && x <= hitBank + 3
  {
    var y := Low(nrand, p.nHistoryTables - hitBank - 1);
    CandidateInRange(nrand, p.nHistoryTables - hitBank - 1);
    hitBank + 1 + (if y % 2 == 1 then (if (y / 2) % 2 == 1 then 2 else 1) else 0)
  }

  lemma CandidateInRange(nrand: nat, room: nat)
    ensures Low(nrand, room) % 2 == 1 ==> room >= 1
    ensures (Low(nrand, room) / 2) % 2 == 1 ==> room >= 2
  {
  }

  /** Replace the useless entries from table i upwards, at most `budget` of them. */
  function Allocate(p: Params, t: Tables, q: Lookup, taken: bool, i: nat, budget: nat): (t': Tables)
    requires p.Valid() && t.Sized(p) && q.Sized(p) && 1 <= i
    ensures t'.Sized(p)
    decreases p.nHistoryTables + 1 - i
  {
    if i > p.nHistoryTables || budget == 0 then t
    else
      var e := t.gtable[i][q.tableIndices[i]];
      if e.u == 0 then
        Allocate(p, t.Put(i, q.tableIndices[i], TageEntry(if taken then 0 else -1, q.tableTags[i], e.u)),
                 q, taken, i + 1, budget - 1)
      else Allocate(p, t, q, taken, i + 1, budget)
  }

  lemma AllocateUnfolds(p: Params, t: Tables, q: Lookup, taken: bool, i: nat, budget: nat)
    requires p.Valid() && t.Sized(p) && q.Sized(p) && 1 <= i <= p.nHistoryTables && budget > 0
    ensures t.gtable[i][q.tableIndices[i]].u == 0 ==>
              var t' := t.Put(i, q.tableIndices[i], TageEntry(if taken then 0 else -1, q.tableTags[i], 0));
              t'.Sized(p) && Allocate(p, t, q, taken, i, budget) == Allocate(p, t', q, taken, i + 1, budget - 1)
    ensures t.gtable[i][q.tableIndices[i]].u != 0 ==>
              Allocate(p, t, q, taken, i, budget) == Allocate(p, t, q, taken, i + 1, budget)
  {
  }

  function AllocateFor(p: Params, t: Tables, q: Lookup, taken: bool, nrand: nat): (t': Tables)
    requires p.Valid() && t.Sized(p) && q.Sized(p) && q.hitBank < p.nHistoryTables
    ensures t'.Sized(p)
  {
    var x := FirstCandidate(p, q.hitBank, nrand);
    var t0 := if SomeUseless(p, t, q, q.hitBank) then t
              else t.Put(x, q.tableIndices[x], t.gtable[x][q.tableIndices[x]].(u := 0));
    Allocate(p, t0, q, taken, x, p.maxNumAlloc)
  }

  /** Shift every useful counter right by one bit. */
  function Age(t: Tables): Tables {
    t.(gtable := seq(|t.gtable|, i requires 0 <= i < |t.gtable| =>
      if i == 0 then t.gtable[i] else AgeTable(t.gtable[i])))
  }

  function AgeTable(table: seq<TageEntry>): seq<TageEntry> {
    seq(|table|, j requires 0 <= j < |table| => table[j].(u := table[j].u / 2))
  }

  predicate ResetDue(p: Params, tCounter: nat) {
    tCounter % Pow2(p.logUResetPeriod) == 0
  }

  function Tick(p: Params, t: Tables): (t': Tables)
    requires p.Valid() && t.Sized(p)
    ensures t'.Sized(p)
  {
    var t0 := t.(tCounter := t.tCounter + 1);
    if ResetDue(p, t0.tCounter) then Age(t0) else t0
  }

  function TageUpdate(p: Params, t: Tables, q: Lookup, taken: bool): (t': Tables)
    requires p.Valid() && t.Sized(p) && q.InRange(p)
    ensures t'.Sized(p)
  {
    if q.hitBank == 0 then BaseUpdate(p, t, q.bimodalIndex, taken)
    else
      var e := t.gtable[q.hitBank][q.hitBankIndex];
      var e1 := e.(ctr := CtrUpdate(e.ctr, taken, p.tagTableCounterBits));
      var t1 := t.Put(q.hitBank, q.hitBankIndex, e1);
      var t2 := if e.u != 0 then t1
                else if q.altBank > 0 then
                  var a := t1.gtable[q.altBank][q.altBankIndex];
                  t1.Put(q.altBank, q.altBankIndex, a.(ctr := CtrUpdate(a.ctr, taken, p.tagTableCounterBits)))
                else BaseUpdate(p, t1, q.bimodalIndex, taken);
      if q.tagePred == q.altTaken then t2
      else t2.Put(q.hitBank, q.hitBankIndex,
                  e1.(u := UnsignedCtrUpdate(e1.u, q.tagePred == taken, p.tagTableUBits)))
  }

  /** A hit on a weak entry that disagrees with the alternate trains the choice between the two. */
  function ChoiceTrained(p: Params, t: Tables, q: Lookup, taken: bool): (t': Tables)
    requires p.Valid()
    ensures t'.gtable == t.gtable && t'.tCounter == t.tCounter
  {
    if q.hitBank > 0 && q.pseudoNewAlloc && q.longestMatchPred != q.altTaken then
      t.(useAltPredForNewlyAllocated :=
           CtrUpdate(t.useAltPredForNewlyAllocated, q.altTaken == taken, p.useAltOnNaBits))
    else t
  }

  predicate WantsAllocation(p: Params, q: Lookup, taken: bool) {
    && q.tagePred != taken
    && q.hitBank < p.nHistoryTables
    && !(q.hitBank > 0 && q.pseudoNewAlloc && q.longestMatchPred == taken)
  }

  function CondBranchUpdate(p: Params, t: Tables, q: Lookup, taken: bool, nrand: nat): (t': Tables)
    requires p.Valid() && t.Sized(p) && q.InRange(p)
    ensures t'.Sized(p)
  {
    var t0 := ChoiceTrained(p, t, q, taken);
    var t1 := if WantsAllocation(p, q, taken) then AllocateFor(p, t0, q, taken, nrand) else t0;
    TageUpdate(p, Tick(p, t1), q, taken)
  }
}

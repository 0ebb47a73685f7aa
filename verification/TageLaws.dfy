/**
 What an update does to every counter of the predictor, in plain arithmetic, and what follows for the
 predictions: who wins between a weak entry and its alternate, and which entries are protected.
 */
module TageLaws {
  import opened Bits
  import opened TageParams
  import opened TageTables
  import opened TageTheorems

  // Counters.

  /** A counter takes one step and stops at the ends of its range. */
  lemma {:induction false} CounterStep(ctr: int, taken: bool, bits: nat)
    requires bits > 0 && -(Pow2(bits - 1) as int) <= ctr < Pow2(bits - 1)
    ensures var half: int := Pow2(bits - 1);
      CtrUpdate(ctr, taken, bits) == if taken then (if ctr == half - 1 then ctr else ctr + 1)
                                     else (if ctr == -half then ctr else ctr - 1)
  {
  }

  /** The two-bit counter of a bimodal entry: its prediction and the hysteresis bit of its group. */
  function Strength(p: Params, t: Tables, index: nat): (c: nat)
    requires p.Valid() && t.Sized(p) && index < |t.btablePrediction|
    ensures c <= 3
  {
    HysteresisInRange(index, p.logTagTableSizes[0], p.logRatioBiModalHystEntries);
    2 * FromBool(t.btablePrediction[index]) + FromBool(t.btableHysteresis[Shr(index, p.logRatioBiModalHystEntries)])
  }

  /** Entries share a hysteresis bit when their numbers agree up to the last bits. */
  predicate Neighbours(p: Params, a: nat, b: nat) {
    a / Pow2(p.logRatioBiModalHystEntries) == b / Pow2(p.logRatioBiModalHystEntries)
  }

  function TwoBitStep(c: nat, taken: bool): (c': nat)
    requires c <= 3
    ensures c' <= 3
  {
    if taken then (if c == 3 then 3 else c + 1) else (if c == 0 then 0 else c - 1)
  }

  /**
   A bimodal update is one step of a two-bit counter towards the outcome, between 0 and 3. Another entry
   keeps its prediction, and its whole counter unless it is a neighbour.
   */
  lemma {:induction false} BimodalStep(p: Params, t: Tables, index: nat, taken: bool, other: nat)
    requires p.Valid() && t.Sized(p) && index < |t.btablePrediction| && other < |t.btablePrediction|
    ensures var t' := BaseUpdate(p, t, index, taken);
      && Strength(p, t', index) == TwoBitStep(Strength(p, t, index), taken)
      && (other != index ==> t'.btablePrediction[other] == t.btablePrediction[other])
      && (!Neighbours(p, index, other) ==> Strength(p, t', other) == Strength(p, t, other))
      && (Neighbours(p, index, other) ==> Strength(p, t', other) % 2 == Strength(p, t', index) % 2)
  {
    OwnStep(p, t, index, taken);
    if other != index {
      OtherStep(p, t, index, taken, other);
    }
  }

  /** The step writes the prediction of the entry and the hysteresis bit of its group. */
  lemma BaseWrites(p: Params, t: Tables, index: nat, taken: bool)
    requires p.Valid() && t.Sized(p) && index < |t.btablePrediction|
    ensures Shr(index, p.logRatioBiModalHystEntries) < |t.btableHysteresis|
    ensures var c := TwoBitStep(Strength(p, t, index), taken);
      BaseUpdate(p, t, index, taken)
      == t.(btablePrediction := t.btablePrediction[index := c >= 2],
            btableHysteresis := t.btableHysteresis[Shr(index, p.logRatioBiModalHystEntries) := c % 2 == 1])
  {
    HysteresisInRange(index, p.logTagTableSizes[0], p.logRatioBiModalHystEntries);
  }

  lemma OwnStep(p: Params, t: Tables, index: nat, taken: bool)
    requires p.Valid() && t.Sized(p) && index < |t.btablePrediction|
    ensures Strength(p, BaseUpdate(p, t, index, taken), index) == TwoBitStep(Strength(p, t, index), taken)
  {
    BaseWrites(p, t, index, taken);
    FromTwoBits(TwoBitStep(Strength(p, t, index), taken));
  }

  lemma OtherStep(p: Params, t: Tables, index: nat, taken: bool, other: nat)
    requires p.Valid() && t.Sized(p) && index < |t.btablePrediction| && other < |t.btablePrediction|
    requires other != index
    ensures var t' := BaseUpdate(p, t, index, taken);
      && t'.btablePrediction[other] == t.btablePrediction[other]
      && (!Neighbours(p, index, other) ==> Strength(p, t', other) == Strength(p, t, other))
      && (Neighbours(p, index, other) ==> Strength(p, t', other) % 2 == Strength(p, t', index) % 2)
  {
    BaseWrites(p, t, index, taken);
    NeighboursShare(p, index, other);
    var c := TwoBitStep(Strength(p, t, index), taken);
    OtherKept(p, t, BaseUpdate(p, t, index, taken), index, other, c >= 2, c % 2 == 1);
  }

  lemma OtherKept(p: Params, t: Tables, t': Tables, index: nat, other: nat, prediction: bool, hysteresis: bool)
    requires p.Valid() && t.Sized(p) && t'.Sized(p) && other != index
    requires index < |t.btablePrediction| && other < |t.btablePrediction|
    requires Shr(index, p.logRatioBiModalHystEntries) < |t.btableHysteresis|
    requires t'.btablePrediction == t.btablePrediction[index := prediction]
    requires t'.btableHysteresis == t.btableHysteresis[Shr(index, p.logRatioBiModalHystEntries) := hysteresis]
    ensures t'.btablePrediction[other] == t.btablePrediction[other]
    ensures var same := Shr(index, p.logRatioBiModalHystEntries) == Shr(other, p.logRatioBiModalHystEntries);
      if same then Strength(p, t', other) % 2 == Strength(p, t', index) % 2
      else Strength(p, t', other) == Strength(p, t, other)
  {
    HysteresisInRange(other, p.logTagTableSizes[0], p.logRatioBiModalHystEntries);
    LowBitOfStrength(p, t', other);
    LowBitOfStrength(p, t', index);
  }

  lemma LowBitOfStrength(p: Params, t: Tables, index: nat)
    requires p.Valid() && t.Sized(p) && index < |t.btablePrediction|
    ensures Shr(index, p.logRatioBiModalHystEntries) < |t.btableHysteresis|
    ensures Strength(p, t, index) % 2 == FromBool(t.btableHysteresis[Shr(index, p.logRatioBiModalHystEntries)])
  {
    HysteresisInRange(index, p.logTagTableSizes[0], p.logRatioBiModalHystEntries);
  }

  lemma NeighboursShare(p: Params, a: nat, b: nat)
    ensures Neighbours(p, a, b) == (Shr(a, p.logRatioBiModalHystEntries) == Shr(b, p.logRatioBiModalHystEntries))
  {
    ShrIsQuotient(a, p.logRatioBiModalHystEntries);
    ShrIsQuotient(b, p.logRatioBiModalHystEntries);
  }

  lemma FromTwoBits(c: nat)
    requires c <= 3
    ensures 2 * FromBool(c >= 2) + FromBool(c % 2 == 1) == c
  {
  }

  // Allocation.

  /** The number of the table above the hit at which an allocation starts to look. */
  lemma {:induction false} CandidateExactly(p: Params, hitBank: nat, nrand: nat)
    requires p.Valid() && hitBank < p.nHistoryTables
    ensures FirstCandidate(p, hitBank, nrand)
         == if nrand % 2 == 0 || hitBank + 1 == p.nHistoryTables then hitBank + 1
            else if nrand / 2 % 2 == 0 || hitBank + 2 == p.nHistoryTables then hitBank + 2
            else hitBank + 3
  {
    var room := p.nHistoryTables - hitBank - 1;
    CandidateInRange(nrand, room);
    if room >= 1 {
      assert Low(nrand, room) == 2 * Low(nrand / 2, room - 1) + nrand % 2;
    }
    if room >= 2 {
      assert Low(nrand / 2, room - 1) == 2 * Low(nrand / 2 / 2, room - 2) + nrand / 2 % 2;
    }
  }

  /** An update makes room: no entry above the hit is useless, so it takes the candidate's. */
  predicate Forces(p: Params, t: Tables, u: Update, i: nat, j: nat)
    requires p.Valid() && t.Sized(p) && u.q.InRange(p)
  {
    && WantsAllocation(p, u.q, u.taken) && !SomeUseless(p, t, u.q, u.q.hitBank)
    && i == FirstCandidate(p, u.q.hitBank, u.nrand) && j == u.q.tableIndices[i]
  }

  /**
   When entries are allocated: the prediction was wrong, a longer history is there, the longest match was
   not a weak entry that was right by itself, and there is a useless entry from the candidate up or none above
   the hit at all.
   */
  lemma {:induction false} AllocatesIff(p: Params, t: Tables, q: Lookup, taken: bool, nrand: nat)
    requires p.Valid() && t.Sized(p) && q.InRange(p) && IsPrediction(p, t, q)
    ensures AllocatedBanks(p, t, q, taken, nrand) != {}
       <==> && q.tagePred == !taken && q.hitBank < p.nHistoryTables
            && !(WeakHit(p, t, q) && HitSays(p, t, q) == taken)
            && (|| (forall i | q.hitBank < i <= p.nHistoryTables :: t.gtable[i][q.tableIndices[i]].u != 0)
                || (exists i :: FirstCandidate(p, q.hitBank, nrand) <= i <= p.nHistoryTables
                                && t.gtable[i][q.tableIndices[i]].u == 0))
  {
    if WantsAllocation(p, q, taken) {
      var x, t0 := FirstCandidate(p, q.hitBank, nrand), Candidates(p, t, q, nrand);
      AllocatedIff(p, t0, q, x, p.maxNumAlloc);
      if !SomeUseless(p, t, q, q.hitBank) {
        assert t0.gtable[x][q.tableIndices[x]].u == 0;
      }
    }
  }

  lemma {:induction false} AllocatedIff(p: Params, t: Tables, q: Lookup, i: nat, budget: nat)
    requires p.Valid() && t.Sized(p) && q.Sized(p) && 1 <= i && budget > 0
    ensures AllocatedFrom(p, t, q, i, budget) != {}
       <==> exists k :: i <= k <= p.nHistoryTables && t.gtable[k][q.tableIndices[k]].u == 0
    decreases p.nHistoryTables + 1 - i
  {
    if i <= p.nHistoryTables {
      if t.gtable[i][q.tableIndices[i]].u == 0 {
        assert i in AllocatedFrom(p, t, q, i, budget);
      } else {
        AllocatedIff(p, t, q, i + 1, budget);
      }
    }
  }

  // Useful counters.

  /** The useful counter u after the ageing that is due at the update of t. */
  function Aged(p: Params, t: Tables, u: nat): nat
    requires p.Valid()
  {
    if (t.tCounter + 1) % Pow2(p.logUResetPeriod) == 0 then u / 2 else u
  }

  /** The hit entry and its alternate disagreed. */
  predicate Decides(u: Update, i: nat, j: nat) {
    u.q.hitBank == i && u.q.hitBankIndex == j && u.q.tagePred != u.q.altTaken
  }

  /** Everything but the tagged tables is left alone by an allocation. */
  lemma {:induction false} AllocateKeepsRest(p: Params, t: Tables, q: Lookup, taken: bool, i: nat, budget: nat)
    requires p.Valid() && t.Sized(p) && q.Sized(p) && 1 <= i
    ensures var t' := Allocate(p, t, q, taken, i, budget); t' == t.(gtable := t'.gtable)
    decreases p.nHistoryTables + 1 - i
  {
    if i <= p.nHistoryTables && budget > 0 {
      if t.gtable[i][q.tableIndices[i]].u == 0 {
        AllocateKeepsRest(p, t.Put(i, q.tableIndices[i], NewEntry(q, taken, i)), q, taken, i + 1, budget - 1);
      } else {
        AllocateKeepsRest(p, t, q, taken, i + 1, budget);
      }
    }
  }

  /** The tables of an update before training: choice trained, entries allocated, useful counters aged. */
  function BeforeTraining(p: Params, t: Tables, u: Update): (t': Tables)
    requires p.Valid() && t.Sized(p) && u.q.InRange(p)
    ensures t'.Sized(p)
  {
    Tick(p, Allocated(p, t, u))
  }

  function Allocated(p: Params, t: Tables, u: Update): (t': Tables)
    requires p.Valid() && t.Sized(p) && u.q.InRange(p)
    ensures t'.Sized(p)
  {
    var t0 := ChoiceTrained(p, t, u.q, u.taken);
    if WantsAllocation(p, u.q, u.taken) then AllocateFor(p, t0, u.q, u.taken, u.nrand) else t0
  }

  function Updated(p: Params, t: Tables, u: Update): (t': Tables)
    requires p.Valid() && t.Sized(p) && u.q.InRange(p)
    ensures t'.Sized(p)
  {
    CondBranchUpdate(p, t, u.q, u.taken, u.nrand)
  }

  lemma {:induction false} UsefulBefore(p: Params, t: Tables, u: Update, i: nat, j: nat)
    requires p.Valid() && t.Sized(p) && u.q.InRange(p)
    requires 1 <= i <= p.nHistoryTables && j < |t.gtable[i]|
    ensures BeforeTraining(p, t, u).gtable[i][j].u
         == Aged(p, t, if Forces(p, t, u, i, j) then 0 else t.gtable[i][j].u)
  {
    UsefulAllocated(p, t, u, i, j);
    TickAges(p, Allocated(p, t, u), i, j);
  }

  lemma SameForces(p: Params, t: Tables, t': Tables, u: Update, i: nat, j: nat)
    requires p.Valid() && t.Sized(p) && t'.Sized(p) && u.q.InRange(p) && t'.gtable == t.gtable
    ensures Forces(p, t', u, i, j) == Forces(p, t, u, i, j)
  {
    assert SomeUseless(p, t', u.q, u.q.hitBank) == SomeUseless(p, t, u.q, u.q.hitBank);
  }

  lemma {:induction false} UsefulAllocated(p: Params, t: Tables, u: Update, i: nat, j: nat)
    requires p.Valid() && t.Sized(p) && u.q.InRange(p)
    requires 1 <= i <= p.nHistoryTables && j < |t.gtable[i]|
    ensures Allocated(p, t, u).gtable[i][j].u == if Forces(p, t, u, i, j) then 0 else t.gtable[i][j].u
    ensures Allocated(p, t, u).tCounter == t.tCounter
  {
    if WantsAllocation(p, u.q, u.taken) {
      var t0 := ChoiceTrained(p, t, u.q, u.taken);
      var x, t1 := FirstCandidate(p, u.q.hitBank, u.nrand), Candidates(p, t0, u.q, u.nrand);
      SameForces(p, t, t0, u, i, j);
      AllocateOnlyUseless(p, t1, u.q, u.taken, x, p.maxNumAlloc, i, j);
      AllocateKeepsCounter(p, t1, u.q, u.taken, x, p.maxNumAlloc);
    }
  }

  lemma TickAges(p: Params, t: Tables, i: nat, j: nat)
    requires p.Valid() && t.Sized(p) && 1 <= i <= p.nHistoryTables && j < |t.gtable[i]|
    ensures Tick(p, t).gtable[i][j].u == Aged(p, t, t.gtable[i][j].u)
  {
  }

  lemma {:induction false} UsefulTrained(p: Params, t: Tables, u: Update, i: nat, j: nat)
    requires p.Valid() && t.Sized(p) && u.q.InRange(p)
    requires 1 <= i <= p.nHistoryTables && j < |t.gtable[i]|
    ensures TageUpdate(p, t, u.q, u.taken).gtable[i][j].u
         == var a := t.gtable[i][j].u;
            if !Decides(u, i, j) then a
            else if u.q.tagePred == u.taken then (if a < Pow2(p.tagTableUBits) - 1 then a + 1 else a)
            else if a > 0 then a - 1 else 0
  {
  }

  /**
   Useful counters, exactly. After any ageing that is due, an update raises the counter of an entry that was
   right against a wrong alternate by one, up to 2^tagTableUBits - 1; it lowers that of an entry that was wrong
   against a right alternate by one; every other counter stays, unless it is cleared to make room.
   */
  lemma {:induction false} UsefulStep(p: Params, t: Tables, u: Update, i: nat, j: nat)
    requires p.Valid() && t.Sized(p) && u.q.InRange(p)
    requires 1 <= i <= p.nHistoryTables && j < |t.gtable[i]|
    ensures Updated(p, t, u).gtable[i][j].u
         == var a := Aged(p, t, if Forces(p, t, u, i, j) then 0 else t.gtable[i][j].u);
            if !Decides(u, i, j) then a
            else if u.q.tagePred == u.taken then (if a < Pow2(p.tagTableUBits) - 1 then a + 1 else a)
            else if a > 0 then a - 1 else 0
  {
    UsefulBefore(p, t, u, i, j);
    UsefulTrained(p, BeforeTraining(p, t, u), u, i, j);
  }

  /** The update neither ages the useful counters nor takes credit or room from entry j of table i. */
  predicate Spares(p: Params, t: Tables, u: Update, i: nat, j: nat)
    requires p.Valid() && t.Sized(p) && u.q.InRange(p)
  {
    && (t.tCounter + 1) % Pow2(p.logUResetPeriod) != 0
    && !(Decides(u, i, j) && u.q.tagePred != u.taken)
    && !Forces(p, t, u, i, j)
  }

  /** Only useless entries, and those cleared to make room, are replaced. */
  lemma {:induction false} UsefulIsKept(p: Params, t: Tables, u: Update, i: nat, j: nat)
    requires p.Valid() && t.Sized(p) && u.q.InRange(p)
    requires 1 <= i <= p.nHistoryTables && j < |t.gtable[i]|
    requires t.gtable[i][j].u > 0 && !Forces(p, t, u, i, j)
    ensures Updated(p, t, u).gtable[i][j].tag == t.gtable[i][j].tag
  {
    UpdateReplacesAll(p, t, u.q, u.taken, u.nrand, i, j);
    if i in AllocatedBanks(p, t, u.q, u.taken, u.nrand) && j == u.q.tableIndices[i] {
      AllocatedIsUseless(p, Candidates(p, t, u.q, u.nrand), u.q, FirstCandidate(p, u.q.hitBank, u.nrand),
                         p.maxNumAlloc, i);
      assert false;
    }
  }

  lemma {:induction false} AllocatedIsUseless(p: Params, t: Tables, q: Lookup, i: nat, budget: nat, k: nat)
    requires p.Valid() && t.Sized(p) && q.Sized(p) && 1 <= i && k in AllocatedFrom(p, t, q, i, budget)
    ensures t.gtable[k][q.tableIndices[k]].u == 0
    decreases p.nHistoryTables + 1 - i
  {
    if t.gtable[i][q.tableIndices[i]].u != 0 || k != i {
      AllocatedIsUseless(p, t, q, i + 1, if t.gtable[i][q.tableIndices[i]].u == 0 then budget - 1 else budget, k);
    }
  }

  /**
   Credit protects: after an update that credits an entry, the entry keeps its tag over any updates that do
   not age the useful counters, do not find it wrong against a right alternate, and find a useless entry
   when they allocate.
   */
  lemma {:induction false} CreditProtects(p: Params, ts: seq<Tables>, us: seq<Update>, m: nat, k: nat, i: nat, j: nat)
    requires p.Valid() && IsRun(p, ts, us) && m < k <= |us|
    requires 1 <= i <= p.nHistoryTables && j < Pow2(p.logTagTableSizes[i]) && Credits(us[m], i, j)
    requires forall n | m < n < k :: Spares(p, ts[n], us[n], i, j)
    ensures ts[k].gtable[i][j].u > 0 && ts[k].gtable[i][j].tag == ts[m + 1].gtable[i][j].tag
  {
    if k == m + 1 {
      EarnedNext(p, ts, us, m, i, j);
    } else {
      CreditProtects(p, ts, us, m, k - 1, i, j);
      SparedNext(p, ts, us, k - 1, i, j);
    }
  }

  lemma {:induction false} EarnedNext(p: Params, ts: seq<Tables>, us: seq<Update>, k: nat, i: nat, j: nat)
    requires p.Valid() && IsRun(p, ts, us) && k < |us|
    requires 1 <= i <= p.nHistoryTables && j < Pow2(p.logTagTableSizes[i]) && Credits(us[k], i, j)
    ensures ts[k + 1].gtable[i][j].u > 0
  {
    assert Follows(p, ts, us, k);
    CreditEarned(p, ts[k], us[k], i, j);
  }

  lemma {:induction false} SparedNext(p: Params, ts: seq<Tables>, us: seq<Update>, k: nat, i: nat, j: nat)
    requires p.Valid() && IsRun(p, ts, us) && k < |us|
    requires 1 <= i <= p.nHistoryTables && j < Pow2(p.logTagTableSizes[i])
    requires ts[k].gtable[i][j].u > 0 && Spares(p, ts[k], us[k], i, j)
    ensures ts[k + 1].gtable[i][j].u > 0 && ts[k + 1].gtable[i][j].tag == ts[k].gtable[i][j].tag
  {
    assert Follows(p, ts, us, k);
    CreditSpared(p, ts[k], us[k], i, j);
  }

  lemma {:induction false} CreditEarned(p: Params, t: Tables, u: Update, i: nat, j: nat)
    requires p.Valid() && t.Sized(p) && u.q.InRange(p)
    requires 1 <= i <= p.nHistoryTables && j < |t.gtable[i]| && Credits(u, i, j)
    ensures Updated(p, t, u).gtable[i][j].u > 0
  {
    assert Pow2(p.tagTableUBits) >= 2;
    UsefulStep(p, t, u, i, j);
  }

  lemma {:induction false} CreditSpared(p: Params, t: Tables, u: Update, i: nat, j: nat)
    requires p.Valid() && t.Sized(p) && u.q.InRange(p)
    requires 1 <= i <= p.nHistoryTables && j < |t.gtable[i]| && t.gtable[i][j].u > 0 && Spares(p, t, u, i, j)
    ensures Updated(p, t, u).gtable[i][j].u > 0
    ensures Updated(p, t, u).gtable[i][j].tag == t.gtable[i][j].tag
  {
    UsefulStep(p, t, u, i, j);
    UsefulIsKept(p, t, u, i, j);
  }

  // Which entries are allocated.

  /** The tables from i up to below k in which the branch's entry is useless. */
  function UselessBetween(p: Params, t: Tables, q: Lookup, i: nat, k: nat): set<nat>
    requires p.Valid() && t.Sized(p) && q.Sized(p) && 1 <= i && k <= p.nHistoryTables + 1
  {
    set m | i <= m < k && t.gtable[m][q.tableIndices[m]].u == 0
  }

  /** The entries replaced are the useless ones from the candidate up, the lowest ones first. */
  lemma {:induction false} AllocatedExactly(p: Params, t: Tables, q: Lookup, i: nat, budget: nat, k: nat)
    requires p.Valid() && t.Sized(p) && q.Sized(p) && 1 <= i <= k <= p.nHistoryTables
    ensures k in AllocatedFrom(p, t, q, i, budget)
       <==> t.gtable[k][q.tableIndices[k]].u == 0 && |UselessBetween(p, t, q, i, k)| < budget
    decreases p.nHistoryTables + 1 - i
  {
    UselessCount(p, t, q, i, k);
    if budget > 0 && i < k {
      AllocatedExactly(p, t, q, i + 1, if t.gtable[i][q.tableIndices[i]].u == 0 then budget - 1 else budget, k);
    }
  }

  lemma UselessCount(p: Params, t: Tables, q: Lookup, i: nat, k: nat)
    requires p.Valid() && t.Sized(p) && q.Sized(p) && 1 <= i <= k <= p.nHistoryTables
    ensures i == k ==> |UselessBetween(p, t, q, i, k)| == 0
    ensures i < k ==> |UselessBetween(p, t, q, i, k)|
                      == |UselessBetween(p, t, q, i + 1, k)| + if t.gtable[i][q.tableIndices[i]].u == 0 then 1 else 0
  {
    if i < k {
      SplitUseless(p, t, q, i, k);
    } else {
      assert UselessBetween(p, t, q, i, k) == {};
    }
  }

  lemma SplitUseless(p: Params, t: Tables, q: Lookup, i: nat, k: nat)
    requires p.Valid() && t.Sized(p) && q.Sized(p) && 1 <= i < k <= p.nHistoryTables
    ensures i !in UselessBetween(p, t, q, i + 1, k)
    ensures UselessBetween(p, t, q, i, k)
         == UselessBetween(p, t, q, i + 1, k) + if t.gtable[i][q.tableIndices[i]].u == 0 then {i} else {}
  {
  }

  // Training of the alternate.

  /**
   The alternate learns exactly while the entry that hit is useless: then the counter of the next longest
   match takes one step towards the outcome, or without one the bimodal entry does.
   */
  lemma {:induction false} AlternateStep(p: Params, t: Tables, u: Update)
    requires p.Valid() && t.Sized(p) && u.q.InRange(p) && u.q.hitBank > 0
    ensures var q, t' := u.q, Updated(p, t, u);
      var free := Aged(p, t, t.gtable[q.hitBank][q.hitBankIndex].u) == 0;
      && (q.altBank > 0 ==>
            t'.gtable[q.altBank][q.altBankIndex].ctr
            == (if free then CtrUpdate(t.gtable[q.altBank][q.altBankIndex].ctr, u.taken, p.tagTableCounterBits)
                else t.gtable[q.altBank][q.altBankIndex].ctr))
      && (if q.altBank == 0 && free then
            t'.btablePrediction == BaseUpdate(p, t, q.bimodalIndex, u.taken).btablePrediction
            && t'.btableHysteresis == BaseUpdate(p, t, q.bimodalIndex, u.taken).btableHysteresis
          else t'.btablePrediction == t.btablePrediction && t'.btableHysteresis == t.btableHysteresis)
  {
    var q, b := u.q, BeforeTraining(p, t, u);
    UsefulBefore(p, t, u, q.hitBank, q.hitBankIndex);
    BeforeKeeps(p, t, u);
    if q.altBank > 0 {
      CountersBefore(p, t, u, q.altBank, q.altBankIndex);
    }
    AlternateTrained(p, b, u);
    SameBimodal(p, t, b, q.bimodalIndex, u.taken);
  }

  /** Without a match the bimodal entry is trained. */
  lemma {:induction false} BimodalOnly(p: Params, t: Tables, u: Update)
    requires p.Valid() && t.Sized(p) && u.q.InRange(p) && u.q.hitBank == 0
    ensures var t', b := Updated(p, t, u), BaseUpdate(p, t, u.q.bimodalIndex, u.taken);
      t'.btablePrediction == b.btablePrediction && t'.btableHysteresis == b.btableHysteresis
  {
    BeforeKeeps(p, t, u);
    SameBimodal(p, t, BeforeTraining(p, t, u), u.q.bimodalIndex, u.taken);
  }

  /** Counters of entries that neither hit, nor are the alternate, nor are replaced stay. */
  lemma {:induction false} CountersElsewhere(p: Params, t: Tables, u: Update, i: nat, j: nat)
    requires p.Valid() && t.Sized(p) && u.q.InRange(p)
    requires 1 <= i <= p.nHistoryTables && j < |t.gtable[i]|
    requires !(i == u.q.hitBank && j == u.q.hitBankIndex) && !(i == u.q.altBank && j == u.q.altBankIndex)
    requires !(i in AllocatedBanks(p, t, u.q, u.taken, u.nrand) && j == u.q.tableIndices[i])
    ensures Updated(p, t, u).gtable[i][j].ctr == t.gtable[i][j].ctr
  {
    if i <= u.q.hitBank {
      CountersBefore(p, t, u, i, j);
      TrainsTwo(p, BeforeTraining(p, t, u), u, i, j);
    } else {
      UpdateReplacesAll(p, t, u.q, u.taken, u.nrand, i, j);
    }
  }

  lemma TrainsTwo(p: Params, t: Tables, u: Update, i: nat, j: nat)
    requires p.Valid() && t.Sized(p) && u.q.InRange(p)
    requires 1 <= i <= p.nHistoryTables && j < |t.gtable[i]|
    requires !(i == u.q.hitBank && j == u.q.hitBankIndex) && !(i == u.q.altBank && j == u.q.altBankIndex)
    ensures TageUpdate(p, t, u.q, u.taken).gtable[i][j] == t.gtable[i][j]
  {
  }

  lemma AlternateTrained(p: Params, t: Tables, u: Update)
    requires p.Valid() && t.Sized(p) && u.q.InRange(p) && u.q.hitBank > 0
    ensures var q, t' := u.q, TageUpdate(p, t, u.q, u.taken);
      var free := t.gtable[q.hitBank][q.hitBankIndex].u == 0;
      && (q.altBank > 0 ==>
            t'.gtable[q.altBank][q.altBankIndex].ctr
            == (if free then CtrUpdate(t.gtable[q.altBank][q.altBankIndex].ctr, u.taken, p.tagTableCounterBits)
                else t.gtable[q.altBank][q.altBankIndex].ctr))
      && (if q.altBank == 0 && free then
            t'.btablePrediction == BaseUpdate(p, t, q.bimodalIndex, u.taken).btablePrediction
            && t'.btableHysteresis == BaseUpdate(p, t, q.bimodalIndex, u.taken).btableHysteresis
          else t'.btablePrediction == t.btablePrediction && t'.btableHysteresis == t.btableHysteresis)
  {
  }

  lemma SameBimodal(p: Params, t: Tables, t': Tables, index: nat, taken: bool)
    requires p.Valid() && t.Sized(p) && t'.Sized(p) && index < |t.btablePrediction|
    requires t'.btablePrediction == t.btablePrediction && t'.btableHysteresis == t.btableHysteresis
    ensures BaseUpdate(p, t', index, taken).btablePrediction == BaseUpdate(p, t, index, taken).btablePrediction
    ensures BaseUpdate(p, t', index, taken).btableHysteresis == BaseUpdate(p, t, index, taken).btableHysteresis
  {
  }

  /** What comes before training touches the choice counter and the update counter, and no bimodal entry. */
  lemma {:induction false} BeforeKeeps(p: Params, t: Tables, u: Update)
    requires p.Valid() && t.Sized(p) && u.q.InRange(p)
    ensures var b := BeforeTraining(p, t, u);
      && b.btablePrediction == t.btablePrediction && b.btableHysteresis == t.btableHysteresis
      && b.tCounter == t.tCounter + 1
      && b.useAltPredForNewlyAllocated == ChoiceTrained(p, t, u.q, u.taken).useAltPredForNewlyAllocated
  {
    var t0 := ChoiceTrained(p, t, u.q, u.taken);
    if WantsAllocation(p, u.q, u.taken) {
      AllocateKeepsRest(p, Candidates(p, t0, u.q, u.nrand), u.q, u.taken,
                        FirstCandidate(p, u.q.hitBank, u.nrand), p.maxNumAlloc);
    }
  }

  /** Up to the hit no entry is allocated, so counters are still the old ones. */
  lemma {:induction false} CountersBefore(p: Params, t: Tables, u: Update, i: nat, j: nat)
    requires p.Valid() && t.Sized(p) && u.q.InRange(p) && 1 <= i <= u.q.hitBank && j < |t.gtable[i]|
    ensures BeforeTraining(p, t, u).gtable[i][j].ctr == t.gtable[i][j].ctr
  {
    var t0 := ChoiceTrained(p, t, u.q, u.taken);
    if WantsAllocation(p, u.q, u.taken) {
      var x, t1 := FirstCandidate(p, u.q.hitBank, u.nrand), Candidates(p, t0, u.q, u.nrand);
      AllocateAbove(p, t1, u.q, u.taken, x, p.maxNumAlloc, i);
    }
  }

  // The choice between a weak entry and its alternate.

  /** The longest match is a weak entry: its counter is one of the two in the middle. */
  predicate WeakHit(p: Params, t: Tables, q: Lookup)
    requires p.Valid() && t.Sized(p) && q.InRange(p)
  {
    q.hitBank > 0 && -1 <= t.gtable[q.hitBank][q.tableIndices[q.hitBank]].ctr <= 0
  }

  predicate HitSays(p: Params, t: Tables, q: Lookup)
    requires p.Valid() && t.Sized(p) && q.InRange(p)
  {
    q.hitBank > 0 && t.gtable[q.hitBank][q.tableIndices[q.hitBank]].ctr >= 0
  }

  /** The next longest match, or without one the bimodal entry. */
  predicate AlternateSays(p: Params, t: Tables, q: Lookup)
    requires p.Valid() && t.Sized(p) && q.InRange(p)
  {
    if q.altBank > 0 then t.gtable[q.altBank][q.tableIndices[q.altBank]].ctr >= 0
    else t.btablePrediction[q.bimodalIndex]
  }

  /** Without a match the bimodal entry predicts, and an entry that is not weak predicts for itself. */
  lemma {:induction false} StrongHitPredicts(p: Params, t: Tables, q: Lookup)
    requires p.Valid() && t.Sized(p) && q.InRange(p) && IsPrediction(p, t, q) && !WeakHit(p, t, q)
    ensures q.tagePred == if q.hitBank > 0 then HitSays(p, t, q) else t.btablePrediction[q.bimodalIndex]
  {
    if q.hitBank == 0 {
      assert q.altBank == 0;
    }
  }

  /** The update follows a prediction with a weak hit that its alternate contradicted; who was right. */
  predicate Contest(p: Params, t: Tables, u: Update, alternateWon: bool)
    requires p.Valid() && t.Sized(p) && u.q.InRange(p)
  {
    && IsPrediction(p, t, u.q) && WeakHit(p, t, u.q) && HitSays(p, t, u.q) != AlternateSays(p, t, u.q)
    && (AlternateSays(p, t, u.q) == u.taken) == alternateWon
  }

  lemma {:induction false} ContestStep(p: Params, t: Tables, u: Update, alternateWon: bool)
    requires p.Valid() && t.Sized(p) && u.q.InRange(p) && Contest(p, t, u, alternateWon)
    ensures Updated(p, t, u).useAltPredForNewlyAllocated
         == CtrUpdate(t.useAltPredForNewlyAllocated, alternateWon, p.useAltOnNaBits)
  {
    BeforeKeeps(p, t, u);
    TrainingKeepsChoice(p, BeforeTraining(p, t, u), u);
  }

  /** Nothing else moves the choice counter. */
  lemma {:induction false} NoContest(p: Params, t: Tables, u: Update)
    requires p.Valid() && t.Sized(p) && u.q.InRange(p) && IsPrediction(p, t, u.q)
    requires !WeakHit(p, t, u.q) || HitSays(p, t, u.q) == AlternateSays(p, t, u.q)
    ensures Updated(p, t, u).useAltPredForNewlyAllocated == t.useAltPredForNewlyAllocated
  {
    BeforeKeeps(p, t, u);
    TrainingKeepsChoice(p, BeforeTraining(p, t, u), u);
  }

  lemma TrainingKeepsChoice(p: Params, t: Tables, u: Update)
    requires p.Valid() && t.Sized(p) && u.q.InRange(p)
    ensures TageUpdate(p, t, u.q, u.taken).useAltPredForNewlyAllocated == t.useAltPredForNewlyAllocated
  {
  }

  lemma {:induction false} ContestNext(p: Params, ts: seq<Tables>, us: seq<Update>, k: nat, alternateWon: bool)
    requires p.Valid() && IsRun(p, ts, us) && k < |us| && Contest(p, ts[k], us[k], alternateWon)
    ensures ts[k + 1].useAltPredForNewlyAllocated
         == CtrUpdate(ts[k].useAltPredForNewlyAllocated, alternateWon, p.useAltOnNaBits)
  {
    assert Follows(p, ts, us, k);
    ContestStep(p, ts[k], us[k], alternateWon);
  }

  /** Where a saturating counter is k steps from start. */
  function CountedTo(start: int, k: nat, up: bool, bits: nat): int
    requires bits > 0
  {
    var half: int := Pow2(bits - 1);
    if up then (if start + k < half then start + k else half - 1)
    else (if start - k >= -half then start - k else -half)
  }

  lemma OneMore(start: int, k: nat, up: bool, bits: nat)
    requires bits > 0 && -(Pow2(bits - 1) as int) <= start < Pow2(bits - 1)
    ensures CtrUpdate(CountedTo(start, k, up, bits), up, bits) == CountedTo(start, k + 1, up, bits)
  {
  }

  /** The choice counter after k contests with one winner. */
  lemma {:induction false} ContestsCount(p: Params, ts: seq<Tables>, us: seq<Update>, alternateWon: bool, k: nat)
    requires p.Valid() && IsRun(p, ts, us) && CountersInRange(p, ts[0]) && k <= |us|
    requires forall n | 0 <= n < |us| :: Contest(p, ts[n], us[n], alternateWon)
    ensures ts[k].useAltPredForNewlyAllocated
         == CountedTo(ts[0].useAltPredForNewlyAllocated, k, alternateWon, p.useAltOnNaBits)
  {
    if k > 0 {
      ContestsCount(p, ts, us, alternateWon, k - 1);
      ContestNext(p, ts, us, k - 1, alternateWon);
      OneMore(ts[0].useAltPredForNewlyAllocated, k - 1, alternateWon, p.useAltOnNaBits);
    }
  }

  /**
   Who predicts for a weak entry. The choice counter starts at 0, where the alternate predicts. After k contests
   that the alternate won it predicts if and only if the counter started at -k or above; after k contests that the
   weak entry won the entry predicts for itself if and only if the counter started below k. In particular
   2^(useAltOnNaBits - 1) contests with one winner decide for it, wherever the counter started.
   */
  lemma {:induction false} WinnerPredicts(p: Params, ts: seq<Tables>, us: seq<Update>, alternateWon: bool, q: Lookup)
    requires p.Valid() && IsRun(p, ts, us) && CountersInRange(p, ts[0])
    requires forall n | 0 <= n < |us| :: Contest(p, ts[n], us[n], alternateWon)
    requires q.InRange(p) && IsPrediction(p, ts[|us|], q) && WeakHit(p, ts[|us|], q)
    ensures var t, start := ts[|us|], ts[0].useAltPredForNewlyAllocated;
      var alternate := if alternateWon then start + |us| >= 0 else start - |us| >= 0;
      q.tagePred == if alternate then AlternateSays(p, t, q) else HitSays(p, t, q)
    ensures |us| >= Pow2(p.useAltOnNaBits - 1) ==>
              q.tagePred == if alternateWon then AlternateSays(p, ts[|us|], q) else HitSays(p, ts[|us|], q)
  {
    ContestsCount(p, ts, us, alternateWon, |us|);
  }
}

/**
 What a conditional-branch update is for: an allocation is what the next prediction of the branch
 finds, counters stay in range over every run, and useful bits that are not earned again age out.
 */
module TageTheorems {
  import opened Bits
  import opened TageParams
  import opened History
  import opened TageTables
  import opened TagePredictor
  import opened ThreadHistories

  /** The lowest table from i upwards whose entry for the branch is useless, or 0. */
  function FirstUseless(p: Params, t: Tables, q: Lookup, i: nat): (bank: nat)
    requires p.Valid() && t.Sized(p) && q.Sized(p) && 1 <= i
    ensures bank == 0 || i <= bank <= p.nHistoryTables
    ensures bank > 0 ==> t.gtable[bank][q.tableIndices[bank]].u == 0
    ensures forall k | i <= k <= p.nHistoryTables && (bank == 0 || k < bank) ::
              t.gtable[k][q.tableIndices[k]].u != 0
    decreases p.nHistoryTables + 1 - i
  {
    if i > p.nHistoryTables then 0
    else if t.gtable[i][q.tableIndices[i]].u == 0 then i
    else FirstUseless(p, t, q, i + 1)
  }

  /** The entry an allocation installs for the branch in table `bank`. */
  function NewEntry(q: Lookup, taken: bool, bank: nat): TageEntry
    requires bank < |q.tableTags|
  {
    TageEntry(if taken then 0 else -1, q.tableTags[bank], 0)
  }

  lemma {:induction false} AllocateOne(p: Params, t: Tables, q: Lookup, taken: bool, i: nat)
    requires p.Valid() && t.Sized(p) && q.Sized(p) && 1 <= i
    ensures var bank := FirstUseless(p, t, q, i);
      Allocate(p, t, q, taken, i, 1) == if bank == 0 then t
        else t.Put(bank, q.tableIndices[bank], NewEntry(q, taken, bank))
    decreases p.nHistoryTables + 1 - i
  {
    if i <= p.nHistoryTables && t.gtable[i][q.tableIndices[i]].u != 0 {
      AllocateOne(p, t, q, taken, i + 1);
    }
  }

  /** The table an update allocates in, or 0: the first useless one not below the candidate. */
  function AllocatedBank(p: Params, t: Tables, q: Lookup, taken: bool, nrand: nat): (bank: nat)
    requires p.Valid() && t.Sized(p) && q.InRange(p)
    ensures bank <= p.nHistoryTables
    ensures bank > 0 ==> q.hitBank < bank
  {
    if !WantsAllocation(p, q, taken) then 0
    else
      var x := FirstCandidate(p, q.hitBank, nrand);
      if SomeUseless(p, t, q, q.hitBank) then FirstUseless(p, t, q, x) else x
  }

  /**
   An update that wants to allocate does so if and only if all entries above the hit are useful, so
   that the candidate is made available, or some entry not below the candidate is useless.
   */
  lemma AllocatesExactlyWhen(p: Params, t: Tables, q: Lookup, taken: bool, nrand: nat)
    requires p.Valid() && t.Sized(p) && q.InRange(p) && WantsAllocation(p, q, taken)
    ensures AllocatedBank(p, t, q, taken, nrand) > 0
       <==> !SomeUseless(p, t, q, q.hitBank)
            || SomeUseless(p, t, q, FirstCandidate(p, q.hitBank, nrand) - 1)
  {
    var x := FirstCandidate(p, q.hitBank, nrand);
    var bank := FirstUseless(p, t, q, x);
    if bank > 0 {
      assert x - 1 < bank <= p.nHistoryTables && t.gtable[bank][q.tableIndices[bank]].u == 0;
      assert SomeUseless(p, t, q, x - 1);
    }
  }

  lemma AllocateForOne(p: Params, t: Tables, q: Lookup, taken: bool, nrand: nat)
    requires p.Valid() && t.Sized(p) && q.InRange(p) && p.maxNumAlloc == 1 && WantsAllocation(p, q, taken)
    ensures var bank := AllocatedBank(p, t, q, taken, nrand);
      AllocateFor(p, t, q, taken, nrand) == if bank == 0 then t
        else t.Put(bank, q.tableIndices[bank], NewEntry(q, taken, bank))
  {
    var x := FirstCandidate(p, q.hitBank, nrand);
    if SomeUseless(p, t, q, q.hitBank) {
      AllocateOne(p, t, q, taken, x);
    } else {
      var t0 := t.Put(x, q.tableIndices[x], t.gtable[x][q.tableIndices[x]].(u := 0));
      AllocateOne(p, t0, q, taken, x);
      assert t0.gtable[x][q.tableIndices[x]].u == 0;
      var e := NewEntry(q, taken, x);
      assert t0.gtable[x][q.tableIndices[x] := e] == t.gtable[x][q.tableIndices[x] := e];
      assert t0.Put(x, q.tableIndices[x], e).gtable == t.Put(x, q.tableIndices[x], e).gtable;
    }
  }

  lemma TickKeeps(p: Params, t: Tables, i: nat, j: nat)
    requires p.Valid() && t.Sized(p) && 1 <= i <= p.nHistoryTables && j < |t.gtable[i]|
    ensures Tick(p, t).gtable[i][j].tag == t.gtable[i][j].tag
    ensures Tick(p, t).gtable[i][j].ctr == t.gtable[i][j].ctr
  {
  }

  /** Training changes no tag, and no counter but those of the hit and the alternate entry. */
  lemma TageUpdateKeeps(p: Params, t: Tables, q: Lookup, taken: bool, i: nat, j: nat)
    requires p.Valid() && t.Sized(p) && q.InRange(p)
    requires 1 <= i <= p.nHistoryTables && j < |t.gtable[i]|
    ensures TageUpdate(p, t, q, taken).gtable[i][j].tag == t.gtable[i][j].tag
    ensures i > q.hitBank ==> TageUpdate(p, t, q, taken).gtable[i][j] == t.gtable[i][j]
  {
  }

  /** All tags survive an update, except that of the entry it allocates. */
  lemma UpdateReplaces(p: Params, t: Tables, q: Lookup, taken: bool, nrand: nat, i: nat, j: nat)
    requires p.Valid() && t.Sized(p) && q.InRange(p) && p.maxNumAlloc == 1
    requires 1 <= i <= p.nHistoryTables && j < |t.gtable[i]|
    ensures var bank, t' := AllocatedBank(p, t, q, taken, nrand), CondBranchUpdate(p, t, q, taken, nrand);
      t'.gtable[i][j].tag == if bank > 0 && i == bank && j == q.tableIndices[bank] then q.tableTags[bank]
                             else t.gtable[i][j].tag
    ensures var bank, t' := AllocatedBank(p, t, q, taken, nrand), CondBranchUpdate(p, t, q, taken, nrand);
      bank > 0 && i == bank && j == q.tableIndices[bank] ==> t'.gtable[i][j].ctr == if taken then 0 else -1
  {
    var t0 := ChoiceTrained(p, t, q, taken);
    SameGtable(p, t, t0, q, taken, nrand);
    var t1 := if WantsAllocation(p, q, taken) then AllocateFor(p, t0, q, taken, nrand) else t0;
    if WantsAllocation(p, q, taken) {
      AllocateForOne(p, t0, q, taken, nrand);
    }
    TickKeeps(p, t1, i, j);
    TageUpdateKeeps(p, Tick(p, t1), q, taken, i, j);
  }

  /** Which table is allocated in depends on the tagged tables alone. */
  lemma SameGtable(p: Params, t: Tables, t0: Tables, q: Lookup, taken: bool, nrand: nat)
    requires p.Valid() && t.Sized(p) && t0.Sized(p) && q.InRange(p) && t0.gtable == t.gtable
    ensures AllocatedBank(p, t0, q, taken, nrand) == AllocatedBank(p, t, q, taken, nrand)
  {
    if WantsAllocation(p, q, taken) {
      var x := FirstCandidate(p, q.hitBank, nrand);
      assert SomeUseless(p, t0, q, q.hitBank) == SomeUseless(p, t, q, q.hitBank);
      var a, b := FirstUseless(p, t0, q, x), FirstUseless(p, t, q, x);
      assert a > 0 ==> t.gtable[a][q.tableIndices[a]].u == 0;
      assert b > 0 ==> t0.gtable[b][q.tableIndices[b]].u == 0;
    }
  }

  /** Two look-ups select the same entries and carry the same tags. */
  predicate SameBranch(p: Params, q: Lookup, q': Lookup)
    requires p.Valid() && q.Sized(p) && q'.Sized(p)
  {
    forall i | 1 <= i <= p.nHistoryTables ::
      q'.tableIndices[i] == q.tableIndices[i] && q'.tableTags[i] == q.tableTags[i]
  }

  lemma SameIndices(p: Params, q: Lookup, q': Lookup, h: Outcomes, path: Outcomes, pc: nat)
    requires p.Valid() && q.Sized(p) && q'.Sized(p)
    requires IndexedFor(p, q, h, path, pc) && IndexedFor(p, q', h, path, pc)
    ensures SameBranch(p, q, q')
  {
    forall i | 1 <= i <= p.nHistoryTables
      ensures q'.tableIndices[i] == q.tableIndices[i] && q'.tableTags[i] == q.tableTags[i]
    {
      assert IndexedAt(p, q.tableIndices[i], q.tableTags[i], h, path, pc, i);
      assert IndexedAt(p, q'.tableIndices[i], q'.tableTags[i], h, path, pc, i);
    }
  }

  /**
   Allocation is seen by the next prediction. After an update that allocates, predicting the same
   branch with unchanged histories hits the new entry exactly when its table is enabled; then it
   falls back on the old hit, predicts the outcome just seen, and recognises the entry as newly
   allocated.
   */
  lemma {:induction false} AllocationIsSeen(p: Params, t: Tables, q: Lookup, taken: bool, nrand: nat, q': Lookup)
    requires p.Valid() && p.maxNumAlloc == 1
    requires t.Sized(p) && q.InRange(p) && IsPrediction(p, t, q)
    requires AllocatedBank(p, t, q, taken, nrand) > 0
    requires q'.Sized(p) && SameBranch(p, q, q')
    requires IsPrediction(p, CondBranchUpdate(p, t, q, taken, nrand), q')
    ensures var bank := AllocatedBank(p, t, q, taken, nrand);
      && (q'.hitBank == bank <==> p.noSkip[bank])
      && (p.noSkip[bank] ==> q'.altBank == q.hitBank && q'.longestMatchPred == taken && q'.pseudoNewAlloc)
  {
    var bank := AllocatedBank(p, t, q, taken, nrand);
    if p.noSkip[bank] {
      EnabledAllocationIsSeen(p, t, q, taken, nrand, q');
    } else {
      assert !Matches(p, CondBranchUpdate(p, t, q, taken, nrand), q'.tableIndices, q'.tableTags, bank);
    }
  }

  lemma EnabledAllocationIsSeen(p: Params, t: Tables, q: Lookup, taken: bool, nrand: nat, q': Lookup)
    requires p.Valid() && p.maxNumAlloc == 1
    requires t.Sized(p) && q.InRange(p) && IsPrediction(p, t, q)
    requires AllocatedBank(p, t, q, taken, nrand) > 0
    requires p.noSkip[AllocatedBank(p, t, q, taken, nrand)]
    requires q'.Sized(p) && SameBranch(p, q, q')
    requires IsPrediction(p, CondBranchUpdate(p, t, q, taken, nrand), q')
    ensures q'.hitBank == AllocatedBank(p, t, q, taken, nrand)
    ensures q'.altBank == q.hitBank
    ensures q'.longestMatchPred == taken && q'.pseudoNewAlloc
  {
    var bank, t' := AllocatedBank(p, t, q, taken, nrand), CondBranchUpdate(p, t, q, taken, nrand);
    forall i | 1 <= i <= p.nHistoryTables
      ensures Matches(p, t', q'.tableIndices, q'.tableTags, i)
           == (i == bank || Matches(p, t, q.tableIndices, q.tableTags, i))
      ensures i == bank ==> t'.gtable[i][q.tableIndices[i]].ctr == if taken then 0 else -1
    {
      UpdateReplaces(p, t, q, taken, nrand, i, q.tableIndices[i]);
    }
    assert Matches(p, t', q'.tableIndices, q'.tableTags, bank);
    if q.hitBank > 0 {
      assert Matches(p, t', q'.tableIndices, q'.tableTags, q.hitBank);
    }
  }

  // Any number of allocations.

  /** The tables in which an allocation from table i upwards replaces an entry. */
  function AllocatedFrom(p: Params, t: Tables, q: Lookup, i: nat, budget: nat): (banks: set<nat>)
    requires p.Valid() && t.Sized(p) && q.Sized(p) && 1 <= i
    ensures forall b | b in banks :: i <= b <= p.nHistoryTables
    decreases p.nHistoryTables + 1 - i
  {
    if i > p.nHistoryTables || budget == 0 then {}
    else if t.gtable[i][q.tableIndices[i]].u == 0 then {i} + AllocatedFrom(p, t, q, i + 1, budget - 1)
    else AllocatedFrom(p, t, q, i + 1, budget)
  }

  /** The tables above i decide where an allocation above i goes. */
  lemma {:induction false} SameAbove(p: Params, t: Tables, t': Tables, q: Lookup, i: nat, budget: nat)
    requires p.Valid() && t.Sized(p) && t'.Sized(p) && q.Sized(p) && 1 <= i
    requires forall k | i <= k <= p.nHistoryTables :: t'.gtable[k] == t.gtable[k]
    ensures AllocatedFrom(p, t', q, i, budget) == AllocatedFrom(p, t, q, i, budget)
    decreases p.nHistoryTables + 1 - i
  {
    if i <= p.nHistoryTables && budget > 0 {
      SameAbove(p, t, t', q, i + 1, if t.gtable[i][q.tableIndices[i]].u == 0 then budget - 1 else budget);
    }
  }

  lemma {:induction false} AllocateMany(p: Params, t: Tables, q: Lookup, taken: bool, i: nat, budget: nat,
                                        k: nat, j: nat)
    requires p.Valid() && t.Sized(p) && q.Sized(p) && 1 <= i
    requires 1 <= k <= p.nHistoryTables && j < |t.gtable[k]|
    ensures Allocate(p, t, q, taken, i, budget).gtable[k][j]
         == if k in AllocatedFrom(p, t, q, i, budget) && j == q.tableIndices[k] then NewEntry(q, taken, k)
            else t.gtable[k][j]
    decreases p.nHistoryTables + 1 - i
  {
    if i <= p.nHistoryTables && budget > 0 {
      if t.gtable[i][q.tableIndices[i]].u == 0 {
        var t' := t.Put(i, q.tableIndices[i], NewEntry(q, taken, i));
        SameAbove(p, t, t', q, i + 1, budget - 1);
        AllocateMany(p, t', q, taken, i + 1, budget - 1, k, j);
      } else {
        AllocateMany(p, t, q, taken, i + 1, budget, k, j);
      }
    }
  }

  /** The tables before the entries are replaced: the candidate is made available if none is. */
  function Candidates(p: Params, t: Tables, q: Lookup, nrand: nat): (t': Tables)
    requires p.Valid() && t.Sized(p) && q.Sized(p) && q.hitBank < p.nHistoryTables
    ensures t'.Sized(p)
  {
    var x := FirstCandidate(p, q.hitBank, nrand);
    if SomeUseless(p, t, q, q.hitBank) then t
    else t.Put(x, q.tableIndices[x], t.gtable[x][q.tableIndices[x]].(u := 0))
  }

  /** All tables in which an update replaces an entry, for any maxNumAlloc. */
  function AllocatedBanks(p: Params, t: Tables, q: Lookup, taken: bool, nrand: nat): (banks: set<nat>)
    requires p.Valid() && t.Sized(p) && q.InRange(p)
    ensures forall b | b in banks :: q.hitBank < b <= p.nHistoryTables
  {
    if !WantsAllocation(p, q, taken) then {}
    else AllocatedFrom(p, Candidates(p, t, q, nrand), q, FirstCandidate(p, q.hitBank, nrand), p.maxNumAlloc)
  }

  /** Which entries are replaced depends on the tagged tables alone. */
  lemma SameBanks(p: Params, t: Tables, t0: Tables, q: Lookup, taken: bool, nrand: nat)
    requires p.Valid() && t.Sized(p) && t0.Sized(p) && q.InRange(p) && t0.gtable == t.gtable
    ensures AllocatedBanks(p, t0, q, taken, nrand) == AllocatedBanks(p, t, q, taken, nrand)
  {
    if WantsAllocation(p, q, taken) {
      assert SomeUseless(p, t0, q, q.hitBank) == SomeUseless(p, t, q, q.hitBank);
      SameAbove(p, Candidates(p, t, q, nrand), Candidates(p, t0, q, nrand), q,
                FirstCandidate(p, q.hitBank, nrand), p.maxNumAlloc);
    }
  }

  lemma {:induction false} AllocationReplaces(p: Params, t: Tables, q: Lookup, taken: bool, nrand: nat, i: nat, j: nat)
    requires p.Valid() && t.Sized(p) && q.InRange(p) && WantsAllocation(p, q, taken)
    requires 1 <= i <= p.nHistoryTables && j < |t.gtable[i]|
    ensures var e, e' := t.gtable[i][j], AllocateFor(p, t, q, taken, nrand).gtable[i][j];
      if i in AllocatedBanks(p, t, q, taken, nrand) && j == q.tableIndices[i] then e' == NewEntry(q, taken, i)
      else e'.tag == e.tag && e'.ctr == e.ctr
  {
    AllocateMany(p, Candidates(p, t, q, nrand), q, taken, FirstCandidate(p, q.hitBank, nrand), p.maxNumAlloc, i, j);
  }

  /** All tags survive an update, except those of the entries it allocates, which are weak for the outcome. */
  lemma {:induction false} UpdateReplacesAll(p: Params, t: Tables, q: Lookup, taken: bool, nrand: nat, i: nat, j: nat)
    requires p.Valid() && t.Sized(p) && q.InRange(p)
    requires 1 <= i <= p.nHistoryTables && j < |t.gtable[i]|
    ensures var e, e' := t.gtable[i][j], CondBranchUpdate(p, t, q, taken, nrand).gtable[i][j];
      if i in AllocatedBanks(p, t, q, taken, nrand) && j == q.tableIndices[i]
      then e'.tag == q.tableTags[i] && e'.ctr == (if taken then 0 else -1)
      else e'.tag == e.tag && (i > q.hitBank ==> e'.ctr == e.ctr)
  {
    var t0 := ChoiceTrained(p, t, q, taken);
    SameBanks(p, t, t0, q, taken, nrand);
    var t1 := if WantsAllocation(p, q, taken) then AllocateFor(p, t0, q, taken, nrand) else t0;
    if WantsAllocation(p, q, taken) {
      AllocationReplaces(p, t0, q, taken, nrand, i, j);
    }
    TickKeeps(p, t1, i, j);
    TageUpdateKeeps(p, Tick(p, t1), q, taken, i, j);
  }

  /** b is the highest of the enabled tables in banks, or `below` when there is none. */
  predicate HighestEnabled(p: Params, banks: set<nat>, below: nat, b: nat)
    requires p.Valid() && forall k | k in banks :: below < k <= p.nHistoryTables
  {
    && (b == below || (b in banks && p.noSkip[b]))
    && forall k | k in banks && p.noSkip[k] :: k <= b
  }

  /**
   Every number of allocations is seen by the next prediction: it hits the highest enabled table in
   which an entry was allocated, and falls back on the next such one, or on the old hit; without any
   it hits the old hit again, with the old alternate.
   */
  lemma {:induction false} AllocationsAreSeen(p: Params, t: Tables, q: Lookup, taken: bool, nrand: nat, q': Lookup)
    requires p.Valid() && t.Sized(p) && q.InRange(p) && IsPrediction(p, t, q)
    requires q'.Sized(p) && SameBranch(p, q, q')
    requires IsPrediction(p, CondBranchUpdate(p, t, q, taken, nrand), q')
    ensures var banks := AllocatedBanks(p, t, q, taken, nrand);
      && HighestEnabled(p, banks, q.hitBank, q'.hitBank)
      && (q'.hitBank != q.hitBank ==>
            && HighestEnabled(p, banks - {q'.hitBank}, q.hitBank, q'.altBank)
            && q'.longestMatchPred == taken && q'.pseudoNewAlloc)
      && (q'.hitBank == q.hitBank ==> q'.altBank == q.altBank)
  {
    var banks, t' := AllocatedBanks(p, t, q, taken, nrand), CondBranchUpdate(p, t, q, taken, nrand);
    forall i | 1 <= i <= p.nHistoryTables
      ensures Matches(p, t', q'.tableIndices, q'.tableTags, i)
           == ((i in banks && p.noSkip[i]) || Matches(p, t, q.tableIndices, q.tableTags, i))
      ensures i in banks ==> t'.gtable[i][q.tableIndices[i]].ctr == if taken then 0 else -1
    {
      UpdateReplacesAll(p, t, q, taken, nrand, i, q.tableIndices[i]);
    }
    SeenHit(p, t, t', q, q', banks);
  }

  /** What is found when, besides the old matches, exactly the enabled tables in banks match. */
  lemma {:induction false} SeenHit(p: Params, t: Tables, t': Tables, q: Lookup, q': Lookup, banks: set<nat>)
    requires p.Valid() && t.Sized(p) && t'.Sized(p) && q.InRange(p) && q'.Sized(p)
    requires IsPrediction(p, t, q) && IsPrediction(p, t', q')
    requires forall b | b in banks :: q.hitBank < b <= p.nHistoryTables
    requires forall i | 1 <= i <= p.nHistoryTables ::
               Matches(p, t', q'.tableIndices, q'.tableTags, i)
               == ((i in banks && p.noSkip[i]) || Matches(p, t, q.tableIndices, q.tableTags, i))
    ensures HighestEnabled(p, banks, q.hitBank, q'.hitBank)
    ensures q'.hitBank != q.hitBank ==> HighestEnabled(p, banks - {q'.hitBank}, q.hitBank, q'.altBank)
    ensures q'.hitBank == q.hitBank ==> q'.altBank == q.altBank
  {
    if q.altBank > 0 {
      assert Matches(p, t', q'.tableIndices, q'.tableTags, q.altBank);
    }
    if q.hitBank > 0 {
      assert Matches(p, t', q'.tableIndices, q'.tableTags, q.hitBank);
    }
    if q'.hitBank > 0 {
      assert Matches(p, t', q'.tableIndices, q'.tableTags, q'.hitBank);
    }
    if q'.altBank > 0 {
      assert Matches(p, t', q'.tableIndices, q'.tableTags, q'.altBank);
    }
    forall k | k in banks && p.noSkip[k]
      ensures k <= q'.hitBank && (k < q'.hitBank ==> k <= q'.altBank)
    {
      assert Matches(p, t', q'.tableIndices, q'.tableTags, k);
    }
  }

  /** Signed counters in two's complement of their width, useful counters below 2^tagTableUBits. */
  predicate EntryInRange(p: Params, e: TageEntry)
    requires p.Valid()
  {
    && -(Pow2(p.tagTableCounterBits - 1) as int) <= e.ctr < Pow2(p.tagTableCounterBits - 1)
    && e.u < Pow2(p.tagTableUBits)
  }

  predicate CountersInRange(p: Params, t: Tables)
    requires p.Valid() && t.Sized(p)
  {
    && (forall i, j | 1 <= i <= p.nHistoryTables && 0 <= j < |t.gtable[i]| :: EntryInRange(p, t.gtable[i][j]))
    && -(Pow2(p.useAltOnNaBits - 1) as int) <= t.useAltPredForNewlyAllocated < Pow2(p.useAltOnNaBits - 1)
  }

  lemma PutInRange(p: Params, t: Tables, i: nat, j: nat, e: TageEntry)
    requires p.Valid() && t.Sized(p) && CountersInRange(p, t) && EntryInRange(p, e)
    requires 1 <= i <= p.nHistoryTables && j < |t.gtable[i]|
    ensures t.Put(i, j, e).Sized(p) && CountersInRange(p, t.Put(i, j, e))
  {
  }

  lemma {:induction false} AllocateInRange(p: Params, t: Tables, q: Lookup, taken: bool, i: nat, budget: nat)
    requires p.Valid() && t.Sized(p) && q.Sized(p) && 1 <= i && CountersInRange(p, t)
    ensures CountersInRange(p, Allocate(p, t, q, taken, i, budget))
    decreases p.nHistoryTables + 1 - i
  {
    if i <= p.nHistoryTables && budget > 0 {
      var e := t.gtable[i][q.tableIndices[i]];
      assert EntryInRange(p, e);
      if e.u == 0 {
        var e' := TageEntry(if taken then 0 else -1, q.tableTags[i], e.u);
        PutInRange(p, t, i, q.tableIndices[i], e');
        AllocateInRange(p, t.Put(i, q.tableIndices[i], e'), q, taken, i + 1, budget - 1);
      } else {
        AllocateInRange(p, t, q, taken, i + 1, budget);
      }
    }
  }

  lemma AllocateForInRange(p: Params, t: Tables, q: Lookup, taken: bool, nrand: nat)
    requires p.Valid() && t.Sized(p) && q.Sized(p) && q.hitBank < p.nHistoryTables && CountersInRange(p, t)
    ensures CountersInRange(p, AllocateFor(p, t, q, taken, nrand))
  {
    var x := FirstCandidate(p, q.hitBank, nrand);
    var e := t.gtable[x][q.tableIndices[x]];
    assert EntryInRange(p, e);
    PutInRange(p, t, x, q.tableIndices[x], e.(u := 0));
    var t0 := if SomeUseless(p, t, q, q.hitBank) then t else t.Put(x, q.tableIndices[x], e.(u := 0));
    AllocateInRange(p, t0, q, taken, x, p.maxNumAlloc);
  }

  lemma TickInRange(p: Params, t: Tables)
    requires p.Valid() && t.Sized(p) && CountersInRange(p, t)
    ensures CountersInRange(p, Tick(p, t))
  {
    forall i, j | 1 <= i <= p.nHistoryTables && 0 <= j < |t.gtable[i]|
      ensures EntryInRange(p, Tick(p, t).gtable[i][j])
    {
      assert EntryInRange(p, t.gtable[i][j]);
    }
  }

  lemma TageUpdateInRange(p: Params, t: Tables, q: Lookup, taken: bool)
    requires p.Valid() && t.Sized(p) && q.InRange(p) && CountersInRange(p, t)
    ensures CountersInRange(p, TageUpdate(p, t, q, taken))
  {
    if q.hitBank > 0 {
      var e := t.gtable[q.hitBank][q.hitBankIndex];
      assert EntryInRange(p, e);
      var e1 := e.(ctr := CtrUpdate(e.ctr, taken, p.tagTableCounterBits));
      PutInRange(p, t, q.hitBank, q.hitBankIndex, e1);
      var t1 := t.Put(q.hitBank, q.hitBankIndex, e1);
      var t2 := t1;
      if e.u == 0 {
        if q.altBank > 0 {
          var a := t1.gtable[q.altBank][q.altBankIndex];
          assert EntryInRange(p, a);
          var a1 := a.(ctr := CtrUpdate(a.ctr, taken, p.tagTableCounterBits));
          PutInRange(p, t1, q.altBank, q.altBankIndex, a1);
          t2 := t1.Put(q.altBank, q.altBankIndex, a1);
        } else {
          t2 := BaseUpdate(p, t1, q.bimodalIndex, taken);
        }
      }
      PutInRange(p, t2, q.hitBank, q.hitBankIndex,
                 e1.(u := UnsignedCtrUpdate(e1.u, q.tagePred == taken, p.tagTableUBits)));
    }
  }

  /** No update leaves a counter outside the range of its width. */
  lemma UpdateInRange(p: Params, t: Tables, q: Lookup, taken: bool, nrand: nat)
    requires p.Valid() && t.Sized(p) && q.InRange(p) && CountersInRange(p, t)
    ensures CountersInRange(p, CondBranchUpdate(p, t, q, taken, nrand))
  {
    var t0 := ChoiceTrained(p, t, q, taken);
    assert CountersInRange(p, t0);
    var t1 := if WantsAllocation(p, q, taken) then AllocateFor(p, t0, q, taken, nrand) else t0;
    if WantsAllocation(p, q, taken) {
      AllocateForInRange(p, t0, q, taken, nrand);
    }
    TickInRange(p, t1);
    TageUpdateInRange(p, Tick(p, t1), q, taken);
  }

  datatype Update = Update(q: Lookup, taken: bool, nrand: nat)

  /** ts are the tables before, between and after the updates us. */
  ghost predicate IsRun(p: Params, ts: seq<Tables>, us: seq<Update>)
    requires p.Valid()
  {
    && |ts| == |us| + 1
    && (forall k | 0 <= k < |ts| :: ts[k].Sized(p))
    && (forall k | 0 <= k < |us| :: us[k].q.InRange(p))
    && (forall k | 0 <= k < |us| :: Follows(p, ts, us, k))
  }

  /** The tables after update k are those before it, updated. */
  ghost predicate Follows(p: Params, ts: seq<Tables>, us: seq<Update>, k: nat)
    requires p.Valid() && k < |us| < |ts| && ts[k].Sized(p) && us[k].q.InRange(p)
  {
    ts[k + 1] == CondBranchUpdate(p, ts[k], us[k].q, us[k].taken, us[k].nrand)
  }

  /** Over every run the counters stay in range. */
  lemma {:induction false} RunInRange(p: Params, ts: seq<Tables>, us: seq<Update>, k: nat)
    requires p.Valid() && IsRun(p, ts, us) && k <= |us|
    requires CountersInRange(p, ts[0])
    ensures CountersInRange(p, ts[k])
  {
    if k > 0 {
      RunInRange(p, ts, us, k - 1);
      assert Follows(p, ts, us, k - 1);
      var u := us[k - 1];
      UpdateInRange(p, ts[k - 1], u.q, u.taken, u.nrand);
    }
  }

  /** Allocation leaves the tables up to the hit alone. */
  lemma {:induction false} AllocateAbove(p: Params, t: Tables, q: Lookup, taken: bool, i: nat, budget: nat, k: nat)
    requires p.Valid() && t.Sized(p) && q.Sized(p) && 1 <= k < i
    ensures k <= p.nHistoryTables ==> Allocate(p, t, q, taken, i, budget).gtable[k] == t.gtable[k]
    decreases p.nHistoryTables + 1 - i
  {
    if i <= p.nHistoryTables && budget > 0 {
      var e := t.gtable[i][q.tableIndices[i]];
      if e.u == 0 {
        var e' := TageEntry(if taken then 0 else -1, q.tableTags[i], e.u);
        AllocateAbove(p, t.Put(i, q.tableIndices[i], e'), q, taken, i + 1, budget - 1, k);
      } else {
        AllocateAbove(p, t, q, taken, i + 1, budget, k);
      }
    }
  }

  /** Whatever else an update does, the counter of the hit entry takes one step towards the outcome. */
  lemma HitStep(p: Params, t: Tables, q: Lookup, taken: bool, nrand: nat)
    requires p.Valid() && t.Sized(p) && q.InRange(p) && q.hitBank > 0
    ensures CondBranchUpdate(p, t, q, taken, nrand).gtable[q.hitBank][q.hitBankIndex].ctr
         == CtrUpdate(t.gtable[q.hitBank][q.hitBankIndex].ctr, taken, p.tagTableCounterBits)
  {
    var t0 := ChoiceTrained(p, t, q, taken);
    var t1 := if WantsAllocation(p, q, taken) then AllocateFor(p, t0, q, taken, nrand) else t0;
    if WantsAllocation(p, q, taken) {
      var x := FirstCandidate(p, q.hitBank, nrand);
      AllocateAbove(p, t0, q, taken, x, p.maxNumAlloc, q.hitBank);
      AllocateAbove(p, t0.Put(x, q.tableIndices[x], t0.gtable[x][q.tableIndices[x]].(u := 0)), q, taken, x,
                    p.maxNumAlloc, q.hitBank);
    }
    TickKeeps(p, t1, q.hitBank, q.hitBankIndex);
    TrainedHit(p, Tick(p, t1), q, taken);
  }

  lemma TrainedHit(p: Params, t: Tables, q: Lookup, taken: bool)
    requires p.Valid() && t.Sized(p) && q.InRange(p) && q.hitBank > 0
    ensures TageUpdate(p, t, q, taken).gtable[q.hitBank][q.hitBankIndex].ctr
         == CtrUpdate(t.gtable[q.hitBank][q.hitBankIndex].ctr, taken, p.tagTableCounterBits)
  {
  }

  /** A saturating counter has come k steps from start towards the outcome, or as far as it can. */
  predicate Moved(start: int, now: int, taken: bool, bits: nat, k: nat)
    requires bits > 0
  {
    var half: int := Pow2(bits - 1);
    -half <= now < half && if taken then now >= start + k || now == half - 1 else now <= start - k || now == -half
  }

  lemma MovedOnce(start: int, now: int, taken: bool, bits: nat, k: nat)
    requires bits > 0 && Moved(start, now, taken, bits, k)
    ensures Moved(start, CtrUpdate(now, taken, bits), taken, bits, k + 1)
  {
  }

  /** Every one of the updates hits entry j of table i and has this outcome. */
  predicate AllHit(us: seq<Update>, i: nat, j: nat, taken: bool) {
    forall n | 0 <= n < |us| :: us[n].q.hitBank == i && us[n].q.hitBankIndex == j && us[n].taken == taken
  }

  lemma {:induction false} HitsMove(p: Params, ts: seq<Tables>, us: seq<Update>, i: nat, j: nat, taken: bool, k: nat)
    requires p.Valid() && IsRun(p, ts, us) && k <= |us| && 1 <= i <= p.nHistoryTables
    requires j < Pow2(p.logTagTableSizes[i]) && EntryInRange(p, ts[0].gtable[i][j]) && AllHit(us, i, j, taken)
    ensures Moved(ts[0].gtable[i][j].ctr, ts[k].gtable[i][j].ctr, taken, p.tagTableCounterBits, k)
  {
    if k > 0 {
      HitsMove(p, ts, us, i, j, taken, k - 1);
      assert Follows(p, ts, us, k - 1);
      var u := us[k - 1];
      HitStep(p, ts[k - 1], u.q, u.taken, u.nrand);
      MovedOnce(ts[0].gtable[i][j].ctr, ts[k - 1].gtable[i][j].ctr, taken, p.tagTableCounterBits, k - 1);
    }
  }

  /**
   The provider learns: 2^(tagTableCounterBits - 1) updates that hit the same entry with the same
   outcome make it predict that outcome, wherever its counter started.
   */
  lemma {:induction false} ProviderLearns(p: Params, ts: seq<Tables>, us: seq<Update>, i: nat, j: nat, taken: bool)
    requires p.Valid() && IsRun(p, ts, us) && |us| >= Pow2(p.tagTableCounterBits - 1)
    requires 1 <= i <= p.nHistoryTables && j < Pow2(p.logTagTableSizes[i])
    requires EntryInRange(p, ts[0].gtable[i][j]) && AllHit(us, i, j, taken)
    ensures (ts[|us|].gtable[i][j].ctr >= 0) == taken
  {
    HitsMove(p, ts, us, i, j, taken, |us|);
  }

  /**
   The bimodal table learns: two updates with the same outcome make an entry predict it; its
   neighbours, which share its hysteresis bit, keep their predictions.
   */
  lemma {:induction false} BimodalLearns(p: Params, t: Tables, index: nat, taken: bool, other: nat)
    requires p.Valid() && t.Sized(p) && index < |t.btablePrediction| && other < |t.btablePrediction|
    ensures var t' := BaseUpdate(p, BaseUpdate(p, t, index, taken), index, taken);
      t'.btablePrediction[other] == if other == index then taken else t.btablePrediction[other]
  {
    HysteresisInRange(index, p.logTagTableSizes[0], p.logRatioBiModalHystEntries);
  }

  /** The update counts the entry as having beaten the alternate prediction. */
  predicate Credits(u: Update, i: nat, j: nat) {
    && u.q.hitBank == i && u.q.hitBankIndex == j
    && u.q.tagePred != u.q.altTaken && u.q.tagePred == u.taken
  }

  /** How many of the n updates after counter value c age the useful bits. */
  function ResetCount(p: Params, c: nat, n: nat): (r: nat)
    requires p.Valid()
  {
    if n == 0 then 0 else ResetCount(p, c, n - 1) + if ResetDue(p, c + n) then 1 else 0
  }

  lemma NextQuotient(x: nat, d: nat)
    requires d > 0
    ensures (x + 1) / d == x / d + if (x + 1) % d == 0 then 1 else 0
  {
    var q, r := x / d, x % d;
    if r == d - 1 {
      assert (q + 1) * d == q * d + d;
      DivisionIs(x + 1, d, q + 1, 0);
    } else {
      DivisionIs(x + 1, d, q, r + 1);
    }
  }

  lemma {:induction false} ResetsAreQuotients(p: Params, c: nat, n: nat)
    requires p.Valid()
    ensures ResetCount(p, c, n) == (c + n) / Pow2(p.logUResetPeriod) - c / Pow2(p.logUResetPeriod)
  {
    if n > 0 {
      ResetsAreQuotients(p, c, n - 1);
      NextQuotient(c + n - 1, Pow2(p.logUResetPeriod));
    }
  }

  lemma QuotientShift(c: nat, k: nat, d: nat)
    requires d > 0
    ensures (c + k * d) / d == c / d + k
  {
    assert (c / d + k) * d == (c / d) * d + k * d;
    DivisionIs(c + k * d, d, c / d + k, c % d);
  }

  /** Any k periods of consecutive updates contain exactly k resets, wherever they start. */
  lemma {:induction false} ResetsPerPeriod(p: Params, c: nat, k: nat)
    requires p.Valid()
    ensures ResetCount(p, c, k * Pow2(p.logUResetPeriod)) == k
  {
    ResetsAreQuotients(p, c, k * Pow2(p.logUResetPeriod));
    QuotientShift(c, k, Pow2(p.logUResetPeriod));
  }

  lemma {:induction false} ShrOnce(x: nat, n: nat)
    ensures Shr(x, n) / 2 == Shr(x, n + 1)
  {
    if n > 0 {
      ShrOnce(x / 2, n - 1);
    }
  }

  lemma {:induction false} AllocateOnlyUseless(p: Params, t: Tables, q: Lookup, taken: bool, i: nat, budget: nat,
                                               k: nat, j: nat)
    requires p.Valid() && t.Sized(p) && q.Sized(p) && 1 <= i
    requires 1 <= k <= p.nHistoryTables && j < |t.gtable[k]|
    ensures Allocate(p, t, q, taken, i, budget).gtable[k][j].u == t.gtable[k][j].u
    decreases p.nHistoryTables + 1 - i
  {
    if i <= p.nHistoryTables && budget > 0 {
      var e := t.gtable[i][q.tableIndices[i]];
      if e.u == 0 {
        var e' := TageEntry(if taken then 0 else -1, q.tableTags[i], e.u);
        AllocateOnlyUseless(p, t.Put(i, q.tableIndices[i], e'), q, taken, i + 1, budget - 1, k, j);
      } else {
        AllocateOnlyUseless(p, t, q, taken, i + 1, budget, k, j);
      }
    }
  }

  function Useful(p: Params, t: Tables, i: nat, j: nat): nat
    requires p.Valid() && t.Sized(p) && 1 <= i <= p.nHistoryTables && j < Pow2(p.logTagTableSizes[i])
  {
    t.gtable[i][j].u
  }

  /** From t to t' one update was counted and the entry's useful counter did not rise, or was halved. */
  predicate Lowered(p: Params, t: Tables, t': Tables, i: nat, j: nat)
    requires p.Valid() && t.Sized(p) && t'.Sized(p)
    requires 1 <= i <= p.nHistoryTables && j < Pow2(p.logTagTableSizes[i])
  {
    && t'.tCounter == t.tCounter + 1
    && Useful(p, t', i, j) <= if ResetDue(p, t.tCounter + 1) then Useful(p, t, i, j) / 2 else Useful(p, t, i, j)
  }

  /** An update that does not credit an entry does not raise its useful counter. */
  lemma UncreditedStep(p: Params, t: Tables, u: Update, i: nat, j: nat)
    requires p.Valid() && t.Sized(p) && u.q.InRange(p)
    requires 1 <= i <= p.nHistoryTables && j < Pow2(p.logTagTableSizes[i]) && !Credits(u, i, j)
    ensures Lowered(p, t, CondBranchUpdate(p, t, u.q, u.taken, u.nrand), i, j)
  {
    var t0 := ChoiceTrained(p, t, u.q, u.taken);
    var t1 := if WantsAllocation(p, u.q, u.taken) then AllocateFor(p, t0, u.q, u.taken, u.nrand) else t0;
    if WantsAllocation(p, u.q, u.taken) {
      AllocationLowers(p, t0, u.q, u.taken, u.nrand, i, j);
    }
    assert t1.gtable[i][j].u <= t.gtable[i][j].u && t1.tCounter == t.tCounter;
    TickLowers(p, t1, i, j);
    TrainingLowers(p, Tick(p, t1), u, i, j);
  }

  lemma TickLowers(p: Params, t: Tables, i: nat, j: nat)
    requires p.Valid() && t.Sized(p) && 1 <= i <= p.nHistoryTables && j < |t.gtable[i]|
    ensures Lowered(p, t, Tick(p, t), i, j)
  {
  }

  lemma AllocationLowers(p: Params, t: Tables, q: Lookup, taken: bool, nrand: nat, i: nat, j: nat)
    requires p.Valid() && t.Sized(p) && q.Sized(p) && q.hitBank < p.nHistoryTables
    requires 1 <= i <= p.nHistoryTables && j < |t.gtable[i]|
    ensures AllocateFor(p, t, q, taken, nrand).gtable[i][j].u <= t.gtable[i][j].u
    ensures AllocateFor(p, t, q, taken, nrand).tCounter == t.tCounter
  {
    var x := FirstCandidate(p, q.hitBank, nrand);
    var t0 := if SomeUseless(p, t, q, q.hitBank) then t
              else t.Put(x, q.tableIndices[x], t.gtable[x][q.tableIndices[x]].(u := 0));
    AllocateOnlyUseless(p, t0, q, taken, x, p.maxNumAlloc, i, j);
    AllocateKeepsCounter(p, t0, q, taken, x, p.maxNumAlloc);
  }

  lemma {:induction false} AllocateKeepsCounter(p: Params, t: Tables, q: Lookup, taken: bool, i: nat, budget: nat)
    requires p.Valid() && t.Sized(p) && q.Sized(p) && 1 <= i
    ensures Allocate(p, t, q, taken, i, budget).tCounter == t.tCounter
    decreases p.nHistoryTables + 1 - i
  {
    if i <= p.nHistoryTables && budget > 0 {
      var e := t.gtable[i][q.tableIndices[i]];
      if e.u == 0 {
        var e' := TageEntry(if taken then 0 else -1, q.tableTags[i], e.u);
        AllocateKeepsCounter(p, t.Put(i, q.tableIndices[i], e'), q, taken, i + 1, budget - 1);
      } else {
        AllocateKeepsCounter(p, t, q, taken, i + 1, budget);
      }
    }
  }

  lemma TrainingLowers(p: Params, t: Tables, u: Update, i: nat, j: nat)
    requires p.Valid() && t.Sized(p) && u.q.InRange(p)
    requires 1 <= i <= p.nHistoryTables && j < |t.gtable[i]| && !Credits(u, i, j)
    ensures TageUpdate(p, t, u.q, u.taken).gtable[i][j].u <= t.gtable[i][j].u
    ensures TageUpdate(p, t, u.q, u.taken).tCounter == t.tCounter
  {
  }

  /** A counter that is halved at every reset and never raised is bounded by the shifted start. */
  lemma {:induction false} LoweredRun(p: Params, ts: seq<Tables>, k: nat, i: nat, j: nat)
    requires p.Valid() && k < |ts| && (forall n | 0 <= n < |ts| :: ts[n].Sized(p))
    requires 1 <= i <= p.nHistoryTables && j < Pow2(p.logTagTableSizes[i])
    requires forall n | 0 <= n < |ts| - 1 :: Lowered(p, ts[n], ts[n + 1], i, j)
    ensures ts[k].tCounter == ts[0].tCounter + k
    ensures Useful(p, ts[k], i, j) <= Shr(Useful(p, ts[0], i, j), ResetCount(p, ts[0].tCounter, k))
  {
    if k > 0 {
      LoweredRun(p, ts, k - 1, i, j);
      assert Lowered(p, ts[k - 1], ts[k - 1 + 1], i, j);
      ShrOnce(Useful(p, ts[0], i, j), ResetCount(p, ts[0].tCounter, k - 1));
    }
  }

  /**
   Useful bits age out: an entry that no update credits during 2^(logUResetPeriod + 1) consecutive
   updates is useless, and so free to be replaced, at their end. Those updates contain two resets.
   */
  lemma {:induction false} UsefulBitsAgeOut(p: Params, ts: seq<Tables>, us: seq<Update>, i: nat, j: nat)
    requires p.Valid() && IsRun(p, ts, us) && CountersInRange(p, ts[0])
    requires 1 <= i <= p.nHistoryTables && j < Pow2(p.logTagTableSizes[i])
    requires |us| == Pow2(p.logUResetPeriod + 1)
    requires forall u | u in us :: !Credits(u, i, j)
    ensures ResetCount(p, ts[0].tCounter, |us|) == 2
    ensures Useful(p, ts[|us|], i, j) == 0
  {
    forall n | 0 <= n < |ts| - 1
      ensures Lowered(p, ts[n], ts[n + 1], i, j)
    {
      assert us[n] in us && Follows(p, ts, us, n);
      UncreditedStep(p, ts[n], us[n], i, j);
    }
    ResetsPerPeriod(p, ts[0].tCounter, 2);
    LoweredRun(p, ts, |us|, i, j);
    TwoShifts(p, ts[0].gtable[i][j]);
  }

  lemma TwoShifts(p: Params, e: TageEntry)
    requires p.Valid() && EntryInRange(p, e)
    ensures Shr(e.u, 2) == 0
  {
    Pow2Monotone(p.tagTableUBits, 2);
    assert Pow2(2) == 4;
    assert Shr(e.u, 2) == Shr(e.u / 2, 1) == e.u / 2 / 2;
  }

  /**
   A prediction is a function of the tables, the branch and the architectural history: two look-ups
   that agree on these agree on everything they find. So a squash gives back the predictions, too.
   */
  lemma {:induction false} PredictionFollowsHistory(p: Params, t: Tables, q: Lookup, q': Lookup,
                                                    h: Outcomes, path: Outcomes, pc: nat)
    requires p.Valid() && t.Sized(p) && q.Sized(p) && q'.Sized(p)
    requires IndexedFor(p, q, h, path, pc) && IndexedFor(p, q', h, path, pc)
    requires IsPrediction(p, t, q) && IsPrediction(p, t, q')
    ensures q'.hitBank == q.hitBank && q'.altBank == q.altBank
    ensures q'.altTaken == q.altTaken && q'.longestMatchPred == q.longestMatchPred
    ensures q'.tagePred == q.tagePred
    ensures q.hitBank > 0 ==> q'.hitBankIndex == q.hitBankIndex && q'.pseudoNewAlloc == q.pseudoNewAlloc
  {
    SameIndices(p, q, q', h, path, pc);
    SameBank(p, t, q, q', p.nHistoryTables, q.hitBank, q'.hitBank);
    SameBank(p, t, q, q', if q.hitBank > 0 then q.hitBank - 1 else 0, q.altBank, q'.altBank);
    SameChoice(p, t, q, q');
  }

  lemma SameBank(p: Params, t: Tables, q: Lookup, q': Lookup, top: nat, b: nat, b': nat)
    requires p.Valid() && t.Sized(p) && q.Sized(p) && q'.Sized(p) && top <= p.nHistoryTables
    requires SameBranch(p, q, q')
    requires LongestMatch(p, t, q, top, b) && LongestMatch(p, t, q', top, b')
    ensures b == b'
  {
    assert b > 0 ==> Matches(p, t, q'.tableIndices, q'.tableTags, b);
    assert b' > 0 ==> Matches(p, t, q.tableIndices, q.tableTags, b');
  }

  /** Look-ups that find the same entries predict the same. */
  lemma SameChoice(p: Params, t: Tables, q: Lookup, q': Lookup)
    requires p.Valid() && t.Sized(p) && q.Sized(p) && q'.Sized(p)
    requires SameBranch(p, q, q') && q'.bimodalIndex == q.bimodalIndex
    requires IsPrediction(p, t, q) && IsPrediction(p, t, q')
    requires q'.hitBank == q.hitBank && q'.altBank == q.altBank
    ensures q'.altTaken == q.altTaken && q'.longestMatchPred == q.longestMatchPred
    ensures q'.tagePred == q.tagePred
    ensures q.hitBank > 0 ==> q'.hitBankIndex == q.hitBankIndex && q'.pseudoNewAlloc == q.pseudoNewAlloc
  {
  }

  /** The look-up q' finds the entry that updating after the look-up q allocated, if its table is enabled. */
  predicate FindsAllocation(p: Params, t: Tables, q: Lookup, taken: bool, nrand: nat, q': Lookup)
    requires p.Valid() && t.Sized(p) && q.InRange(p)
  {
    var bank := AllocatedBank(p, t, q, taken, nrand);
    bank > 0 ==>
      && (q'.hitBank == bank <==> p.noSkip[bank])
      && (p.noSkip[bank] ==> q'.altBank == q.hitBank && q'.longestMatchPred == taken && q'.pseudoNewAlloc)
  }

  /**
   Predict a branch, update with its outcome, and predict it again with the histories unchanged: the
   second prediction finds the entry that the update allocated.
   */
  lemma {:induction false} RetryFindsAllocation(p: Params, t: Tables, q: Lookup, taken: bool, nrand: nat,
                                                q': Lookup, h: Outcomes, path: Outcomes, pc: nat)
    requires p.Valid() && p.maxNumAlloc == 1 && t.Sized(p) && q.InRange(p) && q'.Sized(p)
    requires IndexedFor(p, q, h, path, pc) && IndexedFor(p, q', h, path, pc)
    requires IsPrediction(p, t, q) && IsPrediction(p, CondBranchUpdate(p, t, q, taken, nrand), q')
    ensures FindsAllocation(p, t, q, taken, nrand, q')
  {
    SameIndices(p, q, q', h, path, pc);
    var bank := AllocatedBank(p, t, q, taken, nrand);
    if bank > 0 {
      AllocationIsSeen(p, t, q, taken, nrand, q');
    }
  }
}

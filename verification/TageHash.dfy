/**
 The hashes that select a branch's entries, bit by bit: which bits of the address, of the branch history
 and of the path history each bit of an index and of a tag depends on.
 */
module TageHashes {
  import opened Bits
  import opened History
  import opened TageParams
  import opened TagePredictor
  import opened TageTables
  import opened ThreadHistories

  /** Bit k of the address of the branch in units of instructions. */
  predicate PcBit(p: Params, pc: nat, k: nat) {
    Bit(pc, p.instShiftAmt + k)
  }

  /** The bimodal entry is the instruction number modulo the size of the table. */
  lemma BimodalByDivision(p: Params, q: Lookup, h: Outcomes, path: Outcomes, pc: nat)
    requires p.Valid() && IndexedFor(p, q, h, path, pc)
    ensures q.bimodalIndex == pc / Pow2(p.instShiftAmt) % Pow2(p.logTagTableSizes[0])
  {
    ShrIsQuotient(pc, p.instShiftAmt);
    LowIsRemainder(Shr(pc, p.instShiftAmt), p.logTagTableSizes[0]);
  }

  lemma Hashed(p: Params, q: Lookup, h: Outcomes, path: Outcomes, pc: nat, i: nat)
    requires p.Valid() && IndexedFor(p, q, h, path, pc) && 1 <= i <= p.nHistoryTables
    ensures var length, width := p.histLengths[i], p.tagTableTagWidths[i];
      q.tableTags[i] == GTag(p, Fold(h, length, width), Fold(h, length, width - 1), pc, i)
    ensures q.tableIndices[i]
         == GIndex(p, Fold(h, p.histLengths[i], p.logTagTableSizes[i]), PathValue(path, p.pathHistBits), pc, i)
  {
    assert IndexedAt(p, q.tableIndices[i], q.tableTags[i], h, path, pc, i);
  }

  /** Parity of three and of four bits. */
  lemma XorThreeBit(a: nat, b: nat, c: nat, k: nat)
    ensures Bit(Xor(Xor(a, b), c), k) == (Bit(a, k) != (Bit(b, k) != Bit(c, k)))
  {
    XorBit(Xor(a, b), c, k);
    XorBit(a, b, k);
  }

  lemma XorFourBit(a: nat, b: nat, c: nat, d: nat, k: nat)
    ensures Bit(Xor(Xor(Xor(a, b), c), d), k) == ((Bit(a, k) != Bit(b, k)) != (Bit(c, k) != Bit(d, k)))
  {
    XorBit(Xor(Xor(a, b), c), d, k);
    XorBit(Xor(a, b), c, k);
    XorBit(a, b, k);
  }

  /**
   The tag of table i: the address, folded history of the tag's width, and folded history of one bit less,
   moved up by one.
   */
  lemma {:induction false} TagBit(p: Params, q: Lookup, h: Outcomes, path: Outcomes, pc: nat, i: nat, k: nat)
    requires p.Valid() && IndexedFor(p, q, h, path, pc) && 1 <= i <= p.nHistoryTables
    ensures var length, width := p.histLengths[i], p.tagTableTagWidths[i];
      Bit(q.tableTags[i], k)
      == (k < width && (PcBit(p, pc, k) != (FoldBit(h, length, width, k)
                                            != (k > 0 && FoldBit(h, length, width - 1, k - 1)))))
  {
    var length, width := p.histLengths[i], p.tagTableTagWidths[i];
    Hashed(p, q, h, path, pc, i);
    FoldHasFoldBits(h, length, width, k);
    if k > 0 {
      FoldHasFoldBits(h, length, width - 1, k - 1);
    }
    TagBitFrom(p, q.tableTags[i], Fold(h, length, width), Fold(h, length, width - 1), pc, i, k,
               FoldBit(h, length, width, k), k > 0 && FoldBit(h, length, width - 1, k - 1));
  }

  lemma TagBitFrom(p: Params, tag: nat, folded0: nat, folded1: nat, pc: nat, i: nat, k: nat, b0: bool, b1: bool)
    requires p.Valid() && 1 <= i <= p.nHistoryTables && tag == GTag(p, folded0, folded1, pc, i)
    requires b0 == Bit(folded0, k) && b1 == (k > 0 && Bit(folded1, k - 1))
    ensures Bit(tag, k) == (k < p.tagTableTagWidths[i] && (PcBit(p, pc, k) != (b0 != b1)))
  {
    RawTagBit(p, folded0, folded1, pc, i, k);
  }

  lemma RawTagBit(p: Params, folded0: nat, folded1: nat, pc: nat, i: nat, k: nat)
    requires p.Valid() && 1 <= i <= p.nHistoryTables
    ensures Bit(GTag(p, folded0, folded1, pc, i), k)
         == (k < p.tagTableTagWidths[i]
             && (PcBit(p, pc, k) != (Bit(folded0, k) != (k > 0 && Bit(folded1, k - 1)))))
  {
    var a := Shr(pc, p.instShiftAmt);
    LowBit(Xor(Xor(a, folded0), Shl(folded1, 1)), p.tagTableTagWidths[i], k);
    XorThreeBit(a, folded0, Shl(folded1, 1), k);
    ShrBit(pc, p.instShiftAmt, k);
    ShlBit(folded1, 1, k);
  }

  /** How many path bits enter the index of table i. */
  function PathLength(p: Params, i: nat): nat
    requires p.Valid() && 1 <= i <= p.nHistoryTables
  {
    if p.histLengths[i] < p.pathHistBits then p.histLengths[i] else p.pathHistBits
  }

  /**
   The index of table i: the address, the address again from bit log - i + 1 on, folded history of the
   index's width, and the mixed path history. Of the address 32 bits are used.
   */
  lemma {:induction false} IndexBit(p: Params, q: Lookup, h: Outcomes, path: Outcomes, pc: nat, i: nat, k: nat)
    requires p.Valid() && IndexedFor(p, q, h, path, pc) && 1 <= i <= p.nHistoryTables
    ensures var log := p.logTagTableSizes[i];
      Bit(q.tableIndices[i], k)
      == (k < log
          && (PcBit(p, pc, k) != (k + log - i + 1 < 32 && PcBit(p, pc, k + log - i + 1)))
             != (FoldBit(h, p.histLengths[i], log, k)
                 != Bit(F(p, PathValue(path, p.pathHistBits), PathLength(p, i), i), k)))
  {
    Hashed(p, q, h, path, pc, i);
    RawIndexBit(p, Fold(h, p.histLengths[i], p.logTagTableSizes[i]), PathValue(path, p.pathHistBits), pc, i, k);
    FoldHasFoldBits(h, p.histLengths[i], p.logTagTableSizes[i], k);
  }

  lemma RawIndexBit(p: Params, folded: nat, path: nat, pc: nat, i: nat, k: nat)
    requires p.Valid() && 1 <= i <= p.nHistoryTables
    ensures var log := p.logTagTableSizes[i];
      Bit(GIndex(p, folded, path, pc, i), k)
      == (k < log
          && (PcBit(p, pc, k) != (k + log - i + 1 < 32 && PcBit(p, pc, k + log - i + 1)))
             != (Bit(folded, k) != Bit(F(p, path, PathLength(p, i), i), k)))
  {
    var log, a := p.logTagTableSizes[i], Low(Shr(pc, p.instShiftAmt), 32);
    var a', f := Shr(a, log - i + 1), F(p, path, PathLength(p, i), i);
    LowBit(Xor(Xor(Xor(a, a'), folded), f), log, k);
    XorFourBit(a, a', folded, f, k);
    ShrBit(a, log - i + 1, k);
    AddressBit(p, pc, k);
    AddressBit(p, pc, log - i + 1 + k);
  }

  lemma AddressBit(p: Params, pc: nat, k: nat)
    ensures Bit(Low(Shr(pc, p.instShiftAmt), 32), k) == (k < 32 && PcBit(p, pc, k))
  {
    LowBit(Shr(pc, p.instShiftAmt), 32, k);
    ShrBit(pc, p.instShiftAmt, k);
  }

  // The path hash.

  /** x turned left by `bank` places in a word of `log` bits, if it fits one. */
  function Turned(x: nat, bank: nat, log: nat): nat
    requires bank <= log
  {
    Low(Shl(x, bank), log) + Shr(x, log - bank)
  }

  /** What it is for every x: bits that leave the word are added at its lower end. */
  lemma TurnedByDivision(x: nat, bank: nat, log: nat)
    requires bank <= log
    ensures Turned(x, bank, log) == Product(x, Pow2(bank)) % Pow2(log) + x / Pow2(log - bank)
  {
    ShlIsProduct(x, bank);
    LowIsRemainder(Shl(x, bank), log);
    ShrIsQuotient(x, log - bank);
  }

  function Product(x: nat, y: nat): nat {
    x * y
  }

  /** The recent word of the path and the older word turned once, added without carry and turned. */
  lemma PathHashParts(p: Params, path: nat, size: nat, bank: nat)
    requires p.Valid() && 1 <= bank <= p.nHistoryTables
    ensures var log, a := p.logTagTableSizes[bank], Low(path, size);
      F(p, path, size, bank) == Turned(Xor(Low(a, log), Turned(Shr(a, log), bank, log)), bank, log)
  {
  }

  /** The bit that comes to place k when a word of `log` bits is turned left by `bank` places. */
  function Origin(k: nat, bank: nat, log: nat): (o: nat)
    requires k < log && bank <= log
    ensures o < log
  {
    if k < bank then k + log - bank else k - bank
  }

  lemma {:induction false} TurnedBit(x: nat, bank: nat, log: nat, k: nat)
    requires bank <= log && x < Pow2(log)
    ensures Bit(Turned(x, bank, log), k) == (k < log && Bit(x, Origin(k, bank, log)))
  {
    var low, high := Low(x, log - bank), Shr(x, log - bank);
    ShrNarrow(x, log - bank, bank);
    forall i: nat
      ensures Bit(Low(Shl(x, bank), log), i) == Bit(Shl(low, bank), i)
    {
      LowBit(Shl(x, bank), log, i);
      ShlBit(x, bank, i);
      ShlBit(low, bank, i);
      if i >= bank {
        LowBit(x, log - bank, i - bank);
      }
    }
    SameAllBits(Low(Shl(x, bank), log), Shl(low, bank));
    OrIsSum(low, high, bank);
    OrBit(Shl(low, bank), high, k);
    ShlBit(low, bank, k);
    ShrBit(x, log - bank, k);
    if k >= bank {
      LowBit(x, log - bank, k - bank);
      HighBit(high, bank, k);
    }
  }

  lemma {:induction false} TurnedFits(x: nat, bank: nat, log: nat)
    requires bank <= log && x < Pow2(log)
    ensures Turned(x, bank, log) < Pow2(log)
  {
    forall i: nat
      ensures Bit(Low(Turned(x, bank, log), log), i) == Bit(Turned(x, bank, log), i)
    {
      LowBit(Turned(x, bank, log), log, i);
      TurnedBit(x, bank, log, i);
    }
    SameAllBits(Low(Turned(x, bank, log), log), Turned(x, bank, log));
  }

  /**
   Each bit of the path hash is the parity of two path bits, as long as the path bits fit two words of the
   index's width: one from the recent word, turned once, and one from the older word, turned twice.
   */
  lemma {:induction false} PathHashBit(p: Params, path: Outcomes, i: nat, k: nat)
    requires p.Valid() && 1 <= i <= p.nHistoryTables && PathLength(p, i) <= 2 * p.logTagTableSizes[i]
    ensures var log, size := p.logTagTableSizes[i], PathLength(p, i);
      Bit(F(p, PathValue(path, p.pathHistBits), size, i), k)
      == (k < log
          && var once := Origin(k, i, log); var twice := log + Origin(once, i, log);
          (once < size && Recent(path, once)) != (twice < size && Recent(path, twice)))
  {
    var log, size, value := p.logTagTableSizes[i], PathLength(p, i), PathValue(path, p.pathHistBits);
    var a := Low(value, size);
    PathHashParts(p, value, size, i);
    Pow2Monotone(size, log + log);
    ShrNarrow(a, log, log);
    var older := Turned(Shr(a, log), i, log);
    TurnedFits(Shr(a, log), i, log);
    XorBound(Low(a, log), older, log);
    TurnedBit(Xor(Low(a, log), older), i, log, k);
    if k < log {
      MixedBit(a, i, log, Origin(k, i, log));
      PathBit(p, path, size, Origin(k, i, log));
      PathBit(p, path, size, log + Origin(Origin(k, i, log), i, log));
    }
  }

  /** A bit of the recent word, and one of the older word turned once. */
  lemma MixedBit(a: nat, i: nat, log: nat, k: nat)
    requires i <= log && k < log && Shr(a, log) < Pow2(log)
    ensures Bit(Xor(Low(a, log), Turned(Shr(a, log), i, log)), k)
         == (Bit(a, k) != Bit(a, log + Origin(k, i, log)))
  {
    XorBit(Low(a, log), Turned(Shr(a, log), i, log), k);
    LowBit(a, log, k);
    TurnedBit(Shr(a, log), i, log, k);
    ShrBit(a, log, Origin(k, i, log));
  }

  lemma PathBit(p: Params, path: Outcomes, size: nat, j: nat)
    requires size <= p.pathHistBits
    ensures Bit(Low(PathValue(path, p.pathHistBits), size), j) == (j < size && Recent(path, j))
  {
    LowBit(PathValue(path, p.pathHistBits), size, j);
    PathValueBit(path, p.pathHistBits, j);
  }
}

/**
 Stores of any width at any address, seen as writes to the aligned words of memory, and which of
 them a page-table walk can tell.
 */
module Stores {
  import opened Bits
  import opened Sv39
  import opened Tlb

  /**
   What a store of `width` bytes leaves in memory: the new values of the word in which it starts and of
   the next one, which only an unaligned store reaches. A store conditional that fails has width 0.
   */
  datatype Stored = Stored(width: nat, first: Pte, second: Pte)
  {
    predicate Fits() {
      width <= 8
    }
  }

  function StoreWords(mem: Memory, at: nat, d: Stored): Memory {
    var start := at - at % 8;
    var mem' := if d.width > 0 then mem[start := d.first] else mem;
    if at % 8 + d.width > 8 then mem'[start + 8 := d.second] else mem'
  }

  /** The bytes stored and the word at this address have a byte in common. */
  predicate Overlaps(at: nat, width: nat, slot: nat) {
    width > 0 && slot < at + width && at < slot + 8
  }

  /** What the store leaves in a word that it overlaps. */
  function Piece(at: nat, d: Stored, slot: nat): Pte {
    if slot <= at then d.first else d.second
  }

  /** A store changes the words it overlaps and no others. */
  lemma StoredWord(mem: Memory, at: nat, d: Stored, slot: nat)
    requires d.Fits() && slot % 8 == 0
    ensures Word(StoreWords(mem, at, d), slot)
         == if Overlaps(at, d.width, slot) then Piece(at, d, slot) else Word(mem, slot)
  {
    if Overlaps(at, d.width, slot) {
      assert slot == at - at % 8 || slot == at - at % 8 + 8;
    }
  }

  /**
   Of the words that the walk of va reads, the store overlaps none, or turns on accessed and dirty bits
   only.
   */
  ghost predicate SparesEntry(mem: Memory, satp: Satp, va: nat, at: nat, d: Stored) {
    forall slot: nat | Reads(mem, satp, va, slot) && Overlaps(at, d.width, slot) ::
      MoreAD(Word(mem, slot), Piece(at, d, slot))
  }

  /** The same, but accessed and dirty bits may also be turned off. */
  ghost predicate SparesWalk(mem: Memory, satp: Satp, va: nat, at: nat, d: Stored) {
    forall slot: nat | Reads(mem, satp, va, slot) && Overlaps(at, d.width, slot) ::
      SameButAD(Word(mem, slot), Piece(at, d, slot))
  }

  /** An aligned store to a word that the walk does not read. */
  lemma {:induction false} UnreadIsSpared(mem: Memory, satp: Satp, va: nat, at: nat, d: Stored)
    requires d.Fits() && at % 8 == 0 && !Reads(mem, satp, va, at)
    ensures SparesEntry(mem, satp, va, at, d) && SparesWalk(mem, satp, va, at, d)
  {
    forall slot: nat | Reads(mem, satp, va, slot)
      ensures !Overlaps(at, d.width, slot)
    {
      ReadIsAligned(mem, satp, va, slot);
      OtherWord(at, d.width, slot);
    }
  }

  lemma OtherWord(at: nat, width: nat, slot: nat)
    requires width <= 8 && at % 8 == 0 && slot % 8 == 0 && slot != at
    ensures !Overlaps(at, width, slot)
  {
  }

  lemma {:induction false} SparedEntry(mem: Memory, satp: Satp, va: nat, at: nat, d: Stored)
    requires d.Fits() && SparesEntry(mem, satp, va, at, d)
    ensures OnlyMarked(mem, StoreWords(mem, at, d), satp, va)
  {
    forall slot: nat | Reads(mem, satp, va, slot)
      ensures MoreAD(Word(mem, slot), Word(StoreWords(mem, at, d), slot))
    {
      ReadIsAligned(mem, satp, va, slot);
      StoredWord(mem, at, d, slot);
    }
  }

  lemma {:induction false} SparedWalk(mem: Memory, satp: Satp, va: nat, at: nat, d: Stored)
    requires d.Fits() && SparesWalk(mem, satp, va, at, d)
    ensures SameWalk(WalkTables(mem, satp, va), WalkTables(StoreWords(mem, at, d), satp, va))
  {
    forall slot: nat | Reads(mem, satp, va, slot)
      ensures SameButAD(Word(mem, slot), Word(StoreWords(mem, at, d), slot))
    {
      ReadIsAligned(mem, satp, va, slot);
      StoredWord(mem, at, d, slot);
    }
    WalkFootprint(mem, StoreWords(mem, at, d), satp, va);
  }
}

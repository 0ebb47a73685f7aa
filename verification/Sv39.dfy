/**
 Sv39 address translation: the three-level walk over page tables in memory, the permission checks,
 and the accessed and dirty bits the walk sets in the tables it reads.

 A memory word is used through the bit-field view of pte_t; Unpack is that view.
 */
module Sv39 {
  import opened Bits
  import opened Privilege

  /** The fields of a page-table entry, least significant first. */
  datatype Pte = Pte(
    v: bool, r: bool, w: bool, x: bool, u: bool, g: bool, a: bool, d: bool,
    rsw: nat, ppn: nat, mbz: nat, pbmt: nat, n: bool)
  {
    /** An entry without permissions points to the next level. */
    predicate IsPointer() {
      !r && !w && !x
    }

    function PageBase(): nat {
      Shl(ppn, 12)
    }
  }

  /** n bits of a word from bit k on. */
  function Field(word: nat, k: nat, n: nat): nat {
    Low(Shr(word, k), n)
  }

  lemma FieldBit(word: nat, k: nat, n: nat, i: nat)
    ensures Bit(Field(word, k, n), i) == (i < n && Bit(word, k + i))
  {
    LowBit(Shr(word, k), n, i);
    ShrBit(word, k, i);
  }

  /** The bit fields of a 64-bit entry. */
  function Unpack(word: nat): Pte {
    Pte(Bit(word, 0), Bit(word, 1), Bit(word, 2), Bit(word, 3), Bit(word, 4), Bit(word, 5), Bit(word, 6),
        Bit(word, 7), Field(word, 8, 2), Field(word, 10, 44), Field(word, 54, 7), Field(word, 61, 2),
        Bit(word, 63))
  }

  lemma SameFieldBit(word: nat, word': nat, k: nat, n: nat, i: nat)
    requires Field(word, k, n) == Field(word', k, n) && k <= i < k + n
    ensures Bit(word, i) == Bit(word', i)
  {
    FieldBit(word, k, n, i - k);
    FieldBit(word', k, n, i - k);
  }

  lemma SameUnpackedBit(word: nat, word': nat, i: nat)
    requires Unpack(word) == Unpack(word') && i < 64
    ensures Bit(word, i) == Bit(word', i)
  {
    if 8 <= i < 10 {
      SameFieldBit(word, word', 8, 2, i);
    } else if 10 <= i < 54 {
      SameFieldBit(word, word', 10, 44, i);
    } else if 54 <= i < 61 {
      SameFieldBit(word, word', 54, 7, i);
    } else if 61 <= i < 63 {
      SameFieldBit(word, word', 61, 2, i);
    }
  }

  /** The bit-field view loses nothing: different words are different entries. */
  lemma UnpackInjective(word: nat, word': nat)
    requires word < Pow2(64) && word' < Pow2(64) && Unpack(word) == Unpack(word')
    ensures word == word'
  {
    forall i: nat | i < 64
      ensures Bit(word, i) == Bit(word', i)
    {
      SameUnpackedBit(word, word', i);
    }
    SameBits(word, word', 64);
  }

  lemma FieldWithout(word: nat, b: nat, k: nat, n: nat)
    requires b < k
    ensures Field(Or(word, Shl(1, b)), k, n) == Field(word, k, n)
  {
    var word' := Or(word, Shl(1, b));
    forall i: nat
      ensures Bit(Field(word', k, n), i) == Bit(Field(word, k, n), i)
    {
      FieldBit(word', k, n, i);
      FieldBit(word, k, n, i);
      OrBit(word, Shl(1, b), k + i);
      OneBit(b, k + i);
    }
    SameAllBits(Field(word', k, n), Field(word, k, n));
  }

  /** Setting the field a or d of an entry sets bit 6 or 7 of its word and nothing else. */
  lemma {:induction false} SetOneBit(word: nat, b: nat)
    requires b == 6 || b == 7
    ensures Unpack(Or(word, Shl(1, b)))
         == if b == 6 then Unpack(word).(a := true) else Unpack(word).(d := true)
  {
    FieldWithout(word, b, 8, 2);
    FieldWithout(word, b, 10, 44);
    FieldWithout(word, b, 54, 7);
    FieldWithout(word, b, 61, 2);
    forall i: nat
      ensures Bit(Or(word, Shl(1, b)), i) == (Bit(word, i) || i == b)
    {
      OrBit(word, Shl(1, b), i);
      OneBit(b, i);
    }
  }

  /** Physical memory by address of 64-bit words; a word never written is zero. */
  type Memory = map<nat, Pte>

  const ZERO := Pte(false, false, false, false, false, false, false, false, 0, 0, 0, 0, false)

  function Word(mem: Memory, at: nat): Pte {
    if at in mem then mem[at] else ZERO
  }

  datatype Access = Fetch | Load | Store

  datatype Satp = Satp(mode: nat, asid: nat, ppn: nat)

  /** The result of a walk: the entry found, with its address and the page size in bits. */
  datatype Walk =
    | NotPresent(level: nat)
    | Leaf(at: nat, pte: Pte, maskBits: nat)
    | Aborted

  /** The nine bits of va from bit k on, which index one level of tables. */
  function TableIndex(va: nat, k: nat): nat {
    Low(Shr(va, k), 9)
  }

  function Slot2(satp: Satp, va: nat): nat {
    Shl(satp.ppn, 12) + TableIndex(va, 30) * 8
  }

  function Slot1(u2: Pte, va: nat): nat {
    u2.PageBase() + TableIndex(va, 21) * 8
  }

  function Slot0(u1: Pte, va: nat): nat {
    u1.PageBase() + TableIndex(va, 12) * 8
  }

  /** The last level: any valid entry ends the walk; a 64 KiB one must be encoded as such. */
  function Walk0(mem: Memory, u1: Pte, va: nat): Walk {
    var at := Slot0(u1, va);
    var pte := Word(mem, at);
    if !pte.v then NotPresent(0)
    else if !pte.n then Leaf(at, pte, 12)
    else if pte.ppn % 16 == 8 then Leaf(at, pte, 16)
    else Aborted
  }

  function Walk1(mem: Memory, u2: Pte, va: nat): Walk {
    var at := Slot1(u2, va);
    var pte := Word(mem, at);
    if pte.n then Aborted
    else if !pte.v then NotPresent(1)
    else if !pte.IsPointer() then Leaf(at, pte, 21)
    else Walk0(mem, pte, va)
  }

  function WalkTables(mem: Memory, satp: Satp, va: nat): Walk {
    var at := Slot2(satp, va);
    var pte := Word(mem, at);
    if pte.n then Aborted
    else if !pte.v then NotPresent(2)
    else if !pte.IsPointer() then Leaf(at, pte, 30)
    else Walk1(mem, pte, va)
  }

  /** The checks on a leaf; every failure is the same fault. */
  predicate Permitted(pte: Pte, access: Access, priv: Priv) {
    && (access == Fetch ==> pte.x)
    && (access == Store ==> pte.w)
    && (pte.w ==> pte.r)
    && (access == Load ==> pte.r)
    && (priv == User ==> pte.u)
    && (pte.u && access == Fetch ==> priv == User)
  }

  predicate IsMaskBits(maskBits: nat) {
    maskBits == 12 || maskBits == 16 || maskBits == 21 || maskBits == 30
  }

  /** The physical address of va in the page of a leaf: the page's high bits and va's low bits. */
  function LeafAddress(base: nat, maskBits: nat, va: nat): nat {
    Or(Shl(Shr(base, maskBits), maskBits), Low(va, maskBits))
  }

  lemma LeafAddressBit(base: nat, maskBits: nat, va: nat, i: nat)
    ensures Bit(LeafAddress(base, maskBits, va), i) == if i < maskBits then Bit(va, i) else Bit(base, i)
  {
    OrBit(Shl(Shr(base, maskBits), maskBits), Low(va, maskBits), i);
    ShlBit(Shr(base, maskBits), maskBits, i);
    LowBit(va, maskBits, i);
    if i >= maskBits {
      ShrBit(base, maskBits, i - maskBits);
    }
  }

  /** The virtual page of an address, in units of 4 KiB. */
  function Page(va: nat): nat {
    Shr(va, 12)
  }

  function Offset(va: nat): nat {
    Low(va, 12)
  }

  /** Two entries that differ at most in the accessed and dirty bits. */
  predicate SameButAD(p: Pte, q: Pte) {
    p.(a := q.a, d := q.d) == q
  }

  ghost predicate SameTables(mem: Memory, mem': Memory) {
    forall at: nat :: SameButAD(Word(mem, at), Word(mem', at))
  }

  /** The same walk, up to the accessed and dirty bits of the leaf. */
  predicate SameWalk(w: Walk, w': Walk) {
    match w
    case Leaf(at, pte, maskBits) => w'.Leaf? && w'.at == at && w'.maskBits == maskBits && SameButAD(pte, w'.pte)
    case _ => w' == w
  }

  /** A walk that reads this entry goes on at the next level. */
  predicate GoesOn(pte: Pte) {
    pte.v && !pte.n && pte.IsPointer()
  }

  /** The walk of va reads the word at this address. */
  predicate Reads(mem: Memory, satp: Satp, va: nat, at: nat) {
    var pte2 := Word(mem, Slot2(satp, va));
    var pte1 := Word(mem, Slot1(pte2, va));
    || at == Slot2(satp, va)
    || (GoesOn(pte2) && at == Slot1(pte2, va))
    || (GoesOn(pte2) && GoesOn(pte1) && at == Slot0(pte1, va))
  }

  /** The footprint of a walk: it depends on the words it reads, and on these up to A and D. */
  lemma {:induction false} WalkFootprint(mem: Memory, mem': Memory, satp: Satp, va: nat)
    requires forall at: nat | Reads(mem, satp, va, at) :: SameButAD(Word(mem, at), Word(mem', at))
    ensures SameWalk(WalkTables(mem, satp, va), WalkTables(mem', satp, va))
  {
    var pte2 := Word(mem, Slot2(satp, va));
    assert Reads(mem, satp, va, Slot2(satp, va));
    if GoesOn(pte2) {
      assert Reads(mem, satp, va, Slot1(pte2, va));
      var pte1 := Word(mem, Slot1(pte2, va));
      if GoesOn(pte1) {
        assert Reads(mem, satp, va, Slot0(pte1, va));
      }
    }
  }

  /** No smaller footprint will do: without any one of these words there is no leaf. */
  lemma ReadIsNeeded(mem: Memory, satp: Satp, va: nat, at: nat)
    requires Reads(mem, satp, va, at)
    ensures !WalkTables(mem[at := ZERO], satp, va).Leaf?
  {
  }

  /**
   Accessed and dirty bits are invisible to translation: memories that differ only in them, in
   whatever words, even in tables shared or mapped by themselves, give the same walk for every
   address; the leaf gives the same permissions and the same physical address.
   */
  lemma {:induction false} ADIsInvisible(mem: Memory, mem': Memory, satp: Satp, va: nat)
    requires SameTables(mem, mem')
    ensures SameWalk(WalkTables(mem, satp, va), WalkTables(mem', satp, va))
  {
    WalkFootprint(mem, mem', satp, va);
  }

  lemma SameLeafSameEffect(pte: Pte, pte': Pte, access: Access, priv: Priv)
    requires SameButAD(pte, pte')
    ensures Permitted(pte, access, priv) == Permitted(pte', access, priv)
    ensures pte.PageBase() == pte'.PageBase()
  {
  }

  /** The walk depends on the page number alone. */
  lemma WalkOfPage(mem: Memory, satp: Satp, va: nat, va': nat)
    requires Page(va) == Page(va')
    ensures WalkTables(mem, satp, va) == WalkTables(mem, satp, va')
  {
    IndexOfPage(va, va', 12);
    IndexOfPage(va, va', 21);
    IndexOfPage(va, va', 30);
  }

  lemma IndexOfPage(va: nat, va': nat, k: nat)
    requires Page(va) == Page(va') && k >= 12
    ensures TableIndex(va, k) == TableIndex(va', k)
  {
    ShrShr(va, 12, k - 12);
    ShrShr(va', 12, k - 12);
  }

  /** Addresses on one page are translated to one page, at their own offsets. */
  lemma AddressOfPage(base: nat, maskBits: nat, va: nat, va': nat)
    requires maskBits >= 12 && Page(va) == Page(va')
    ensures Page(LeafAddress(base, maskBits, va)) == Page(LeafAddress(base, maskBits, va'))
    ensures Offset(LeafAddress(base, maskBits, va)) == Offset(va)
  {
    var pa, pa' := LeafAddress(base, maskBits, va), LeafAddress(base, maskBits, va');
    forall i: nat
      ensures Bit(Page(pa), i) == Bit(Page(pa'), i)
    {
      ShrBit(pa, 12, i);
      ShrBit(pa', 12, i);
      ShrBit(va, 12, i);
      ShrBit(va', 12, i);
      LeafAddressBit(base, maskBits, va, 12 + i);
      LeafAddressBit(base, maskBits, va', 12 + i);
    }
    SameAllBits(Page(pa), Page(pa'));
    forall i: nat
      ensures Bit(Offset(pa), i) == Bit(Offset(va), i)
    {
      LowBit(pa, 12, i);
      LowBit(va, 12, i);
      LeafAddressBit(base, maskBits, va, i);
    }
    SameAllBits(Offset(pa), Offset(va));
  }
}

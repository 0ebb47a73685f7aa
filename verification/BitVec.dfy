/**
 The multiword shift register of the branch history: bit i is kept in bit i % 16 of word i / 16.
 */
module BitVec {
  import opened Bits
  import opened History

  /** A word after a shift by amt, given the word below it. */
  function ShiftedWord(word: nat, below: nat, amt: nat): nat
    requires amt <= 16
  {
    Or(Low(Shl(word, amt), 16), Shr(below, 16 - amt))
  }

  lemma ShiftedWordBit(word: nat, below: nat, amt: nat, j: nat)
    requires amt <= 16 && below < 0x1_0000 && j < 16
    ensures ShiftedWord(word, below, amt) < 0x1_0000
    ensures Bit(ShiftedWord(word, below, amt), j)
         == if j >= amt then Bit(word, j - amt) else Bit(below, 16 + j - amt)
  {
    Word16();
    ShrNarrow(below, 16 - amt, amt);
    Pow2Monotone(amt, 16);
    OrBound(Low(Shl(word, amt), 16), Shr(below, 16 - amt), 16);
    OrBit(Low(Shl(word, amt), 16), Shr(below, 16 - amt), j);
    LowBit(Shl(word, amt), 16, j);
    ShlBit(word, amt, j);
    ShrBit(below, 16 - amt, j);
    if j >= amt {
      HighBit(Shr(below, 16 - amt), amt, j);
    }
  }

  class SimBitvec {
    const nBits: nat
    const nWords: nat
    const arr: array<uint16>

    /** The outcomes recorded since the vector was cleared. */
    ghost var history: Outcomes

    predicate Sized() {
      nBits > 0 && nWords == (nBits + 15) / 16 && arr.Length == nWords
    }

    /** Bit i of the words, also behind the last bit in use. */
    predicate WordBit(i: nat)
      requires Sized() && i < 16 * nWords
      reads arr
    {
      Bit(arr[i / 16], i % 16)
    }

    predicate GetBit(idx: nat)
      requires Sized() && idx < nBits
      reads arr
    {
      WordBit(idx)
    }

    ghost predicate Valid()
      reads this, arr
    {
      Sized() && forall i: nat | i < nBits :: GetBit(i) == Recent(history, i)
    }

    constructor (nBits: nat)
      requires nBits > 0
      ensures Valid() && history == [] && this.nBits == nBits && fresh(arr)
    {
      this.nBits := nBits;
      nWords := (nBits + 15) / 16;
      arr := new uint16[(nBits + 15) / 16](_ => 0);
      history := [];
      new;
      forall i: nat | i < nBits
        ensures !GetBit(i)
      {
        ZeroBit(i % 16);
      }
    }

    /** Move every bit up by amt; what leaves a word enters the next, what leaves the last is lost. */
    method ShiftLeft(amt: nat)
      requires Sized() && amt <= 16
      modifies arr
      ensures forall i: nat | i < 16 * nWords :: WordBit(i) == (amt <= i && old(WordBit(i - amt)))
    {
      ShiftWords(amt);
      forall i: nat | i < 16 * nWords
        ensures WordBit(i) == (amt <= i && old(WordBit(i - amt)))
      {
        var w, j := i / 16, i % 16;
        ShiftedWordBit(old(arr[w]), if w > 0 then old(arr[w - 1]) else 0, amt, j);
        if j < amt && w == 0 {
          ZeroBit(16 + j - amt);
        }
        assert amt <= i ==> (i - amt) / 16 == (if j >= amt then w else w - 1);
        assert amt <= i ==> (i - amt) % 16 == (if j >= amt then j - amt else 16 + j - amt);
      }
    }

    method ShiftWords(amt: nat)
      requires Sized() && amt <= 16
      modifies arr
      ensures forall w | 0 <= w < nWords ::
                arr[w] == ShiftedWord(old(arr[w]), if w > 0 then old(arr[w - 1]) else 0, amt)
    {
      Word16();
      arr[nWords - 1] := Low(Shl(arr[nWords - 1], amt), 16);
      for i := nWords - 1 downto 0
        invariant forall w | i < w < nWords ::
          arr[w] == ShiftedWord(old(arr[w]), old(arr[w - 1]), amt)
        invariant arr[i] == Low(Shl(old(arr[i]), amt), 16)
        invariant forall w | 0 <= w < i :: arr[w] == old(arr[w])
      {
        ShiftPair(i, amt, old(arr[i + 1]));
      }
      ShrZero(16 - amt);
    }

    /** Word i + 1, already shifted, takes the bits that leave word i. */
    method ShiftPair(i: nat, amt: nat, ghost above: nat)
      requires Sized() && amt <= 16 && i + 1 < nWords && arr[i + 1] == Low(Shl(above, amt), 16)
      modifies arr
      ensures arr[i + 1] == ShiftedWord(above, old(arr[i]), amt)
      ensures arr[i] == Low(Shl(old(arr[i]), amt), 16)
      ensures forall w | 0 <= w < nWords && w != i && w != i + 1 :: arr[w] == old(arr[w])
    {
      Word16();
      ShiftedWordBit(above, arr[i], amt, 0);
      var wrap := Shr(arr[i], 16 - amt);
      arr[i + 1] := Or(arr[i + 1], wrap);
      arr[i] := Low(Shl(arr[i], amt), 16);
    }

    method SetBit(idx: nat)
      requires Sized() && idx < nBits
      modifies arr
      ensures forall i: nat | i < 16 * nWords :: WordBit(i) == (old(WordBit(i)) || i == idx)
    {
      var wIdx, bIdx := idx / 16, idx % 16;
      var word := arr[wIdx];
      OneBitFits(word, bIdx);
      arr[wIdx] := Or(word, Shl(1, bIdx));
      forall i: nat | i < 16 * nWords
        ensures WordBit(i) == (old(WordBit(i)) || i == idx)
      {
        OrBit(word, Shl(1, bIdx), i % 16);
        OneBit(bIdx, i % 16);
      }
    }

    /** Record an outcome as the newest bit. */
    method UpdateBhr(t: bool)
      requires Valid()
      modifies this, arr
      ensures Valid() && history == old(history) + [t]
    {
      ShiftLeft(1);
      if t {
        SetBit(0);
      }
      history := history + [t];
      forall i: nat | i < nBits
        ensures GetBit(i) == Recent(history, i)
      {
        assert i > 0 ==> old(GetBit(i - 1)) == Recent(old(history), i - 1);
      }
    }
  }

  lemma Word16()
    ensures Pow2(16) == 0x1_0000
  {
    assert Pow2(8) == 0x100;
  }

  lemma OneBitFits(word: nat, b: nat)
    requires word < 0x1_0000 && b < 16
    ensures Or(word, Shl(1, b)) < 0x1_0000
  {
    Word16();
    ShlOne(b);
    Pow2Monotone(b + 1, 16);
    OrBound(word, Shl(1, b), 16);
  }

  lemma {:induction false} ShlOne(b: nat)
    ensures Shl(1, b) == Pow2(b)
  {
    if b > 0 {
      ShlOne(b - 1);
    }
  }

  /** After any sequence of outcomes, bit i is the i-th most recent one. */
  method Play(nBits: nat, outcomes: seq<bool>) returns (v: SimBitvec)
    requires nBits > 0
    ensures v.Sized() && v.nBits == nBits
    ensures forall i: nat | i < nBits :: v.GetBit(i) == Recent(outcomes, i)
  {
    v := new SimBitvec(nBits);
    for k := 0 to |outcomes|
      invariant v.Valid() && v.nBits == nBits && v.history == outcomes[..k] && fresh(v) && fresh(v.arr)
    {
      v.UpdateBhr(outcomes[k]);
    }
    assert outcomes[..|outcomes|] == outcomes;
  }
}

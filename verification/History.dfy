/**
 The unbounded branch history and the two bounded views of it that the predictor keeps: a window of
 recent outcomes in a circular buffer and registers that fold the window by exclusive or.

 A history is a sequence of outcomes, oldest first, so that recording a branch appends to it.
 */
module History {
  import opened Bits

  type Outcomes = seq<bool>

  /** The j-th most recent outcome, the newest being number 0; not taken before the first branch. */
  predicate Recent(h: Outcomes, j: nat) {
    j < |h| && h[|h| - 1 - j]
  }

  /** Window folding by its definition: outcome j goes to bit j mod width, and all are xor-ed. */
  function Fold(h: Outcomes, length: nat, width: nat): nat
    requires width > 0
  {
    if length == 0 then 0
    else Xor(Fold(h, length - 1, width), Shl(FromBool(Recent(h, length - 1)), (length - 1) % width))
  }

  /** Bit k of the fold: the parity of the taken outcomes whose number is k mod width. */
  predicate FoldBit(h: Outcomes, length: nat, width: nat, k: nat)
    requires width > 0
  {
    if length == 0 then false
    else FoldBit(h, length - 1, width, k) != (Recent(h, length - 1) && (length - 1) % width == k)
  }

  lemma BoolBit(b: bool, n: nat, i: nat)
    ensures Bit(Shl(FromBool(b), n), i) == (b && i == n)
  {
    ShlBit(FromBool(b), n, i);
    if n < i {
      HighBit(FromBool(b), 1, i - n);
    }
  }

  lemma {:induction false} FoldHasFoldBits(h: Outcomes, length: nat, width: nat, k: nat)
    requires width > 0
    ensures Bit(Fold(h, length, width), k) == FoldBit(h, length, width, k)
  {
    if length == 0 {
      ZeroBit(k);
    } else {
      FoldHasFoldBits(h, length - 1, width, k);
      var s := Shl(FromBool(Recent(h, length - 1)), (length - 1) % width);
      XorBit(Fold(h, length - 1, width), s, k);
      BoolBit(Recent(h, length - 1), (length - 1) % width, k);
    }
  }

  lemma {:induction false} ShlBound(b: bool, n: nat, width: nat)
    requires n < width
    ensures Shl(FromBool(b), n) < Pow2(width)
    decreases width
  {
    if n == 0 {
      Pow2Monotone(1, width);
    } else {
      ShlBound(b, n - 1, width - 1);
    }
  }

  /** A fold fits the register that holds it. */
  lemma {:induction false} FoldBound(h: Outcomes, length: nat, width: nat)
    requires width > 0
    ensures Fold(h, length, width) < Pow2(width)
  {
    if length > 0 {
      FoldBound(h, length - 1, width);
      var s := Shl(FromBool(Recent(h, length - 1)), (length - 1) % width);
      ShlBound(Recent(h, length - 1), (length - 1) % width, width);
      XorBound(Fold(h, length - 1, width), s, width);
    }
  }

  /** The bit left of k when a width-bit register is rotated. */
  function Before(k: nat, width: nat): (r: nat)
    requires k < width
    ensures r < width
  {
    if k == 0 then width - 1 else k - 1
  }

  lemma NextResidue(j: nat, k: nat, width: nat)
    requires k < width
    ensures ((j + 1) % width == k) == (j % width == Before(k, width))
  {
    var q, r := j / width, j % width;
    if r == width - 1 {
      assert (q + 1) * width == q * width + width;
      DivisionIs(j + 1, width, q + 1, 0);
    } else {
      DivisionIs(j + 1, width, q, r + 1);
    }
  }

  /** One more branch moves every outcome one place up, so the folded window rotates by one bit. */
  lemma {:induction false} FoldBitShifts(h: Outcomes, b: bool, length: nat, width: nat, k: nat)
    requires k < width
    ensures FoldBit(h + [b], length + 1, width, k)
         == (FoldBit(h, length, width, Before(k, width)) != (b && k == 0))
  {
    if length == 0 {
      assert Recent(h + [b], 0) == b;
      assert 0 % width == 0;
      assert FoldBit(h + [b], 0, width, k) == false;
    } else {
      FoldBitShifts(h, b, length - 1, width, k);
      assert Recent(h + [b], length) == Recent(h, length - 1);
      NextResidue(length - 1, k, width);
    }
  }

  /** What FoldedHistory::update computes from the register, the newest and the departing outcome. */
  function FoldStep(comp: nat, newest: bool, departing: bool, outpoint: nat, width: nat): nat {
    var c := Or(Shl(comp, 1), FromBool(newest));
    var d := Xor(c, Shl(FromBool(departing), outpoint));
    Low(Xor(d, Shr(d, width)), width)
  }

  lemma FoldStepBit(comp: nat, newest: bool, departing: bool, outpoint: nat, width: nat, k: nat)
    requires comp < Pow2(width) && outpoint < width && k < width
    ensures Bit(FoldStep(comp, newest, departing, outpoint, width), k)
         == ((Bit(comp, Before(k, width)) != (newest && k == 0)) != (departing && k == outpoint))
  {
    var c := Or(Shl(comp, 1), FromBool(newest));
    var d := Xor(c, Shl(FromBool(departing), outpoint));
    LowBit(Xor(d, Shr(d, width)), width, k);
    XorBit(d, Shr(d, width), k);
    ShrBit(d, width, k);
    RawBit(comp, newest, departing, outpoint, k);
    RawBit(comp, newest, departing, outpoint, width + k);
    if k > 0 {
      HighBit(comp, width, width + k - 1);
    }
  }

  lemma RawBit(comp: nat, newest: bool, departing: bool, outpoint: nat, k: nat)
    ensures Bit(Xor(Or(Shl(comp, 1), FromBool(newest)), Shl(FromBool(departing), outpoint)), k)
         == (((k > 0 && Bit(comp, k - 1)) || (newest && k == 0)) != (departing && k == outpoint))
  {
    var c := Or(Shl(comp, 1), FromBool(newest));
    XorBit(c, Shl(FromBool(departing), outpoint), k);
    OrBit(Shl(comp, 1), FromBool(newest), k);
    ShlBit(comp, 1, k);
    BoolBit(newest, 0, k);
    BoolBit(departing, outpoint, k);
  }

  /**
   Incremental folding equals folding the whole window: touching only the newest outcome and the
   one that leaves the window turns the fold of a history into the fold of the extended history.
   */
  lemma {:induction false} FoldStepIsFold(h: Outcomes, b: bool, length: nat, width: nat)
    requires length > 0 && width > 0
    ensures FoldStep(Fold(h, length, width), b, Recent(h + [b], length), length % width, width)
         == Fold(h + [b], length, width)
  {
    var comp := Fold(h, length, width);
    var departing := Recent(h + [b], length);
    var stepped := FoldStep(comp, b, departing, length % width, width);
    FoldBound(h, length, width);
    FoldBound(h + [b], length, width);
    forall k: nat | k < width
      ensures Bit(stepped, k) == Bit(Fold(h + [b], length, width), k)
    {
      FoldStepBit(comp, b, departing, length % width, width, k);
      FoldHasFoldBits(h, length, width, Before(k, width));
      FoldBitShifts(h, b, length, width, k);
      FoldHasFoldBits(h + [b], length, width, k);
    }
    SameBits(stepped, Fold(h + [b], length, width), width);
  }

  lemma {:induction false} FoldOfNothing(length: nat, width: nat)
    requires width > 0
    ensures Fold([], length, width) == 0
  {
    if length > 0 {
      FoldOfNothing(length - 1, width);
      ShlZero((length - 1) % width);
    }
  }

  /** The path history: the newest path bit enters at bit 0 and only `bits` of them are kept. */
  function PathValue(path: Outcomes, bits: nat): nat {
    if |path| == 0 then 0
    else Low(Shl(PathValue(path[..|path| - 1], bits), 1) + FromBool(path[|path| - 1]), bits)
  }

  lemma {:induction false} PathValueBit(path: Outcomes, bits: nat, i: nat)
    ensures Bit(PathValue(path, bits), i) == (i < bits && Recent(path, i))
  {
    if |path| == 0 {
      ZeroBit(i);
    } else {
      var before := path[..|path| - 1];
      var next := Shl(PathValue(before, bits), 1) + FromBool(path[|path| - 1]);
      LowBit(next, bits, i);
      if i > 0 {
        assert Shl(PathValue(before, bits), 1) == 2 * Shl(PathValue(before, bits), 0);
        assert next / 2 == PathValue(before, bits);
        PathValueBit(before, bits, i - 1);
        assert Recent(path, i) == Recent(before, i - 1);
      }
    }
  }
}

/**
 The bitwise CRC loop. The register and the bytes are bit-reflected: bit 0 is the coefficient of
 the highest power. Read that way, the loop divides by the Castagnoli polynomial.
 */
module Crc {
  import opened Bits
  import opened Gf2

  /** The polynomial as the loop has it, reflected and without its leading term. */
  const POLY: nat := 0x82f63b78

  /** CRC32C: x^32 + 0x1edc6f41. */
  const CASTAGNOLI: nat := 0x1_1edc6f41

  /** Shifting the last bit out of the register; a set bit adds the polynomial. */
  function ShiftOutBy(c: nat, poly: nat): nat {
    if c % 2 == 1 then Xor(c / 2, poly) else c / 2
  }

  /** One bit of the loop. */
  function ShiftOut(c: nat): nat {
    ShiftOutBy(c, POLY)
  }

  function ShiftOuts(c: nat, k: nat): nat {
    if k == 0 then c else ShiftOut(ShiftOuts(c, k - 1))
  }

  /** The register after the bytes of buf. */
  function Updated(crc: nat, buf: seq<byte>): nat {
    if buf == [] then crc else ShiftOuts(Xor(Updated(crc, buf[..|buf| - 1]), buf[|buf| - 1] as nat), 8)
  }

  method UpdateCrc(crc: uint32, buf: array<byte>, len: nat) returns (c: uint32)
    requires len <= buf.Length
    ensures c == Updated(crc, buf[..len])
  {
    c := crc;
    for n := 0 to len
      invariant c == Updated(crc, buf[..n])
    {
      var b := buf[n];
      XorFits(c, b as nat);
      c := Xor(c, b as nat);
      ghost var before := c;
      for k := 0 to 8
        invariant c == ShiftOuts(before, k)
      {
        ShiftOutFits(c);
        c := if c % 2 == 1 then Xor(c / 2, POLY) else c / 2;
      }
      assert buf[..n + 1][..n] == buf[..n];
    }
  }

  lemma XorFits(a: nat, b: nat)
    requires a < 0x1_0000_0000 && b < 0x1_0000_0000
    ensures Xor(a, b) < 0x1_0000_0000
  {
    Word32();
    XorBound(a, b, 32);
  }

  lemma ShiftOutFits(c: nat)
    requires c < 0x1_0000_0000
    ensures ShiftOut(c) < 0x1_0000_0000
  {
    XorFits(c / 2, POLY);
  }

  lemma {:induction false} ShiftOutsFit(c: nat, k: nat)
    requires c < 0x1_0000_0000
    ensures ShiftOuts(c, k) < 0x1_0000_0000
  {
    if k > 0 {
      ShiftOutsFit(c, k - 1);
      ShiftOutFits(ShiftOuts(c, k - 1));
    }
  }

  lemma {:induction false} UpdatedFits(crc: nat, buf: seq<byte>)
    requires crc < 0x1_0000_0000
    ensures Updated(crc, buf) < 0x1_0000_0000
  {
    if buf != [] {
      UpdatedFits(crc, buf[..|buf| - 1]);
      XorFits(Updated(crc, buf[..|buf| - 1]), buf[|buf| - 1] as nat);
      ShiftOutsFit(Xor(Updated(crc, buf[..|buf| - 1]), buf[|buf| - 1] as nat), 8);
    }
  }

  /** The low n bits of c in the opposite order. */
  function Reflect(c: nat, n: nat): nat {
    if n == 0 then 0 else 2 * Reflect(c, n - 1) + FromBool(Bit(c, n - 1))
  }

  /** The message as a polynomial: the first bit of the first byte has the highest power. */
  function Message(buf: seq<byte>): nat {
    if buf == [] then 0 else Xor(Shl(Message(buf[..|buf| - 1]), 8), Reflect(buf[|buf| - 1] as nat, 8))
  }

  lemma {:induction false} ReflectXor(a: nat, b: nat, n: nat)
    ensures Reflect(Xor(a, b), n) == Xor(Reflect(a, n), Reflect(b, n))
  {
    if n > 0 {
      ReflectXor(a, b, n - 1);
      XorBit(a, b, n - 1);
      XorDigits(Reflect(a, n - 1), Bit(a, n - 1), Reflect(b, n - 1), Bit(b, n - 1));
    }
  }

  /** Reflection turns the n low bits round. */
  lemma {:induction false} ReflectBit(c: nat, n: nat, i: nat)
    ensures Bit(Reflect(c, n), i) == (i < n && Bit(c, n - 1 - i))
  {
    if n == 0 {
      ZeroBit(i);
    } else {
      var r := Reflect(c, n - 1);
      assert Reflect(c, n) / 2 == r && (Reflect(c, n) % 2 == 1) == Bit(c, n - 1);
      if i > 0 {
        ReflectBit(c, n - 1, i - 1);
      }
    }
  }

  lemma {:induction false} ReflectBound(c: nat, n: nat)
    ensures Reflect(c, n) < Pow2(n)
  {
    if n > 0 {
      ReflectBound(c, n - 1);
    }
  }

  /** The lowest bit becomes the highest. */
  lemma {:induction false} ReflectHalf(c: nat, n: nat)
    ensures Reflect(c, n + 1) == Reflect(c / 2, n) + Times(c % 2 == 1, Pow2(n))
  {
    if n > 0 {
      ReflectHalf(c, n - 1);
    }
  }

  lemma LeadingDigits(x: nat, y: nat, a: nat, i: bool, b: nat, j: bool)
    requires Xor(x, y) == Xor(a, b)
    ensures Xor(2 * x + FromBool(i), 2 * y + FromBool(j)) == Xor(2 * a + FromBool(i), 2 * b + FromBool(j))
  {
    XorDigits(x, i, y, j);
    XorDigits(a, i, b, j);
  }

  /** Two leading terms cancel. */
  lemma {:induction false} LeadingCancel(a: nat, b: nat, n: nat)
    requires a < Pow2(n) && b < Pow2(n)
    ensures Xor(Pow2(n) + a, Pow2(n) + b) == Xor(a, b)
  {
    if n > 0 {
      LeadingCancel(a / 2, b / 2, n - 1);
      LeadingDigits(Pow2(n - 1) + a / 2, Pow2(n - 1) + b / 2, a / 2, a % 2 == 1, b / 2, b % 2 == 1);
    }
  }

  /** Reflecting in a wider word shifts. */
  lemma ReflectWider(c: nat, n: nat)
    requires c < Pow2(n)
    ensures Reflect(c, n + 1) == 2 * Reflect(c, n)
  {
    HighBit(c, n, n);
  }

  lemma {:induction false} ReflectByte(b: nat, k: nat)
    requires b < 0x100
    ensures Reflect(b, 8 + k) == Shl(Reflect(b, 8), k)
  {
    if k > 0 {
      ReflectByte(b, k - 1);
      assert Pow2(8) == 0x100;
      Pow2Monotone(8, 8 + k - 1);
      ReflectWider(b, 8 + k - 1);
    }
  }

  /** One more last bit. */
  lemma ReflectLast(e: nat, b: bool, n: nat)
    ensures Reflect(2 * e + FromBool(b), n + 1) == Reflect(e, n) + Times(b, Pow2(n))
  {
    ReflectHalf(2 * e + FromBool(b), n);
    assert (2 * e + FromBool(b)) / 2 == e;
  }

  lemma ReflectPair(e: nat, b1: bool, b0: bool, n: nat, p: nat)
    requires p == Pow2(n)
    ensures Pow2(n + 2) == 4 * p
    ensures Reflect(4 * e + Times(b1, 2) + Times(b0, 1), n + 2) == Reflect(e, n) + Times(b1, p) + Times(b0, 2 * p)
  {
    ReflectLast(e, b1, n);
    ReflectLast(2 * e + FromBool(b1), b0, n + 1);
    assert Pow2(n + 1) == 2 * p;
  }

  /** One more hexadecimal digit, given by its bits. */
  lemma ReflectDigit(e: nat, b3: bool, b2: bool, b1: bool, b0: bool, n: nat, p: nat)
    requires p == Pow2(n)
    ensures Pow2(n + 4) == 16 * p
    ensures Reflect(16 * e + Times(b3, 8) + Times(b2, 4) + Times(b1, 2) + Times(b0, 1), n + 4)
         == Reflect(e, n) + Times(b3, p) + Times(b2, 2 * p) + Times(b1, 4 * p) + Times(b0, 8 * p)
  {
    var e1 := 4 * e + Times(b3, 2) + Times(b2, 1);
    ReflectPair(e, b3, b2, n, p);
    ReflectPair(e1, b1, b0, n + 2, 4 * p);
  }

  lemma PolyDigits(e1: nat, e2: nat, e3: nat, e4: nat, e5: nat, e6: nat, e7: nat, e8: nat)
    requires e1 == 0x8 && e2 == 16 * e1 + 0x2 && e3 == 16 * e2 + 0xf && e4 == 16 * e3 + 0x6
    requires e5 == 16 * e4 + 0x3 && e6 == 16 * e5 + 0xb && e7 == 16 * e6 + 0x7 && e8 == 16 * e7 + 0x8
    ensures Reflect(e8, 32) == 0x1edc_6f41 && Pow2(32) == 0x1_0000_0000
  {
    ReflectDigit(0, true, false, false, false, 0, 1);
    ReflectDigit(e1, false, false, true, false, 4, 0x10);
    ReflectDigit(e2, true, true, true, true, 8, 0x100);
    ReflectDigit(e3, false, true, true, false, 12, 0x1000);
    ReflectDigit(e4, false, false, true, true, 16, 0x1_0000);
    ReflectDigit(e5, true, false, true, true, 20, 0x10_0000);
    ReflectDigit(e6, false, true, true, true, 24, 0x100_0000);
    ReflectDigit(e7, true, false, false, false, 28, 0x1000_0000);
  }

  lemma {:induction false} PolyReflected()
    ensures CASTAGNOLI == Pow2(32) + Reflect(POLY, 32)
    ensures HasDegree(CASTAGNOLI, 32)
  {
    PolyDigits(0x8, 0x82, 0x82f, 0x82f6, 0x8_2f63, 0x82_f63b, 0x82f_63b7, POLY);
  }

  /** Shifting out a bit multiplies the reflected register by x, modulo the reflected polynomial. */
  lemma TimesX(c: nat, poly: nat, g: nat, n: nat)
    requires n > 0 && c < Pow2(n) && g == Pow2(n) + Reflect(poly, n)
    ensures Reflect(ShiftOutBy(c, poly), n) == Reduced(2 * Reflect(c, n), g, n)
  {
    var h := c / 2;
    ReflectHalf(c, n - 1);
    ReflectWider(h, n - 1);
    ReflectBound(h, n);
    assert 2 * Reflect(c, n) == Reflect(h, n) + Times(c % 2 == 1, Pow2(n));
    if c % 2 == 1 {
      ReflectXor(h, poly, n);
      ReflectBound(poly, n);
      LeadingCancel(Reflect(h, n), Reflect(poly, n), n);
    }
  }

  /** One bit of the loop. */
  lemma ShiftOutIsTimesX(c: nat)
    requires c < Pow2(32)
    ensures Reflect(ShiftOut(c), 32) == Reduced(2 * Reflect(c, 32), CASTAGNOLI, 32)
  {
    PolyReflected();
    TimesX(c, POLY, CASTAGNOLI, 32);
  }

  lemma {:induction false} ShiftOutsIsShl(c: nat, k: nat)
    requires c < Pow2(32)
    ensures Reflect(ShiftOuts(c, k), 32) == Remainder(Shl(Reflect(c, 32), k), CASTAGNOLI, 32)
  {
    if k == 0 {
      ReflectBound(c, 32);
      RemainderOfSmall(Reflect(c, 32), CASTAGNOLI, 32);
    } else {
      ShiftOutsIsShl(c, k - 1);
      Word32();
      ShiftOutsFit(c, k - 1);
      ShiftOutIsTimesX(ShiftOuts(c, k - 1));
      RemainderStep(Shl(Reflect(c, 32), k - 1), false, CASTAGNOLI, 32);
    }
  }

  /** The register before, moved up by the bits of the message, and the message times x^32. */
  function Dividend(crc: nat, buf: seq<byte>): nat {
    Xor(Shl(Reflect(crc, 32), 8 * |buf|), Shl(Message(buf), 32))
  }

  lemma DividendAppend(crc: nat, buf: seq<byte>, b: byte)
    ensures Dividend(crc, buf + [b]) == Xor(Shl(Dividend(crc, buf), 8), Shl(Reflect(b as nat, 8), 32))
  {
    var r, m, w := Shl(Reflect(crc, 32), 8 * |buf|), Message(buf), Reflect(b as nat, 8);
    calc {
      Shl(Message(buf + [b]), 32);
    ==  { assert (buf + [b])[..|buf|] == buf; }
      Shl(Xor(Shl(m, 8), w), 32);
    ==  { ShlXor(Shl(m, 8), w, 32); ShlShl(m, 8, 32); ShlShl(m, 32, 8); }
      Xor(Shl(Shl(m, 32), 8), Shl(w, 32));
    }
    ShlShl(Reflect(crc, 32), 8 * |buf|, 8);
    ShlXor(r, Shl(m, 32), 8);
    XorAssociates(Shl(r, 8), Shl(Shl(m, 32), 8), Shl(w, 32));
  }

  /** One byte of the loop. */
  lemma {:induction false} ByteStep(c: nat, b: byte)
    requires c < Pow2(32)
    ensures Reflect(ShiftOuts(Xor(c, b as nat), 8), 32)
         == Xor(Remainder(Shl(Reflect(c, 32), 8), CASTAGNOLI, 32),
                Remainder(Shl(Reflect(b as nat, 8), 32), CASTAGNOLI, 32))
  {
    var w := Reflect(b as nat, 8);
    Word32();
    XorBound(c, b as nat, 32);
    ShiftOutsIsShl(Xor(c, b as nat), 8);
    ReflectXor(c, b as nat, 32);
    ReflectByte(b as nat, 24);
    ShlXor(Reflect(c, 32), Shl(w, 24), 8);
    ShlShl(w, 24, 8);
    PolyReflected();
    RemainderIsLinear(Shl(Reflect(c, 32), 8), Shl(w, 32), CASTAGNOLI, 32);
  }

  /**
   The loop computes the remainder of register and message modulo the Castagnoli polynomial, up to
   bit reflection.
   */
  lemma {:induction false} UpdatedIsLongDivision(crc: nat, buf: seq<byte>)
    requires crc < Pow2(32)
    ensures Reflect(Updated(crc, buf), 32) == Remainder(Dividend(crc, buf), CASTAGNOLI, 32)
  {
    if buf == [] {
      ReflectBound(crc, 32);
      RemainderOfSmall(Reflect(crc, 32), CASTAGNOLI, 32);
      ShlZero(32);
    } else {
      var front, b := buf[..|buf| - 1], buf[|buf| - 1];
      UpdatedIsLongDivision(crc, front);
      Word32();
      UpdatedFits(crc, front);
      ByteStep(Updated(crc, front), b);
      PolyReflected();
      RemainderOfShl(Dividend(crc, front), 8, CASTAGNOLI, 32);
      RemainderIsLinear(Shl(Dividend(crc, front), 8), Shl(Reflect(b as nat, 8), 32), CASTAGNOLI, 32);
      DividendAppend(crc, front, b);
      assert front + [b] == buf;
    }
  }

  /** The result is the one polynomial of degree below 32 that differs from it by a multiple. */
  lemma {:induction false} UpdatedIsRemainder(crc: nat, buf: seq<byte>)
    requires crc < Pow2(32)
    ensures IsRemainder(Dividend(crc, buf), CASTAGNOLI, 32, Reflect(Updated(crc, buf), 32))
    ensures forall r | IsRemainder(Dividend(crc, buf), CASTAGNOLI, 32, r) :: r == Reflect(Updated(crc, buf), 32)
  {
    UpdatedIsLongDivision(crc, buf);
    PolyReflected();
    RemainderIs(Dividend(crc, buf), CASTAGNOLI, 32);
    forall r | IsRemainder(Dividend(crc, buf), CASTAGNOLI, 32, r)
      ensures r == Reflect(Updated(crc, buf), 32)
    {
      RemainderIsUnique(Dividend(crc, buf), CASTAGNOLI, 32, r, Reflect(Updated(crc, buf), 32));
    }
  }

  /** The CRC of a message can be computed piecewise. */
  lemma {:induction false} UpdatedComposes(crc: nat, a: seq<byte>, b: seq<byte>)
    ensures Updated(crc, a + b) == Updated(Updated(crc, a), b)
    decreases |b|
  {
    if b == [] {
      assert a + b == a;
    } else {
      assert (a + b)[..|a + b| - 1] == a + b[..|b| - 1];
      UpdatedComposes(crc, a, b[..|b| - 1]);
    }
  }

  lemma ShiftOutDigits(h: nat, i: bool, poly: nat)
    ensures ShiftOutBy(2 * h + FromBool(i), poly) == Xor(h, Times(i, poly))
  {
    assert (2 * h + FromBool(i)) / 2 == h && (2 * h + FromBool(i)) % 2 == FromBool(i);
  }

  lemma ShiftOutSum(g: nat, i: bool, c: nat, h: nat, j: bool, d: nat, poly: nat)
    requires c == 2 * g + FromBool(i) && d == 2 * h + FromBool(j)
    ensures ShiftOutBy(Xor(c, d), poly) == Xor(ShiftOutBy(c, poly), ShiftOutBy(d, poly))
  {
    calc {
      ShiftOutBy(Xor(c, d), poly);
    ==  { XorDigits(g, i, h, j); ShiftOutDigits(Xor(g, h), i != j, poly); }
      Xor(Xor(g, h), Times(i != j, poly));
    ==  { XorSelf(poly); }
      Xor(Xor(g, h), Xor(Times(i, poly), Times(j, poly)));
    ==  { XorSwaps(g, Times(i, poly), h, Times(j, poly)); }
      Xor(Xor(g, Times(i, poly)), Xor(h, Times(j, poly)));
    ==  { ShiftOutDigits(g, i, poly); ShiftOutDigits(h, j, poly); }
      Xor(ShiftOutBy(c, poly), ShiftOutBy(d, poly));
    }
  }

  lemma ShiftOutIsLinear(c: nat, d: nat)
    ensures ShiftOut(Xor(c, d)) == Xor(ShiftOut(c), ShiftOut(d))
  {
    ShiftOutSum(c / 2, c % 2 == 1, c, d / 2, d % 2 == 1, d, POLY);
  }

  lemma {:induction false} ShiftOutsIsLinear(c: nat, d: nat, k: nat)
    ensures ShiftOuts(Xor(c, d), k) == Xor(ShiftOuts(c, k), ShiftOuts(d, k))
  {
    if k > 0 {
      ShiftOutsIsLinear(c, d, k - 1);
      ShiftOutIsLinear(ShiftOuts(c, k - 1), ShiftOuts(d, k - 1));
    }
  }

  /** Three messages of which the third is the sum of the others. */
  predicate SumOf(a: seq<byte>, b: seq<byte>, s: seq<byte>) {
    |a| == |b| == |s| && forall i | 0 <= i < |s| :: s[i] as nat == Xor(a[i] as nat, b[i] as nat)
  }

  /** The CRC of a sum is the sum of the CRCs. */
  lemma {:induction false} UpdatedIsLinear(c: nat, d: nat, a: seq<byte>, b: seq<byte>, s: seq<byte>)
    requires SumOf(a, b, s)
    ensures Updated(Xor(c, d), s) == Xor(Updated(c, a), Updated(d, b))
    decreases |s|
  {
    if s != [] {
      var n := |s| - 1;
      UpdatedIsLinear(c, d, a[..n], b[..n], s[..n]);
      XorSwaps(Updated(c, a[..n]), Updated(d, b[..n]), a[n] as nat, b[n] as nat);
      ShiftOutsIsLinear(Xor(Updated(c, a[..n]), a[n] as nat), Xor(Updated(d, b[..n]), b[n] as nat), 8);
    }
  }

  const ALL_ONES: nat := 0xffff_ffff

  lemma ComplementTwice(c: nat)
    ensures Xor(Xor(c, ALL_ONES), ALL_ONES) == c
  {
    var ones := ALL_ONES;
    XorAssociates(c, ones, ones);
    XorSelf(ones);
  }

  /**
   CRC-32C of the bytes: the complement of the reflected remainder of the message, with a register of
   all ones in front of it, modulo the Castagnoli polynomial.
   */
  method Crc32(buf: array<byte>, len: nat) returns (r: uint32)
    requires len <= buf.Length
    ensures IsRemainder(Dividend(0xffff_ffff, buf[..len]), 0x1_1edc_6f41, 32, Reflect(Xor(r, 0xffff_ffff), 32))
  {
    r := UpdateCrc(ALL_ONES, buf, len);
    Word32();
    UpdatedIsRemainder(ALL_ONES, buf[..len]);
    ComplementTwice(r);
    XorFits(r, ALL_ONES);
    r := Xor(r, ALL_ONES);
  }
}

/**
 Polynomials over GF(2) as natural numbers: bit i is the coefficient of x^i, addition is Xor and
 multiplication by x is doubling.
 */
module Gf2 {
  import opened Bits

  lemma XorDigits(a: nat, i: bool, b: nat, j: bool)
    ensures Xor(2 * a + FromBool(i), 2 * b + FromBool(j)) == 2 * Xor(a, b) + FromBool(i != j)
  {
    var x, y := 2 * a + FromBool(i), 2 * b + FromBool(j);
    if x == 0 {
      XorWithZero(y);
      XorWithZero(b);
    } else if y == 0 {
      XorWithZero(x);
      XorWithZero(a);
    } else {
      XorUnfolds(x, y);
      Digits(a, i, b, j);
    }
  }

  lemma XorWithZero(x: nat)
    ensures Xor(x, 0) == Xor(0, x) == x
  {
  }

  lemma XorUnfolds(x: nat, y: nat)
    requires x > 0 && y > 0
    ensures Xor(x, y) == 2 * Xor(x / 2, y / 2) + (x + y) % 2
  {
  }

  lemma Digits(a: nat, i: bool, b: nat, j: bool)
    ensures var x, y := 2 * a + FromBool(i), 2 * b + FromBool(j);
      x / 2 == a && y / 2 == b && (x + y) % 2 == FromBool(i != j)
  {
  }

  lemma XorCommutes(a: nat, b: nat)
    ensures Xor(a, b) == Xor(b, a)
  {
    forall i: nat
      ensures Bit(Xor(a, b), i) == Bit(Xor(b, a), i)
    {
      XorBit(a, b, i);
      XorBit(b, a, i);
    }
    SameAllBits(Xor(a, b), Xor(b, a));
  }

  /** Sums of two sums can be taken in either order. */
  lemma XorSwaps(a: nat, b: nat, c: nat, d: nat)
    ensures Xor(Xor(a, b), Xor(c, d)) == Xor(Xor(a, c), Xor(b, d))
  {
    forall i: nat
      ensures Bit(Xor(Xor(a, b), Xor(c, d)), i) == Bit(Xor(Xor(a, c), Xor(b, d)), i)
    {
      XorBit(a, b, i);
      XorBit(c, d, i);
      XorBit(a, c, i);
      XorBit(b, d, i);
      XorBit(Xor(a, b), Xor(c, d), i);
      XorBit(Xor(a, c), Xor(b, d), i);
    }
    SameAllBits(Xor(Xor(a, b), Xor(c, d)), Xor(Xor(a, c), Xor(b, d)));
  }

  lemma XorAssociates(a: nat, b: nat, c: nat)
    ensures Xor(Xor(a, b), c) == Xor(a, Xor(b, c))
  {
    XorSwaps(a, b, 0, c);
  }

  lemma {:induction false} XorSelf(a: nat)
    ensures Xor(a, a) == 0
  {
    if a > 0 {
      XorSelf(a / 2);
    }
  }

  /** A sum is zero only of equals. */
  lemma {:induction false} XorZero(a: nat, b: nat)
    requires Xor(a, b) == 0
    ensures a == b
    decreases a + b
  {
    if a > 0 && b > 0 {
      XorZero(a / 2, b / 2);
    }
  }

  lemma {:induction false} ShlXor(a: nat, b: nat, k: nat)
    ensures Shl(Xor(a, b), k) == Xor(Shl(a, k), Shl(b, k))
  {
    if k > 0 {
      ShlXor(a, b, k - 1);
      XorDigits(Shl(a, k - 1), false, Shl(b, k - 1), false);
    }
  }

  /** Two polynomials of degree n: the leading terms cancel in their sum. */
  lemma {:induction false} XorLeading(a: nat, b: nat, n: nat)
    requires Pow2(n) <= a < Pow2(n + 1) && Pow2(n) <= b < Pow2(n + 1)
    ensures Xor(a, b) < Pow2(n)
    decreases n
  {
    if n > 0 {
      XorLeading(a / 2, b / 2, n - 1);
    }
  }

  /** Adding a polynomial of smaller degree keeps the leading term. */
  lemma {:induction false} XorTrailing(a: nat, b: nat, n: nat)
    requires Pow2(n) <= a < Pow2(n + 1) && b < Pow2(n)
    ensures Pow2(n) <= Xor(a, b) < Pow2(n + 1)
    decreases n
  {
    if n > 0 && b > 0 {
      XorTrailing(a / 2, b / 2, n - 1);
    }
  }

  /** The product of two polynomials. */
  function Product(q: nat, g: nat): nat {
    if q == 0 then 0 else Xor(2 * Product(q / 2, g), Times(q % 2 == 1, g))
  }

  function Times(b: bool, g: nat): nat {
    if b then g else 0
  }

  lemma ProductStep(q: nat, b: bool, g: nat)
    ensures Product(2 * q + FromBool(b), g) == Xor(2 * Product(q, g), Times(b, g))
  {
    if q > 0 || b {
      assert (2 * q + FromBool(b)) / 2 == q && (2 * q + FromBool(b)) % 2 == FromBool(b);
    }
  }

  predicate HasDegree(g: nat, n: nat) {
    Pow2(n) <= g < Pow2(n + 1)
  }

  /** r is a remainder of a modulo g, which has degree n. */
  ghost predicate IsRemainder(a: nat, g: nat, n: nat, r: nat) {
    r < Pow2(n) && exists q: nat :: a == Xor(Product(q, g), r)
  }

  /** One step of long division. */
  function Reduced(y: nat, g: nat, n: nat): nat {
    if y >= Pow2(n) then Xor(y, g) else y
  }

  /** Long division: the remainder of a modulo g. */
  function Remainder(a: nat, g: nat, n: nat): nat {
    if a == 0 then 0 else Reduced(2 * Remainder(a / 2, g, n) + a % 2, g, n)
  }

  lemma {:induction false} RemainderBound(a: nat, g: nat, n: nat)
    requires HasDegree(g, n)
    ensures Remainder(a, g, n) < Pow2(n)
  {
    if a > 0 {
      RemainderBound(a / 2, g, n);
      var y := 2 * Remainder(a / 2, g, n) + a % 2;
      if y >= Pow2(n) {
        XorLeading(y, g, n);
      }
    }
  }

  lemma {:induction false} Divide(a: nat, g: nat, n: nat) returns (q: nat)
    ensures a == Xor(Product(q, g), Remainder(a, g, n))
  {
    if a == 0 {
      q := 0;
    } else {
      q := Divide(a / 2, g, n);
      q := DivisionStep(a / 2, a % 2 == 1, q, Remainder(a / 2, g, n), g, n);
    }
  }

  /** Long division finds a remainder ... */
  lemma RemainderIs(a: nat, g: nat, n: nat)
    requires HasDegree(g, n)
    ensures IsRemainder(a, g, n, Remainder(a, g, n))
  {
    RemainderBound(a, g, n);
    var q := Divide(a, g, n);
  }

  lemma DivisionStep(a: nat, b: bool, q: nat, r: nat, g: nat, n: nat) returns (q': nat)
    requires a == Xor(Product(q, g), r)
    ensures 2 * a + FromBool(b) == Xor(Product(q', g), Reduced(2 * r + FromBool(b), g, n))
  {
    var y := 2 * r + FromBool(b);
    assert 2 * a + FromBool(b) == Xor(2 * Product(q, g), y) by {
      XorDigits(Product(q, g), false, r, b);
    }
    q' := 2 * q + FromBool(y >= Pow2(n));
    ProductStep(q, y >= Pow2(n), g);
    if y >= Pow2(n) {
      calc {
        Xor(2 * Product(q, g), y);
      ==  { XorSelf(g); }
        Xor(Xor(2 * Product(q, g), y), Xor(g, g));
      ==  { XorSwaps(2 * Product(q, g), y, g, g); }
        Xor(Xor(2 * Product(q, g), g), Xor(y, g));
      }
    }
  }

  lemma {:induction false} ProductIsLinear(p: nat, q: nat, g: nat)
    ensures Xor(Product(p, g), Product(q, g)) == Product(Xor(p, q), g)
    decreases p + q
  {
    if p > 0 && q > 0 {
      ProductIsLinear(p / 2, q / 2, g);
      ProductSum(p / 2, p % 2 == 1, q / 2, q % 2 == 1, g);
    } else if q > 0 {
      XorCommutes(Product(p, g), Product(q, g));
    }
  }

  lemma TwiceSum(a: nat, b: nat)
    ensures Xor(2 * a, 2 * b) == 2 * Xor(a, b)
  {
    XorDigits(a, false, b, false);
  }

  lemma TimesSum(i: bool, j: bool, g: nat)
    ensures Xor(Times(i, g), Times(j, g)) == Times(i != j, g)
  {
    XorSelf(g);
    XorWithZero(g);
    XorWithZero(0);
  }

  lemma ProductSum(p: nat, i: bool, q: nat, j: bool, g: nat)
    requires Xor(Product(p, g), Product(q, g)) == Product(Xor(p, q), g)
    ensures Xor(Product(2 * p + FromBool(i), g), Product(2 * q + FromBool(j), g))
         == Product(Xor(2 * p + FromBool(i), 2 * q + FromBool(j)), g)
  {
    var a, b := Product(p, g), Product(q, g);
    calc {
      Xor(Product(2 * p + FromBool(i), g), Product(2 * q + FromBool(j), g));
    ==  { ProductStep(p, i, g); ProductStep(q, j, g); }
      Xor(Xor(2 * a, Times(i, g)), Xor(2 * b, Times(j, g)));
    ==  { XorSwaps(2 * a, Times(i, g), 2 * b, Times(j, g)); }
      Xor(Xor(2 * a, 2 * b), Xor(Times(i, g), Times(j, g)));
    ==  { TwiceSum(a, b); TimesSum(i, j, g); }
      Xor(2 * Xor(a, b), Times(i != j, g));
    ==  { ProductStep(Xor(p, q), i != j, g); }
      Product(2 * Xor(p, q) + FromBool(i != j), g);
    ==  { XorDigits(p, i, q, j); }
      Product(Xor(2 * p + FromBool(i), 2 * q + FromBool(j)), g);
    }
  }

  /** A multiple of g other than 0 has at least the degree of g. */
  lemma {:induction false} ProductDegree(q: nat, g: nat, n: nat, k: nat)
    requires HasDegree(g, n) && HasDegree(q, k)
    ensures HasDegree(Product(q, g), n + k)
    decreases k
  {
    if k > 0 {
      ProductDegree(q / 2, g, n, k - 1);
      Pow2Monotone(n + 1, n + k);
      if q % 2 == 1 {
        XorTrailing(2 * Product(q / 2, g), g, n + k);
      }
    }
  }

  lemma {:induction false} DegreeOf(q: nat) returns (k: nat)
    requires q > 0
    ensures HasDegree(q, k)
  {
    if q == 1 {
      k := 0;
    } else {
      k := DegreeOf(q / 2);
      k := k + 1;
    }
  }

  /** ... and there is only one. */
  lemma RemainderIsUnique(a: nat, g: nat, n: nat, r: nat, r': nat)
    requires HasDegree(g, n) && IsRemainder(a, g, n, r) && IsRemainder(a, g, n, r')
    ensures r == r'
  {
    var q: nat :| a == Xor(Product(q, g), r);
    var q': nat :| a == Xor(Product(q', g), r');
    XorSelf(a);
    XorSwaps(Product(q, g), r, Product(q', g), r');
    XorZero(Xor(Product(q, g), Product(q', g)), Xor(r, r'));
    ProductIsLinear(q, q', g);
    XorBound(r, r', n);
    if Xor(q, q') > 0 {
      var k := DegreeOf(Xor(q, q'));
      ProductDegree(Xor(q, q'), g, n, k);
      Pow2Monotone(n, n + k);
    }
    XorZero(r, r');
  }

  lemma {:induction false} RemainderOfSmall(a: nat, g: nat, n: nat)
    requires a < Pow2(n)
    ensures Remainder(a, g, n) == a
  {
    if a > 0 {
      RemainderOfSmall(a / 2, g, n);
    }
  }

  lemma ReducedIsLinear(y: nat, z: nat, g: nat, n: nat)
    requires HasDegree(g, n) && y < Pow2(n + 1) && z < Pow2(n + 1)
    ensures Reduced(Xor(y, z), g, n) == Xor(Reduced(y, g, n), Reduced(z, g, n))
  {
    XorSelf(g);
    if y >= Pow2(n) {
      if z >= Pow2(n) {
        XorLeading(y, z, n);
        XorSwaps(y, g, z, g);
      } else {
        XorTrailing(y, z, n);
        XorSwaps(y, g, z, 0);
      }
    } else if z >= Pow2(n) {
      XorTrailing(z, y, n);
      XorCommutes(y, z);
      XorSwaps(y, 0, z, g);
    } else {
      XorBound(y, z, n);
    }
  }

  /** Remainders add up. */
  lemma {:induction false} RemainderIsLinear(a: nat, b: nat, g: nat, n: nat)
    requires HasDegree(g, n)
    ensures Remainder(Xor(a, b), g, n) == Xor(Remainder(a, g, n), Remainder(b, g, n))
    decreases a + b
  {
    if a == 0 {
      XorWithZero(b);
      XorWithZero(Remainder(b, g, n));
    } else if b == 0 {
      XorWithZero(a);
      XorWithZero(Remainder(a, g, n));
    } else {
      var x, y := a / 2, b / 2;
      RemainderIsLinear(x, y, g, n);
      RemainderBound(x, g, n);
      RemainderBound(y, g, n);
      RemainderSum(x, a % 2 == 1, y, b % 2 == 1, g, n);
      assert a == 2 * x + FromBool(a % 2 == 1) && b == 2 * y + FromBool(b % 2 == 1);
    }
  }

  /** One digit more in each of two polynomials whose remainders add up. */
  lemma RemainderSum(a: nat, i: bool, b: nat, j: bool, g: nat, n: nat)
    requires HasDegree(g, n) && Remainder(a, g, n) < Pow2(n) && Remainder(b, g, n) < Pow2(n)
    requires Remainder(Xor(a, b), g, n) == Xor(Remainder(a, g, n), Remainder(b, g, n))
    ensures Remainder(Xor(2 * a + FromBool(i), 2 * b + FromBool(j)), g, n)
         == Xor(Remainder(2 * a + FromBool(i), g, n), Remainder(2 * b + FromBool(j), g, n))
  {
    var r, s := Remainder(a, g, n), Remainder(b, g, n);
    calc {
      Remainder(Xor(2 * a + FromBool(i), 2 * b + FromBool(j)), g, n);
    ==  { SumDigits(a, i, b, j, g, n); }
      Reduced(2 * Xor(r, s) + FromBool(i != j), g, n);
    ==  { ReducedDigits(r, i, s, j, g, n); }
      Xor(Reduced(2 * r + FromBool(i), g, n), Reduced(2 * s + FromBool(j), g, n));
    ==  { SummandDigits(a, i, b, j, g, n); }
      Xor(Remainder(2 * a + FromBool(i), g, n), Remainder(2 * b + FromBool(j), g, n));
    }
  }

  lemma SumDigits(a: nat, i: bool, b: nat, j: bool, g: nat, n: nat)
    ensures Remainder(Xor(2 * a + FromBool(i), 2 * b + FromBool(j)), g, n)
         == Reduced(2 * Remainder(Xor(a, b), g, n) + FromBool(i != j), g, n)
  {
    XorDigits(a, i, b, j);
    RemainderStep(Xor(a, b), i != j, g, n);
  }

  lemma SummandDigits(a: nat, i: bool, b: nat, j: bool, g: nat, n: nat)
    ensures Xor(Remainder(2 * a + FromBool(i), g, n), Remainder(2 * b + FromBool(j), g, n))
         == Xor(Reduced(2 * Remainder(a, g, n) + FromBool(i), g, n),
                Reduced(2 * Remainder(b, g, n) + FromBool(j), g, n))
  {
    RemainderStep(a, i, g, n);
    RemainderStep(b, j, g, n);
  }

  lemma ReducedDigits(r: nat, i: bool, s: nat, j: bool, g: nat, n: nat)
    requires HasDegree(g, n) && r < Pow2(n) && s < Pow2(n)
    ensures Reduced(2 * Xor(r, s) + FromBool(i != j), g, n)
         == Xor(Reduced(2 * r + FromBool(i), g, n), Reduced(2 * s + FromBool(j), g, n))
  {
    XorDigits(r, i, s, j);
    ReducedIsLinear(2 * r + FromBool(i), 2 * s + FromBool(j), g, n);
  }

  lemma RemainderStep(a: nat, b: bool, g: nat, n: nat)
    ensures Remainder(2 * a + FromBool(b), g, n) == Reduced(2 * Remainder(a, g, n) + FromBool(b), g, n)
  {
    assert Pow2(n) > 0;
    if a == 0 && !b {
    } else {
      assert (2 * a + FromBool(b)) / 2 == a && (2 * a + FromBool(b)) % 2 == FromBool(b);
    }
  }

  /** The remainder of a multiple of x^k depends on the remainder alone. */
  lemma {:induction false} RemainderOfShl(a: nat, k: nat, g: nat, n: nat)
    requires HasDegree(g, n)
    ensures Remainder(Shl(a, k), g, n) == Remainder(Shl(Remainder(a, g, n), k), g, n)
  {
    RemainderBound(a, g, n);
    RemainderOfSmall(Remainder(a, g, n), g, n);
    if k > 0 {
      RemainderOfShl(a, k - 1, g, n);
      RemainderStep(Shl(a, k - 1), false, g, n);
      RemainderStep(Shl(Remainder(a, g, n), k - 1), false, g, n);
    }
  }
}

/**
 Which lines of memory compete for a set of the cache, on line numbers: what fits into the cache is missed
 only once, and one line more than a set has ways, taken round and round, is missed every time.
 */
module WorkingSets {
  import opened Bits
  import opened LruList
  import opened LruStack

  lemma LineNumber(ea: Address)
    requires ea < 0x1_0000_0000
    ensures Line(ea) == ea / 16 * 16 && Line(ea) / 16 == ea / 16 && Line(ea) % 16 == 0
  {
  }

  /** The set is the line number modulo the number of sets. */
  lemma SetByDivision(ea: Address, lg2Lines: nat)
    requires ea < 0x1_0000_0000
    ensures SetIndex(ea, lg2Lines) == ea / 16 % Pow2(lg2Lines)
  {
    LineNumber(ea);
    LowIsRemainder(Line(ea) / 16, lg2Lines);
  }

  /** Two addresses compete for a set exactly when their line numbers agree modulo the number of sets. */
  lemma {:induction false} SharedSet(a: Address, b: Address, lg2Lines: nat)
    requires a < 0x1_0000_0000 && b < 0x1_0000_0000
    ensures SetIndex(a, lg2Lines) == SetIndex(b, lg2Lines) <==> a / 16 % Pow2(lg2Lines) == b / 16 % Pow2(lg2Lines)
  {
    SetByDivision(a, lg2Lines);
    SetByDivision(b, lg2Lines);
  }

  /** Addresses are taken modulo 2^32. */
  lemma Wraps(ea: Address, lg2Lines: nat)
    ensures Line(ea) == Line(ea % 0x1_0000_0000) && SetIndex(ea, lg2Lines) == SetIndex(ea % 0x1_0000_0000, lg2Lines)
  {
  }

  lemma {:induction false} SameResidue(x: nat, y: nat, m: nat)
    requires x < y && m > 0 && x % m == y % m
    ensures y - x >= m
  {
    Divided(x, m);
    Divided(y, m);
    MultiplesGrow(x / m, y / m, m);
    MultiplesGrow(y / m, x / m, m);
  }

  lemma Divided(x: nat, m: nat)
    requires m > 0
    ensures x == x / m * m + x % m
  {
  }

  lemma {:induction false} MultiplesGrow(q: nat, q': nat, m: nat)
    ensures q < q' ==> q' * m >= q * m + m
    ensures q == q' ==> q' * m == q * m
    decreases q'
  {
    if q < q' {
      MultiplesGrow(q, q' - 1, m);
      assert q' * m == (q' - 1) * m + m;
    }
  }

  /** The lines of one set among `count` lines from number `base` on. */
  function LinesOf(base: nat, count: nat, sets: nat, index: nat): set<Address>
    requires sets > 0
  {
    set x | 16 * base <= x < 16 * (base + count) && x % 16 == 0 && x / 16 % sets == index
  }

  /** As many consecutive lines as there are sets have at most one in each set. */
  lemma {:induction false} OneEach(base: nat, sets: nat, index: nat)
    requires sets > 0
    ensures |LinesOf(base, sets, sets, index)| <= 1
  {
    var lines := LinesOf(base, sets, sets, index);
    forall x, y | x in lines && y in lines
      ensures x == y
    {
      if x / 16 < y / 16 {
        SameResidue(x / 16, y / 16, sets);
      } else if y / 16 < x / 16 {
        SameResidue(y / 16, x / 16, sets);
      }
    }
    AtMostOne(lines);
  }

  lemma AtMostOne(s: set<Address>)
    requires forall x, y | x in s && y in s :: x == y
    ensures |s| <= 1
  {
    if s != {} {
      var x :| x in s;
      assert s == {x};
    }
  }

  lemma {:induction false} SomeEach(base: nat, n: nat, sets: nat, index: nat)
    requires sets > 0
    ensures |LinesOf(base, n * sets, sets, index)| <= n
  {
    if n == 0 {
      assert LinesOf(base, 0, sets, index) == {};
    } else {
      var before := LinesOf(base, (n - 1) * sets, sets, index);
      var block := LinesOf(base + (n - 1) * sets, sets, sets, index);
      SomeEach(base, n - 1, sets, index);
      OneEach(base + (n - 1) * sets, sets, index);
      assert n * sets == (n - 1) * sets + sets;
      assert LinesOf(base, n * sets, sets, index) == before + block;
    }
  }

  /** ea is in one of `count` consecutive lines below 2^32. */
  predicate Within(ea: Address, base: nat, count: nat) {
    ea < 0x1_0000_0000 && base <= ea / 16 < base + count
  }

  lemma {:induction false} LastOf(t: Trace, ea: Address, k: nat) returns (i: nat)
    requires k < |t| && Line(t[k]) == Line(ea)
    ensures LastAccess(t, ea, i)
    decreases |t| - k
  {
    if j :| k < j < |t| && Line(t[j]) == Line(ea) {
      i := LastOf(t, ea, j);
    } else {
      i := k;
    }
  }

  /** The line of ea was accessed before. */
  predicate Accessed(t: Trace, ea: Address) {
    exists k :: 0 <= k < |t| && t[k] / 16 == ea / 16
  }

  /**
   A working set that fits: if all accesses are to n * 2^lg2Lines consecutive lines, wherever they start, a
   line misses only the first time.
   */
  lemma {:induction false} WorkingSetFits(g: Geometry, t: Trace, base: nat, ea: Address)
    requires g.n > 0 && Within(ea, base, g.n * Pow2(g.lg2Lines))
    requires forall k | 0 <= k < |t| :: Within(t[k], base, g.n * Pow2(g.lg2Lines))
    ensures Hits(g, t, ea) <==> Accessed(t, ea)
  {
    StackTheorem(g, t, ea);
    if Accessed(t, ea) {
      var k :| 0 <= k < |t| && t[k] / 16 == ea / 16;
      LinesBelow32Bits(t[k], ea);
      var i := LastOf(t, ea, k);
      FewSince(g, t, base, g.n * Pow2(g.lg2Lines), ea, i);
    }
    if Hits(g, t, ea) {
      var i: nat :| LastAccess(t, ea, i);
      LinesBelow32Bits(t[i], ea);
    }
  }

  lemma {:induction false} FewSince(g: Geometry, t: Trace, base: nat, count: nat, ea: Address, i: nat)
    requires count == g.n * Pow2(g.lg2Lines) && Within(ea, base, count) && LastAccess(t, ea, i)
    requires forall k | 0 <= k < |t| :: Within(t[k], base, count)
    ensures |AccessedSince(g.lg2Lines, t, SetIndex(ea, g.lg2Lines), i + 1)| < g.n
  {
    var sets, index := Pow2(g.lg2Lines), SetIndex(ea, g.lg2Lines);
    var lines := LinesOf(base, count, sets, index);
    var since := AccessedSince(g.lg2Lines, t, index, i + 1);
    SomeEach(base, g.n, sets, index);
    forall x | x in since
      ensures x in lines && x != Line(ea)
    {
      var k :| i + 1 <= k < |t| && SetIndex(t[k], g.lg2Lines) == index && Line(t[k]) == x;
      InLines(t[k], base, count, g.lg2Lines);
    }
    InLines(ea, base, count, g.lg2Lines);
    Smaller(since, lines, Line(ea));
  }

  lemma InLines(ea: Address, base: nat, count: nat, lg2Lines: nat)
    requires Within(ea, base, count)
    ensures Line(ea) in LinesOf(base, count, Pow2(lg2Lines), SetIndex(ea, lg2Lines))
  {
    LineNumber(ea);
    SetByDivision(ea, lg2Lines);
  }

  lemma Smaller(s: set<Address>, lines: set<Address>, x: Address)
    requires s <= lines - {x} && x in lines
    ensures |s| < |lines|
  {
    Fewer(s, lines - {x});
  }

  lemma {:induction false} Fewer(s: set<Address>, s': set<Address>)
    requires s <= s'
    ensures |s| <= |s'|
  {
    if s != {} {
      var x :| x in s;
      Fewer(s - {x}, s' - {x});
    }
  }

  /** The number of the line that access i of a round trip over n + 1 lines is to. */
  function TripLine(g: Geometry, first: nat, i: nat): nat {
    first + i % (g.n + 1) * Pow2(g.lg2Lines)
  }

  /** A round trip over n + 1 lines that are a multiple of the number of sets apart. */
  predicate RoundTrip(g: Geometry, t: Trace, first: nat) {
    forall i | 0 <= i < |t| :: t[i] < 0x1_0000_0000 && t[i] / 16 == TripLine(g, first, i)
  }

  lemma {:induction false} RoundTripSet(g: Geometry, t: Trace, first: nat, i: nat)
    requires RoundTrip(g, t, first) && i < |t|
    ensures SetIndex(t[i], g.lg2Lines) == first % Pow2(g.lg2Lines)
  {
    SetByDivision(t[i], g.lg2Lines);
    StepsOf(first, i % (g.n + 1), Pow2(g.lg2Lines));
  }

  lemma StepsOf(first: nat, a: nat, sets: nat)
    requires sets > 0
    ensures (first + a * sets) % sets == first % sets
  {
    Divided(first, sets);
    assert (first / sets + a) * sets == first / sets * sets + a * sets;
    DivisionIs(first + a * sets, sets, first / sets + a, first % sets);
  }

  /** Accesses at most n apart are to different lines. */
  lemma {:induction false} Apart(g: Geometry, t: Trace, first: nat, i: nat, j: nat)
    requires RoundTrip(g, t, first) && i < j < |t|
    ensures t[i] / 16 == t[j] / 16 ==> j - i >= g.n + 1
  {
    var a, b := i % (g.n + 1), j % (g.n + 1);
    if t[i] / 16 == t[j] / 16 {
      MultiplesGrow(a, b, Pow2(g.lg2Lines));
      MultiplesGrow(b, a, Pow2(g.lg2Lines));
      SameResidue(i, j, g.n + 1);
    }
  }

  /** The lines accessed from position i to position j. */
  function LinesBetween(t: Trace, i: nat, j: nat): set<Address>
    requires i <= j <= |t|
  {
    set k | i <= k < j :: Line(t[k])
  }

  lemma {:induction false} AllDifferent(g: Geometry, t: Trace, first: nat, i: nat, j: nat)
    requires RoundTrip(g, t, first) && i <= j <= |t| && j - i <= g.n
    ensures |LinesBetween(t, i, j)| == j - i
    decreases j - i
  {
    if i < j {
      AllDifferent(g, t, first, i + 1, j);
      assert LinesBetween(t, i, j) == LinesBetween(t, i + 1, j) + {Line(t[i])};
      forall k | i + 1 <= k < j
        ensures Line(t[k]) != Line(t[i])
      {
        Apart(g, t, first, i, k);
        LinesBelow32Bits(t[i], t[k]);
      }
    }
  }

  /**
   One line too many: n + 1 lines that are a multiple of 2^lg2Lines lines apart compete for one set, and
   taken round and round each of them has been replaced when its turn comes.
   */
  lemma {:induction false} RoundTripMisses(g: Geometry, t: Trace, first: nat, i: nat)
    requires g.n > 0 && RoundTrip(g, t, first) && i < |t|
    ensures !Hits(g, t[..i], t[i])
  {
    var u, index := t[..i], SetIndex(t[i], g.lg2Lines);
    StackTheorem(g, u, t[i]);
    forall j: nat | LastAccess(u, t[i], j)
      ensures |AccessedSince(g.lg2Lines, u, index, j + 1)| >= g.n
    {
      LinesBelow32Bits(t[j], t[i]);
      Apart(g, t, first, j, i);
      AllDifferent(g, t, first, i - g.n, i);
      var between := LinesBetween(t, i - g.n, i);
      forall x | x in between
        ensures x in AccessedSince(g.lg2Lines, u, index, j + 1)
      {
        var k :| i - g.n <= k < i && Line(t[k]) == x;
        RoundTripSet(g, t, first, k);
        RoundTripSet(g, t, first, i);
        assert u[k] == t[k];
      }
      Fewer(between, AccessedSince(g.lg2Lines, u, index, j + 1));
    }
  }
}

/**
 Traces of accesses to a set-associative cache with least-recently-used replacement. What a set
 holds is a prefix of its recency order, whatever the associativity; from this follow the stack
 theorem (which accesses hit) and the inclusion property (more ways never lose a hit).
 */
module LruStack {
  import opened Bits
  import opened LruList
  import opened Sequences

  type Trace = seq<Address>

  /** The cache works on 16-byte lines of the low 32 address bits. */
  function Line(ea: Address): Address {
    ea % 0x1_0000_0000 / 16 * 16
  }

  function SetIndex(ea: Address, lg2Lines: nat): (index: nat)
    ensures index < Pow2(lg2Lines)
  {
    Low(Line(ea) / 16, lg2Lines)
  }

  /** Below 2^32 two addresses share a line exactly when they agree above the line offset. */
  lemma LinesBelow32Bits(a: Address, b: Address)
    requires a < 0x1_0000_0000 && b < 0x1_0000_0000
    ensures Line(a) == Line(b) <==> a / 16 == b / 16
  {
  }

  /** The geometry of a cache: 2^lg2Lines sets of n lines each. */
  datatype Geometry = Geometry(lg2Lines: nat, n: nat)

  function Last(t: Trace): Address
    requires t != []
  {
    t[|t| - 1]
  }

  function Butlast(t: Trace): Trace
    requires t != []
  {
    t[..|t| - 1]
  }

  /** What set `index` holds after the trace, most recently used line first. */
  function Held(g: Geometry, t: Trace, index: nat): seq<Address> {
    if t == [] then []
    else if SetIndex(Last(t), g.lg2Lines) == index then Touch(Held(g, Butlast(t), index), Line(Last(t)), g.n)
    else Held(g, Butlast(t), index)
  }

  /** All lines of set `index` ever accessed, most recently used first. */
  function Recency(lg2Lines: nat, t: Trace, index: nat): seq<Address> {
    if t == [] then []
    else if SetIndex(Last(t), lg2Lines) == index then
      [Line(Last(t))] + Without(Recency(lg2Lines, Butlast(t), index), Line(Last(t)))
    else Recency(lg2Lines, Butlast(t), index)
  }

  function Take(s: seq<Address>, n: nat): seq<Address> {
    if |s| <= n then s else s[..n]
  }

  lemma {:induction false} WithoutProperties(s: seq<Address>, x: Address)
    requires Distinct(s)
    ensures Distinct(Without(s, x)) && x !in Without(s, x)
    ensures forall y :: y in Without(s, x) <==> y in s && y != x
  {
    if x in s {
      var k :| 0 <= k < |s| && s[k] == x;
      WithoutAt(s, k);
      DroppedAbsent(s, k);
      forall y | y in s && y != x
        ensures y in Dropped(s, k)
      {
        var j :| 0 <= j < |s| && s[j] == y;
        assert Dropped(s, k)[if j < k then j else j - 1] == y;
      }
    } else {
      WithoutAbsent(s, x);
    }
  }

  lemma {:induction false} RecencyDistinct(lg2Lines: nat, t: Trace, index: nat)
    ensures Distinct(Recency(lg2Lines, t, index))
  {
    if t != [] {
      RecencyDistinct(lg2Lines, Butlast(t), index);
      WithoutProperties(Recency(lg2Lines, Butlast(t), index), Line(Last(t)));
    }
  }

  lemma TakeDropped(s: seq<Address>, k: nat, n: nat)
    requires k < |s| && k < n
    ensures k < |Take(s, n)| && Take(s, n)[k] == s[k]
    ensures Dropped(Take(s, n), k) == Take(Dropped(s, k), n - 1) || |s| <= n
    ensures |s| <= n ==> Take(s, n) == s
    ensures Take([s[k]] + Dropped(s, k), n) == Take([s[k]] + Dropped(Take(s, n), k), n)
  {
  }

  /** Accessing x in a list cut to n lines is cutting the list in which x was accessed. */
  lemma TouchTake(s: seq<Address>, x: Address, n: nat)
    requires Distinct(s) && n > 0
    ensures Touch(Take(s, n), x, n) == Take([x] + Without(s, x), n)
  {
    if k :| 0 <= k < |s| && s[k] == x {
      if k < n {
        TouchTakeNear(s, k, n);
      } else {
        TouchTakeFar(s, k, n);
      }
    } else {
      WithoutAbsent(s, x);
      WithoutAbsent(Take(s, n), x);
    }
  }

  lemma TouchTakeNear(s: seq<Address>, k: nat, n: nat)
    requires Distinct(s) && k < |s| && k < n
    ensures Touch(Take(s, n), s[k], n) == Take([s[k]] + Without(s, s[k]), n)
  {
    WithoutAt(s, k);
    TakeDropped(s, k, n);
    WithoutAt(Take(s, n), k);
  }

  lemma TouchTakeFar(s: seq<Address>, k: nat, n: nat)
    requires Distinct(s) && 0 < n <= k < |s|
    ensures Touch(Take(s, n), s[k], n) == Take([s[k]] + Without(s, s[k]), n)
  {
    WithoutAt(s, k);
    NotInPrefix(s, k, n);
    WithoutAbsent(s[..n], s[k]);
    TakeBehind(s[..n], Dropped(s, k), s[k]);
  }

  lemma TakeBehind(front: seq<Address>, rest: seq<Address>, x: Address)
    requires front != [] && front <= rest
    ensures Take([x] + rest, |front|) == Take([x] + front, |front|)
  {
  }

  /** Inclusion: a set holds the n most recently used of its lines, for every n. */
  lemma {:induction false} HeldIsPrefix(g: Geometry, t: Trace, index: nat)
    requires g.n > 0
    ensures Held(g, t, index) == Take(Recency(g.lg2Lines, t, index), g.n)
  {
    if t != [] {
      HeldIsPrefix(g, Butlast(t), index);
      RecencyDistinct(g.lg2Lines, Butlast(t), index);
      TouchTake(Recency(g.lg2Lines, Butlast(t), index), Line(Last(t)), g.n);
    }
  }

  /** The lines of set `index` accessed from position i of the trace on. */
  function AccessedSince(lg2Lines: nat, t: Trace, index: nat, i: nat): set<Address>
    requires i <= |t|
  {
    set j | i <= j < |t| && SetIndex(t[j], lg2Lines) == index :: Line(t[j])
  }

  lemma SinceExtends(lg2Lines: nat, t: Trace, index: nat, i: nat)
    requires t != [] && i < |t|
    ensures AccessedSince(lg2Lines, t, index, i)
         == AccessedSince(lg2Lines, Butlast(t), index, i)
            + (if SetIndex(Last(t), lg2Lines) == index then {Line(Last(t))} else {})
  {
    var before := AccessedSince(lg2Lines, Butlast(t), index, i);
    forall x | x in before
      ensures x in AccessedSince(lg2Lines, t, index, i)
    {
      var j :| i <= j < |t| - 1 && SetIndex(Butlast(t)[j], lg2Lines) == index && Line(Butlast(t)[j]) == x;
      assert t[j] == Butlast(t)[j];
    }
    forall x | x in AccessedSince(lg2Lines, t, index, i) && (SetIndex(Last(t), lg2Lines) != index || x != Line(Last(t)))
      ensures x in before
    {
      var j :| i <= j < |t| && SetIndex(t[j], lg2Lines) == index && Line(t[j]) == x;
      assert t[j] == Butlast(t)[j];
    }
  }

  /** The elements of s as a set. */
  function Elements(s: seq<Address>): set<Address> {
    set x | x in s
  }

  /** The lines accessed since position i lead the recency order. */
  lemma {:induction false} RecentLead(lg2Lines: nat, t: Trace, index: nat, i: nat)
    requires i <= |t|
    ensures var m := |AccessedSince(lg2Lines, t, index, i)|;
      m <= |Recency(lg2Lines, t, index)|
      && Elements(Recency(lg2Lines, t, index)[..m]) == AccessedSince(lg2Lines, t, index, i)
  {
    if i < |t| {
      RecentLead(lg2Lines, Butlast(t), index, i);
      SinceExtends(lg2Lines, t, index, i);
      if SetIndex(Last(t), lg2Lines) == index {
        RecencyDistinct(lg2Lines, Butlast(t), index);
        MoveToLead(Recency(lg2Lines, Butlast(t), index), Line(Last(t)),
                   AccessedSince(lg2Lines, Butlast(t), index, i));
      }
    }
  }

  lemma MoveToLead(s: seq<Address>, x: Address, lead: set<Address>)
    requires Distinct(s) && |lead| <= |s| && Elements(s[..|lead|]) == lead
    ensures var s', lead' := [x] + Without(s, x), lead + {x};
      |lead'| <= |s'| && Elements(s'[..|lead'|]) == lead'
  {
    if k :| 0 <= k < |s| && s[k] == x {
      WithoutAt(s, k);
      if k < |lead| {
        InPrefix(s, k, |lead|);
        assert lead + {x} == lead;
        LeadKept(s, k, |lead|);
      } else {
        NotInPrefix(s, k, |lead|);
        NewLead(s[..|lead|], Dropped(s, k), x);
      }
    } else {
      WithoutAbsent(s, x);
      NewLead(s[..|lead|], s, x);
    }
  }

  lemma NotInPrefix(s: seq<Address>, k: nat, m: nat)
    requires Distinct(s) && m <= k < |s|
    ensures s[k] !in s[..m] && s[..m] <= Dropped(s, k)
  {
  }

  /** A line that was not in the lead joins it. */
  lemma NewLead(front: seq<Address>, rest: seq<Address>, x: Address)
    requires x !in front && front <= rest
    ensures |Elements(front) + {x}| == |Elements(front)| + 1
    ensures Elements(([x] + rest)[..|front| + 1]) == Elements(front) + {x}
  {
    assert ([x] + rest)[..|front| + 1] == [x] + front;
    LeadGrows(front, x);
  }

  lemma InPrefix(s: seq<Address>, k: nat, m: nat)
    requires k < |s| && m <= |s|
    ensures k < m ==> s[k] in Elements(s[..m])
  {
    assert k < m ==> s[..m][k] == s[k];
  }

  lemma LeadGrows(s: seq<Address>, x: Address)
    requires x !in s
    ensures Elements([x] + s) == Elements(s) + {x}
    ensures |Elements(s) + {x}| == |Elements(s)| + 1
  {
  }

  lemma LeadKept(s: seq<Address>, k: nat, m: nat)
    requires k < m <= |s|
    ensures Elements(([s[k]] + Dropped(s, k))[..m]) == Elements(s[..m])
  {
    var a, b := ([s[k]] + Dropped(s, k))[..m], s[..m];
    forall x | x in b
      ensures x in a
    {
      var j :| 0 <= j < m && b[j] == x;
      assert a[if j < k then j + 1 else if j == k then 0 else j] == x;
    }
    forall x | x in a
      ensures x in b
    {
      var j :| 0 <= j < m && a[j] == x;
      assert b[if j == 0 then k else if j <= k then j - 1 else j] == x;
    }
  }

  /** Position i is the last access to the line of ea. */
  predicate LastAccess(t: Trace, ea: Address, i: nat) {
    i < |t| && Line(t[i]) == Line(ea) && forall j | i < j < |t| :: Line(t[j]) != Line(ea)
  }

  predicate Hits(g: Geometry, t: Trace, ea: Address) {
    Line(ea) in Held(g, t, SetIndex(ea, g.lg2Lines))
  }

  /** A line that was last accessed at i is behind exactly the other lines accessed since. */
  lemma PositionOf(lg2Lines: nat, t: Trace, ea: Address, i: nat)
    requires LastAccess(t, ea, i)
    ensures var index := SetIndex(ea, lg2Lines);
      var m := |AccessedSince(lg2Lines, t, index, i + 1)|;
      m < |Recency(lg2Lines, t, index)| && Recency(lg2Lines, t, index)[m] == Line(ea)
  {
    var index := SetIndex(ea, lg2Lines);
    var s, since := Recency(lg2Lines, t, index), AccessedSince(lg2Lines, t, index, i + 1);
    RecentLead(lg2Lines, t, index, i);
    RecentLead(lg2Lines, t, index, i + 1);
    LineDecidesSet(t[i], ea, lg2Lines);
    assert Line(ea) !in since;
    assert AccessedSince(lg2Lines, t, index, i) == since + {Line(ea)} by {
      assert SetIndex(t[i], lg2Lines) == index;
      forall x | x in AccessedSince(lg2Lines, t, index, i)
        ensures x in since + {Line(ea)}
      {
        var j :| i <= j < |t| && SetIndex(t[j], lg2Lines) == index && Line(t[j]) == x;
        assert j == i || x in since;
      }
    }
    var m := |since|;
    assert Line(ea) in Elements(s[..m + 1]);
    var k :| 0 <= k < m + 1 && s[..m + 1][k] == Line(ea);
    InPrefix(s, k, m);
  }

  lemma LineDecidesSet(a: Address, b: Address, lg2Lines: nat)
    requires Line(a) == Line(b)
    ensures SetIndex(a, lg2Lines) == SetIndex(b, lg2Lines)
  {
  }

  lemma {:induction false} HeldWasAccessed(lg2Lines: nat, t: Trace, ea: Address) returns (i: nat)
    requires Line(ea) in Recency(lg2Lines, t, SetIndex(ea, lg2Lines))
    ensures LastAccess(t, ea, i)
    decreases |t|
  {
    if Line(Last(t)) == Line(ea) {
      i := |t| - 1;
    } else {
      var index := SetIndex(ea, lg2Lines);
      RecencyDistinct(lg2Lines, Butlast(t), index);
      WithoutProperties(Recency(lg2Lines, Butlast(t), index), Line(Last(t)));
      i := HeldWasAccessed(lg2Lines, Butlast(t), ea);
      assert t[i] == Butlast(t)[i];
      assert forall j | i < j < |t| - 1 :: t[j] == Butlast(t)[j];
    }
  }

  /**
   The stack theorem. After any trace, an access hits if and only if its line was accessed before
   and fewer than n other lines of its set have been accessed since.
   */
  lemma {:induction false} StackTheorem(g: Geometry, t: Trace, ea: Address)
    requires g.n > 0
    ensures Hits(g, t, ea)
       <==> exists i: nat :: LastAccess(t, ea, i)
                        && |AccessedSince(g.lg2Lines, t, SetIndex(ea, g.lg2Lines), i + 1)| < g.n
  {
    var index := SetIndex(ea, g.lg2Lines);
    var s := Recency(g.lg2Lines, t, index);
    HeldIsPrefix(g, t, index);
    RecencyDistinct(g.lg2Lines, t, index);
    if Hits(g, t, ea) {
      var i := HeldWasAccessed(g.lg2Lines, t, ea);
      PositionOf(g.lg2Lines, t, ea, i);
      var k :| 0 <= k < |Take(s, g.n)| && Take(s, g.n)[k] == Line(ea);
      assert s[k] == s[|AccessedSince(g.lg2Lines, t, index, i + 1)|];
    }
    forall i: nat | LastAccess(t, ea, i) && |AccessedSince(g.lg2Lines, t, index, i + 1)| < g.n
      ensures Hits(g, t, ea)
    {
      PositionOf(g.lg2Lines, t, ea, i);
      assert Take(s, g.n)[|AccessedSince(g.lg2Lines, t, index, i + 1)|] == Line(ea);
    }
  }

  function HitCount(g: Geometry, t: Trace): nat {
    if t == [] then 0 else HitCount(g, Butlast(t)) + if Hits(g, Butlast(t), Last(t)) then 1 else 0
  }

  /** The line accessed is already the most recently used one of its set. */
  predicate MruHits(g: Geometry, t: Trace, ea: Address) {
    var held := Held(g, t, SetIndex(ea, g.lg2Lines));
    held != [] && held[0] == Line(ea)
  }

  function MruCount(g: Geometry, t: Trace): nat {
    if t == [] then 0 else MruCount(g, Butlast(t)) + if MruHits(g, Butlast(t), Last(t)) then 1 else 0
  }

  /** How many accesses went to set `index`. */
  function SetCount(lg2Lines: nat, t: Trace, index: nat): nat {
    if t == [] then 0
    else SetCount(lg2Lines, Butlast(t), index) + if SetIndex(Last(t), lg2Lines) == index then 1 else 0
  }

  lemma HeldStep(g: Geometry, t: Trace, ea: Address, index: nat)
    ensures Held(g, t + [ea], index) == if SetIndex(ea, g.lg2Lines) == index
                                        then Touch(Held(g, t, index), Line(ea), g.n) else Held(g, t, index)
  {
    assert Butlast(t + [ea]) == t;
  }

  lemma Accessed(g: Geometry, t: Trace, ea: Address)
    ensures HitCount(g, t + [ea]) == HitCount(g, t) + if Hits(g, t, ea) then 1 else 0
    ensures MruCount(g, t + [ea]) == MruCount(g, t) + if MruHits(g, t, ea) then 1 else 0
    ensures forall i :: SetCount(g.lg2Lines, t + [ea], i)
                     == SetCount(g.lg2Lines, t, i) + if SetIndex(ea, g.lg2Lines) == i then 1 else 0
  {
    assert Butlast(t + [ea]) == t;
  }

  /** With as many sets and more ways, each set holds at least the same lines. */
  lemma MoreWaysHoldMore(lg2Lines: nat, n: nat, n': nat, t: Trace, index: nat)
    requires 0 < n <= n'
    ensures Held(Geometry(lg2Lines, n), t, index) <= Held(Geometry(lg2Lines, n'), t, index)
  {
    HeldIsPrefix(Geometry(lg2Lines, n), t, index);
    HeldIsPrefix(Geometry(lg2Lines, n'), t, index);
  }

  /** Hence no trace has fewer hits, in total or at any point, when ways are added. */
  lemma {:induction false} MoreWaysHitMore(lg2Lines: nat, n: nat, n': nat, t: Trace)
    requires 0 < n <= n'
    ensures HitCount(Geometry(lg2Lines, n), t) <= HitCount(Geometry(lg2Lines, n'), t)
  {
    if t != [] {
      MoreWaysHitMore(lg2Lines, n, n', Butlast(t));
      MoreWaysHoldMore(lg2Lines, n, n', Butlast(t), SetIndex(Last(t), lg2Lines));
    }
  }

  /** The most recently used line of a set is the same for every associativity, and so are its hits. */
  lemma {:induction false} MruHitsAreFixed(lg2Lines: nat, n: nat, n': nat, t: Trace)
    requires 0 < n <= n'
    ensures MruCount(Geometry(lg2Lines, n), t) == MruCount(Geometry(lg2Lines, n'), t)
  {
    if t != [] {
      MruHitsAreFixed(lg2Lines, n, n', Butlast(t));
      HeldIsPrefix(Geometry(lg2Lines, n), Butlast(t), SetIndex(Last(t), lg2Lines));
      HeldIsPrefix(Geometry(lg2Lines, n'), Butlast(t), SetIndex(Last(t), lg2Lines));
    }
  }
}

/**
 The cache object: one recency list per set and the counters the simulator reports. Its ghost trace
 is the sequence of accesses made so far; Valid() ties lists and counters to it.
 */
module NwayCaches {
  import opened Bits
  import opened LruList
  import opened LruStack

  class NwayCache {
    const lg2Lines: nat
    const nways: nat
    const ways: seq<Way>
    const accessDistribution: array<nat>
    var hits: nat
    var accesses: nat
    var hitMru: nat

    ghost var trace: Trace

    function Shape(): Geometry {
      Geometry(lg2Lines, nways)
    }

    /** The nodes of the sets. */
    ghost const nodes: seq<array<Entry>>

    ghost predicate Separate() {
      && nways >= 2
      && |ways| == |nodes| == accessDistribution.Length == Pow2(lg2Lines)
      && (forall i | 0 <= i < |ways| :: ways[i].entries == nodes[i] && nodes[i].Length == nways)
      && (forall i, j | 0 <= i < j < |ways| :: ways[i] != ways[j])
      && (forall i, j | 0 <= i < j < |nodes| :: nodes[i] != nodes[j])
    }

    ghost predicate SetValid(i: nat, t: Trace)
      requires Separate() && i < |ways|
      reads ways, nodes
    {
      ways[i].Valid() && ways[i].Contents() == Held(Shape(), t, i)
    }

    ghost predicate Valid()
      reads this, accessDistribution, ways, nodes
    {
      && Separate()
      && (forall i | 0 <= i < |ways| :: SetValid(i, trace))
      && (forall i | 0 <= i < |ways| :: accessDistribution[i] == SetCount(lg2Lines, trace, i))
      && accesses == |trace|
      && hits == HitCount(Shape(), trace)
      && hitMru == MruCount(Shape(), trace)
    }

    constructor (nways: nat, lg2Lines: nat)
      requires nways >= 2 && lg2Lines < 32
      ensures Valid() && trace == [] && this.nways == nways && this.lg2Lines == lg2Lines
    {
      var sets: seq<Way> := [];
      ghost var arrays: seq<array<Entry>> := [];
      for l := 0 to Pow2(lg2Lines)
        invariant |sets| == |arrays| == l
        invariant forall k | 0 <= k < l :: fresh(sets[k]) && fresh(arrays[k]) && sets[k].entries == arrays[k]
        invariant forall k | 0 <= k < l :: sets[k].Valid() && sets[k].Contents() == [] && arrays[k].Length == nways
        invariant forall i, j | 0 <= i < j < l :: sets[i] != sets[j] && arrays[i] != arrays[j]
      {
        var w := new Way(nways);
        sets, arrays := sets + [w], arrays + [w.entries];
      }
      this.nways, this.lg2Lines := nways, lg2Lines;
      ways, nodes := sets, arrays;
      accessDistribution := new nat[Pow2(lg2Lines)](_ => 0);
      hits, accesses, hitMru := 0, 0, 0;
      trace := [];
      new;
      assert forall i | 0 <= i < |ways| :: SetValid(i, trace);
    }

    /**
     One access. Only the line's own set is searched and reordered; by the stack theorem this is a
     hit exactly when the line was used more recently than nways other lines of the set.
     */
    method Access(ea: Address) returns (hit: bool)
      requires Valid()
      modifies this, accessDistribution, ways, nodes
      ensures Valid() && trace == old(trace) + [ea]
      ensures hit == Hits(Shape(), old(trace), ea)
    {
      Accessed(Shape(), trace, ea);
      var idx := SetIndex(ea, lg2Lines);
      accesses := accesses + 1;
      var mru: bool;
      hit, mru := AccessSet(idx, ea);
      accessDistribution[idx] := accessDistribution[idx] + 1;
      if hit {
        hits := hits + 1;
        if mru {
          hitMru := hitMru + 1;
        }
      }
      trace := trace + [ea];
    }

    /** The access to the line's set; the other sets do not change. */
    method AccessSet(idx: nat, ea: Address) returns (hit: bool, mru: bool)
      requires Separate() && forall i | 0 <= i < |ways| :: SetValid(i, trace)
      requires idx == SetIndex(ea, lg2Lines)
      modifies ways, nodes
      ensures Separate() && forall i | 0 <= i < |ways| :: SetValid(i, trace + [ea])
      ensures hit == Hits(Shape(), trace, ea)
      ensures mru == MruHits(Shape(), trace, ea)
    {
      assert SetValid(idx, trace);
      hit, mru := ways[idx].Access(Line(ea));
      forall i | 0 <= i < |ways|
        ensures SetValid(i, trace + [ea])
      {
        HeldStep(Shape(), trace, ea, i);
        assert i != idx ==> old(SetValid(i, trace));
      }
    }
  }
}

/**
 One set of the cache: a doubly linked recency list and a free list threaded through a fixed array
 of nodes. The list refines a bounded sequence of addresses, most recently used first.
 */
module LruList {
  import opened Sequences

  type Address = nat

  /** s without its occurrences of x. */
  function Without(s: seq<Address>, x: Address): seq<Address> {
    if s == [] then []
    else if s[0] == x then Without(s[1..], x)
    else [s[0]] + Without(s[1..], x)
  }

  /** The recency sequence after an access: x first, the others in order, cut to n addresses. */
  function Touch(s: seq<Address>, x: Address, n: nat): seq<Address> {
    var moved := [x] + Without(s, x);
    if |moved| <= n then moved else moved[..n]
  }

  /** s without its k-th element. */
  function Dropped<T>(s: seq<T>, k: nat): (d: seq<T>)
    requires k < |s|
    ensures |d| == |s| - 1
  {
    seq(|s| - 1, i requires 0 <= i < |s| - 1 => if i < k then s[i] else s[i + 1])
  }

  lemma DroppedAt<T>(s: seq<T>, k: nat, i: nat)
    requires k < |s| && i < |s| - 1
    ensures Dropped(s, k)[i] == s[if i < k then i else i + 1]
  {
  }

  lemma DroppedAbsent<T>(s: seq<T>, k: nat)
    requires Distinct(s) && k < |s|
    ensures s[k] !in Dropped(s, k)
  {
  }

  lemma DroppedDistinct<T>(s: seq<T>, k: nat, x: T)
    requires Distinct(s) && k < |s| && x !in Dropped(s, k)
    ensures Distinct([x] + Dropped(s, k))
  {
  }

  lemma {:induction false} WithoutAbsent(s: seq<Address>, x: Address)
    requires x !in s
    ensures Without(s, x) == s
  {
    if s != [] {
      WithoutAbsent(s[1..], x);
    }
  }

  lemma {:induction false} WithoutAt(s: seq<Address>, k: nat)
    requires Distinct(s) && k < |s|
    ensures Without(s, s[k]) == Dropped(s, k)
  {
    if k == 0 {
      WithoutAbsent(s[1..], s[0]);
      assert Dropped(s, 0) == s[1..];
    } else {
      assert s[1..][k - 1] == s[k];
      WithoutAt(s[1..], k - 1);
      assert Dropped(s, k) == [s[0]] + Dropped(s[1..], k - 1);
    }
  }

  /** The recency sequence after an access to ea, which is at place `at` or nowhere. */
  lemma TouchByPlace(s: seq<Address>, at: nat, ea: Address, n: nat)
    requires Distinct(s) && |s| <= n && n > 0 && at <= |s|
    requires if at < |s| then s[at] == ea else ea !in s
    ensures Touch(s, ea, n) == if at == 0 && s != [] then s
                               else if at < |s| then [ea] + Dropped(s, at)
                               else if |s| < n then [ea] + s
                               else [ea] + Dropped(s, n - 1)
  {
    if at < |s| {
      WithoutAt(s, at);
    } else {
      WithoutAbsent(s, ea);
    }
  }

  /** A pointer to a node of the array is its index; NULL points to none. */
  type Pointer = x: int | -1 <= x witness -1

  const NULL: Pointer := -1

  datatype Entry = Entry(next: Pointer, prev: Pointer, addr: Address)

  function PointerAt(s: seq<nat>, i: int): Pointer {
    if 0 <= i < |s| then s[i] else NULL
  }

  /** From head, the next pointers lead through exactly the nodes s and end in NULL. */
  predicate Chain(es: seq<Entry>, head: Pointer, s: seq<nat>) {
    && head == PointerAt(s, 0)
    && (forall i | 0 <= i < |s| :: s[i] < |es|)
    && (forall i {:trigger es[s[i]]} | 0 <= i < |s| :: es[s[i]].next == PointerAt(s, i + 1))
  }

  /** Every node of s points back to its predecessor. */
  predicate BackLinked(es: seq<Entry>, s: seq<nat>)
    requires forall i | 0 <= i < |s| :: s[i] < |es|
  {
    forall i {:trigger es[s[i]]} | 0 <= i < |s| :: es[s[i]].prev == PointerAt(s, i - 1)
  }

  function Addresses(es: seq<Entry>, s: seq<nat>): (a: seq<Address>)
    requires forall i | 0 <= i < |s| :: s[i] < |es|
    ensures |a| == |s|
  {
    seq(|s|, i requires 0 <= i < |s| => es[s[i]].addr)
  }

  /** A doubly linked list through the nodes s. */
  predicate Linked(es: seq<Entry>, head: Pointer, s: seq<nat>) {
    Chain(es, head, s) && BackLinked(es, s) && Distinct(s)
  }

  /** Node n, holding addr, is put in front of head. */
  function PushedFront(es: seq<Entry>, head: Pointer, n: nat, addr: Address): (es': seq<Entry>)
    requires n < |es| && head < |es|
    ensures |es'| == |es|
  {
    var es0 := if head == NULL then es else es[head := es[head].(prev := n)];
    es0[n := Entry(head, NULL, addr)]
  }

  /** The neighbours of node n are linked past it. */
  function Unlinked(es: seq<Entry>, n: nat): (es': seq<Entry>)
    requires n < |es| && es[n].next < |es| && es[n].prev < |es|
    ensures |es'| == |es|
  {
    var es0 := if es[n].next == NULL then es
               else es[es[n].next := es[es[n].next].(prev := es[n].prev)];
    if es[n].prev == NULL then es0 else es0[es[n].prev := es0[es[n].prev].(next := es[n].next)]
  }

  lemma PushFrontLinks(es: seq<Entry>, head: Pointer, s: seq<nat>, n: nat, addr: Address)
    requires Linked(es, head, s) && n < |es| && n !in s
    ensures Linked(PushedFront(es, head, n, addr), n, [n] + s)
    ensures Addresses(PushedFront(es, head, n, addr), [n] + s) == [addr] + Addresses(es, s)
  {
    var es', s' := PushedFront(es, head, n, addr), [n] + s;
    forall i | 0 <= i < |s'|
      ensures es'[s'[i]].next == PointerAt(s', i + 1) && es'[s'[i]].prev == PointerAt(s', i - 1)
      ensures es'[s'[i]].addr == ([addr] + Addresses(es, s))[i]
    {
      if i > 0 {
        assert s'[i] == s[i - 1] && (i > 1 ==> s[i - 1] != s[0]);
      }
    }
  }

  lemma UnlinkedNode(es: seq<Entry>, head: Pointer, s: seq<nat>, k: nat, j: nat)
    requires Linked(es, head, s) && 0 < k < |s| && j < |s|
    ensures es[s[k]].next < |es| && es[s[k]].prev < |es|
    ensures Unlinked(es, s[k])[s[j]]
         == Entry(if j == k - 1 then PointerAt(s, k + 1) else PointerAt(s, j + 1),
                  if j == k + 1 then s[k - 1] else PointerAt(s, j - 1),
                  es[s[j]].addr)
  {
    assert es[s[k]].next == PointerAt(s, k + 1) && es[s[k]].prev == PointerAt(s, k - 1) == s[k - 1];
    assert es[s[j]].next == PointerAt(s, j + 1) && es[s[j]].prev == PointerAt(s, j - 1);
    assert s[j] == s[k - 1] ==> j == k - 1;
    assert k + 1 < |s| && s[j] == s[k + 1] ==> j == k + 1;
  }

  lemma DroppedPointer(s: seq<nat>, k: nat, i: int)
    requires k < |s|
    ensures PointerAt(Dropped(s, k), i) == PointerAt(s, if i < k then i else i + 1)
  {
  }

  /** What unlinking the k-th node leaves at the i-th node of the remaining list. */
  lemma UnlinkedEntry(es: seq<Entry>, head: Pointer, s: seq<nat>, k: nat, i: nat)
    requires Linked(es, head, s) && 0 < k < |s| && i < |s| - 1
    ensures es[s[k]].next < |es| && es[s[k]].prev < |es|
    ensures var s' := Dropped(s, k);
      Unlinked(es, s[k])[s'[i]] == Entry(PointerAt(s', i + 1), PointerAt(s', i - 1), es[s'[i]].addr)
  {
    UnlinkedNode(es, head, s, k, if i < k then i else i + 1);
    DroppedPointer(s, k, i + 1);
    DroppedPointer(s, k, i - 1);
  }

  lemma UnlinkedAddress(es: seq<Entry>, head: Pointer, s: seq<nat>, k: nat, i: nat)
    requires Linked(es, head, s) && 0 < k < |s| && i < |s| - 1
    ensures es[s[k]].next < |es| && es[s[k]].prev < |es|
    ensures Dropped(s, k)[i] < |es|
    ensures Unlinked(es, s[k])[Dropped(s, k)[i]].addr == Dropped(Addresses(es, s), k)[i]
  {
    UnlinkedNode(es, head, s, k, if i < k then i else i + 1);
    DroppedAt(s, k, i);
    DroppedAt(Addresses(es, s), k, i);
  }

  lemma UnlinkedAddresses(es: seq<Entry>, head: Pointer, s: seq<nat>, k: nat)
    requires Linked(es, head, s) && 0 < k < |s|
    ensures es[s[k]].next < |es| && es[s[k]].prev < |es|
    ensures forall i | 0 <= i < |s| - 1 :: Dropped(s, k)[i] < |es|
    ensures Addresses(Unlinked(es, s[k]), Dropped(s, k)) == Dropped(Addresses(es, s), k)
  {
    UnlinkedNode(es, head, s, k, k);
    forall i | 0 <= i < |s| - 1
      ensures Dropped(s, k)[i] < |es|
      ensures Unlinked(es, s[k])[Dropped(s, k)[i]].addr == Dropped(Addresses(es, s), k)[i]
    {
      UnlinkedAddress(es, head, s, k, i);
    }
  }

  lemma {:induction false} UnlinkLinks(es: seq<Entry>, head: Pointer, s: seq<nat>, k: nat)
    requires Linked(es, head, s) && 0 < k < |s|
    ensures es[s[k]].next < |es| && es[s[k]].prev < |es|
    ensures Linked(Unlinked(es, s[k]), head, Dropped(s, k)) && s[k] !in Dropped(s, k)
    ensures Addresses(Unlinked(es, s[k]), Dropped(s, k)) == Dropped(Addresses(es, s), k)
  {
    UnlinkedAddresses(es, head, s, k);
    UnlinkedNode(es, head, s, k, k);
    DroppedAbsent(s, k);
    forall i | 0 <= i < |s| - 1
      ensures var s' := Dropped(s, k);
        Unlinked(es, s[k])[s'[i]] == Entry(PointerAt(s', i + 1), PointerAt(s', i - 1), es[s'[i]].addr)
    {
      UnlinkedEntry(es, head, s, k, i);
    }
  }

  predicate Disjoint(s: seq<nat>, t: seq<nat>) {
    forall i, j | 0 <= i < |s| && 0 <= j < |t| :: s[i] != t[j]
  }

  /**
   The recency list holds the nodes lru and is linked both ways; the free list holds the nodes
   free; no node is twice in a list or in both, and together they are all nodes.
   */
  predicate WellLinked(es: seq<Entry>, lrulist: Pointer, lru: seq<nat>, freelist: Pointer, free: seq<nat>) {
    && Linked(es, lrulist, lru)
    && Chain(es, freelist, free)
    && Distinct(free) && Disjoint(lru, free)
    && |lru| + |free| == |es|
    && Distinct(Addresses(es, lru))
  }

  /** A list is not affected by changes to nodes it does not contain. */
  lemma ChainFrame(es: seq<Entry>, es': seq<Entry>, head: Pointer, s: seq<nat>)
    requires Chain(es, head, s) && |es'| == |es|
    requires forall i | 0 <= i < |s| :: es'[s[i]] == es[s[i]]
    ensures Chain(es', head, s)
  {
  }

  lemma FreeUntouched(es: seq<Entry>, head: Pointer, lru: seq<nat>, freelist: Pointer, free: seq<nat>,
                      k: nat, addr: Address)
    requires WellLinked(es, head, lru, freelist, free) && 0 < k < |lru|
    ensures es[lru[k]].next < |es| && es[lru[k]].prev < |es|
    ensures Chain(PushedFront(Unlinked(es, lru[k]), head, lru[k], addr), freelist, free)
  {
    var n := lru[k];
    assert es[n].next == PointerAt(lru, k + 1) && es[n].prev == PointerAt(lru, k - 1);
    assert head == PointerAt(lru, 0);
    ChainFrame(es, Unlinked(es, n), freelist, free);
    ChainFrame(Unlinked(es, n), PushedFront(Unlinked(es, n), head, n, addr), freelist, free);
  }

  /** Unlinking a node that is not the head and putting it in front, holding addr. */
  lemma {:induction false} MovedToFront(es: seq<Entry>, head: Pointer, lru: seq<nat>, freelist: Pointer,
                                        free: seq<nat>, k: nat, addr: Address)
    requires WellLinked(es, head, lru, freelist, free) && 0 < k < |lru|
    requires addr !in Dropped(Addresses(es, lru), k)
    ensures es[lru[k]].next < |es| && es[lru[k]].prev < |es|
    ensures var es', lru' := PushedFront(Unlinked(es, lru[k]), head, lru[k], addr), [lru[k]] + Dropped(lru, k);
      && WellLinked(es', lru[k], lru', freelist, free)
      && Addresses(es', lru') == [addr] + Dropped(Addresses(es, lru), k)
  {
    UnlinkLinks(es, head, lru, k);
    PushFrontLinks(Unlinked(es, lru[k]), head, Dropped(lru, k), lru[k], addr);
    FreeUntouched(es, head, lru, freelist, free, k, addr);
    DroppedDistinct(Addresses(es, lru), k, addr);
    forall i, j | 0 <= i < |lru| && 0 <= j < |free|
      ensures ([lru[k]] + Dropped(lru, k))[i] != free[j]
    {
      assert lru[k] != free[j];
    }
  }

  class Way {
    const entries: array<Entry>
    var freelist: Pointer
    var lrulist: Pointer

    /** The nodes of the two lists, in list order. */
    ghost var lru: seq<nat>
    ghost var free: seq<nat>

    ghost predicate Valid()
      reads this, entries
    {
      entries.Length >= 2 && WellLinked(entries[..], lrulist, lru, freelist, free)
    }

    ghost function Contents(): seq<Address>
      requires Valid()
      reads this, entries
    {
      Addresses(entries[..], lru)
    }

    constructor (ways: nat)
      requires ways >= 2
      ensures Valid() && entries.Length == ways && Contents() == [] && fresh(entries)
    {
      var es := new Entry[ways](_ => Entry(NULL, NULL, 0));
      var c := 0;
      for i := 1 to ways
        invariant c == i - 1
        invariant forall k | 0 <= k < ways :: es[k].next == if k + 1 < i then k + 1 else NULL
      {
        es[c] := es[c].(next := i);
        es[i] := es[i].(prev := c);
        c := i;
      }
      entries := es;
      freelist, lrulist := 0, NULL;
      lru, free := [], seq(ways, i => i);
    }

    /** Walk the recency list to the node that holds ea; l is the node before, or the last one. */
    method Search(ea: Address) returns (p: Pointer, l: Pointer, ghost at: nat)
      requires Valid()
      ensures at <= |lru| && p == PointerAt(lru, at) && l == PointerAt(lru, at - 1)
      ensures at < |lru| ==> Contents()[at] == ea
      ensures at == |lru| ==> ea !in Contents()
      ensures p == NULL <==> ea !in Contents()
    {
      p, l, at := lrulist, NULL, 0;
      while p != NULL && entries[p].addr != ea
        invariant at <= |lru| && p == PointerAt(lru, at) && l == PointerAt(lru, at - 1)
        invariant forall k | 0 <= k < at :: Contents()[k] != ea
        decreases |lru| - at
      {
        assert entries[..][lru[at]].addr == Contents()[at];
        l := p;
        p := entries[p].next;
        at := at + 1;
      }
    }

    /** A miss while there are free nodes takes the first of them. */
    method InsertFree(ea: Address)
      requires Valid() && ea !in Contents() && freelist != NULL
      modifies this, entries
      ensures Valid() && Contents() == [ea] + old(Contents())
    {
      var l := freelist;
      entries[l] := entries[l].(addr := ea);
      freelist := entries[freelist].next;
      entries[l] := entries[l].(prev := NULL);
      entries[l] := entries[l].(next := NULL);
      if lrulist == NULL {
        lrulist := l;
      } else {
        entries[lrulist] := entries[lrulist].(prev := l);
        entries[l] := entries[l].(next := lrulist);
        lrulist := l;
      }
      assert entries[..] == PushedFront(old(entries[..]), old(lrulist), l, ea);
      PushFrontLinks(old(entries[..]), old(lrulist), lru, free[0], ea);
      lru, free := [free[0]] + lru, free[1..];
    }

    /** A miss without free nodes reuses the least recently used one. */
    method Evict(ea: Address, l: Pointer)
      requires Valid() && ea !in Contents() && freelist == NULL && l == PointerAt(lru, |lru| - 1)
      modifies this, entries
      ensures Valid() && Contents() == [ea] + Dropped(old(Contents()), entries.Length - 1)
    {
      ghost var k := |lru| - 1;
      MovedToFront(entries[..], lrulist, lru, freelist, free, k, ea);
      ReuseLast(ea, l);
      lru := [l] + Dropped(lru, k);
    }

    /** Move the last node to the front, with a new address. */
    method ReuseLast(ea: Address, l: Pointer)
      requires 0 <= l < entries.Length && lrulist < entries.Length && lrulist != NULL && lrulist != l
      requires entries[l].next == NULL && 0 <= entries[l].prev < entries.Length
      requires entries[l].prev != NULL && entries[l].prev != l
      modifies entries, this`lrulist
      ensures lrulist == l
      ensures entries[..] == PushedFront(Unlinked(old(entries[..]), l), old(lrulist), l, ea)
    {
      var before := entries[l].prev;
      entries[before] := entries[before].(next := NULL);
      entries[l] := entries[l].(prev := NULL);
      entries[lrulist] := entries[lrulist].(prev := l);
      entries[l] := entries[l].(next := lrulist);
      lrulist := l;
      entries[l] := entries[l].(addr := ea);
    }

    method Miss(ea: Address, l: Pointer)
      requires Valid() && ea !in Contents() && l == PointerAt(lru, |lru| - 1)
      modifies this, entries
      ensures Valid()
      ensures Contents() == if |old(Contents())| < entries.Length then [ea] + old(Contents())
                            else [ea] + Dropped(old(Contents()), entries.Length - 1)
    {
      if freelist != NULL {
        InsertFree(ea);
      } else {
        Evict(ea, l);
      }
    }

    method Unlink(p: Pointer)
      requires 0 <= p < entries.Length
      requires entries[p].next < entries.Length && entries[p].prev < entries.Length
      requires entries[p].next != p && entries[p].prev != p
      modifies entries
      ensures entries[..] == Unlinked(old(entries[..]), p)
    {
      if entries[p].next != NULL {
        var after := entries[p].next;
        entries[after] := entries[after].(prev := entries[p].prev);
      }
      if entries[p].prev != NULL {
        var before := entries[p].prev;
        entries[before] := entries[before].(next := entries[p].next);
      }
    }

    /** Put an unlinked node in front of the head. */
    method PutFirst(p: Pointer)
      requires 0 <= p < entries.Length && p != lrulist && lrulist != NULL && lrulist < entries.Length
      modifies entries, this`lrulist
      ensures lrulist == p
      ensures entries[..] == PushedFront(old(entries[..]), old(lrulist), p, old(entries[p].addr))
    {
      entries[p] := entries[p].(prev := NULL);
      entries[p] := entries[p].(next := lrulist);
      entries[lrulist] := entries[lrulist].(prev := p);
      lrulist := p;
    }

    /** A hit behind the head unlinks the node and puts it first. */
    method MoveToFront(p: Pointer, ghost at: nat)
      requires Valid() && 0 < at < |lru| && p == PointerAt(lru, at)
      modifies this, entries
      ensures Valid()
      ensures Contents() == [old(Contents())[at]] + Dropped(old(Contents()), at)
    {
      DroppedAbsent(Contents(), at);
      UnlinkedNode(entries[..], lrulist, lru, at, at);
      Unlink(p);
      PutFirst(p);
      MovedToFront(old(entries[..]), old(lrulist), lru, freelist, free, at, old(entries[p].addr));
      lru := [p] + Dropped(lru, at);
    }

    /** One access: whether the address was held, whether it was the most recently used one. */
    method Access(ea: Address) returns (found: bool, mru: bool)
      requires Valid()
      modifies this, entries
      ensures Valid()
      ensures found == (ea in old(Contents()))
      ensures mru == (old(Contents()) != [] && old(Contents())[0] == ea)
      ensures Contents() == Touch(old(Contents()), ea, entries.Length)
    {
      var p, l, at := Search(ea);
      found := p != NULL;
      mru := p != NULL && p == lrulist;
      TouchAt(ea, p, l, at);
    }

    /** The recency update, once the place of the address is known. */
    method TouchAt(ea: Address, p: Pointer, l: Pointer, ghost at: nat)
      requires Valid() && at <= |lru| && p == PointerAt(lru, at) && l == PointerAt(lru, at - 1)
      requires if at < |lru| then Contents()[at] == ea else ea !in Contents()
      modifies this, entries
      ensures Valid() && Contents() == Touch(old(Contents()), ea, entries.Length)
    {
      TouchByPlace(Contents(), at, ea, entries.Length);
      if p == NULL {
        Miss(ea, l);
      } else if p != lrulist {
        MoveToFront(p, at);
      }
    }
  }
}

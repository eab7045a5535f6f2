/**
 * Live-region descriptors and the registry that holds them (entity and
 * entity_buffer of nfb_allocator.h).
 *
 * Addresses are offsets from the start of the managed block, so a region is
 * a start offset and a byte count.  The registry is kept in ASCENDING start
 * order: the literal insert_ordering breaks at the first entry whose start is
 * smaller than the new one (nfb_allocator.h:39), which keeps the list
 * descending, while allocate_c reads the list as ascending.  InsertionPoint
 * is the corrected rule; InsertionPointAsWritten keeps the literal one.
 */
module Entities {
  import opened Container

  /** Absolute distance between two addresses (`difference`). */
  function Difference(a: nat, b: nat): (d: nat)
    ensures a <= b ==> a + d == b
    ensures b <= a ==> b + d == a
  {
    if a < b then b - a else a - b
  }

  /** A T* that may be null; a non-null pointer is an offset into the block. */
  datatype Ptr = Null | Addr(offset: nat)

  /** A live region [start, start + count) of the block. */
  datatype Entity = Entity(start: nat, count: nat)
  {
    /** One past the region's last byte (`end_ptr`). */
    function End(): nat
    {
      start + count
    }
  }

  /** Two regions share no byte. */
  predicate Disjoint(a: Entity, b: Entity)
  {
    a.End() <= b.start || b.End() <= a.start
  }

  /** Every region ends inside a block of `n` bytes. */
  predicate InBlock(regs: seq<Entity>, n: nat)
  {
    forall i :: 0 <= i < |regs| ==> regs[i].End() <= n
  }

  /** Regions are address-ordered and non-overlapping: each ends before any later one starts. */
  predicate Ascending(regs: seq<Entity>)
  {
    forall i, j :: 0 <= i < j < |regs| ==> regs[i].End() <= regs[j].start
  }

  /** The mirror order that the literal insert_ordering maintains. */
  predicate Descending(regs: seq<Entity>)
  {
    forall i, j :: 0 <= i < j < |regs| ==> regs[j].End() <= regs[i].start
  }

  /** The registry invariant: non-empty regions, inside the block, ascending and non-overlapping. */
  predicate WellFormed(regs: seq<Entity>, n: nat)
  {
    (forall i :: 0 <= i < |regs| ==> regs[i].count > 0) && InBlock(regs, n) && Ascending(regs)
  }

  /** `c` lies inside the block and overlaps no registered region. */
  predicate FreeSpan(regs: seq<Entity>, n: nat, c: Entity)
  {
    c.End() <= n && forall i :: 0 <= i < |regs| ==> Disjoint(c, regs[i])
  }

  /** `e` is a non-empty free span: a region that may be recorded. */
  predicate FreeRegion(regs: seq<Entity>, n: nat, e: Entity)
  {
    e.count > 0 && FreeSpan(regs, n, e)
  }

  /** Some registered region starts at `p`. */
  predicate Registered(regs: seq<Entity>, p: nat)
  {
    exists i :: 0 <= i < |regs| && regs[i].start == p
  }

  /** Index of the first region starting at `p`, or |regs| when there is none. */
  function IndexOfStart(regs: seq<Entity>, p: nat): (i: nat)
    ensures i <= |regs|
    ensures forall k :: 0 <= k < i ==> regs[k].start != p
    ensures i < |regs| ==> regs[i].start == p
    ensures i < |regs| <==> Registered(regs, p)
  {
    if regs == [] then 0
    else if regs[0].start == p then 0
    else 1 + IndexOfStart(regs[1..], p)
  }

  /** Where the corrected insert_ordering puts `item`: before the first region starting above it. */
  function InsertionPoint(regs: seq<Entity>, item: Entity): (i: nat)
    ensures i <= |regs|
    ensures forall k :: 0 <= k < i ==> regs[k].start <= item.start
    ensures i < |regs| ==> regs[i].start > item.start
  {
    if regs == [] then 0
    else if regs[0].start > item.start then 0
    else 1 + InsertionPoint(regs[1..], item)
  }

  /** Where the literal insert_ordering puts `item`: before the first region starting below it. */
  function InsertionPointAsWritten(regs: seq<Entity>, item: Entity): (i: nat)
    ensures i <= |regs|
    ensures forall k :: 0 <= k < i ==> regs[k].start >= item.start
    ensures i < |regs| ==> regs[i].start < item.start
  {
    if regs == [] then 0
    else if regs[0].start < item.start then 0
    else 1 + InsertionPointAsWritten(regs[1..], item)
  }

  function InsertOrdered(regs: seq<Entity>, item: Entity): seq<Entity>
  {
    InsertAt(regs, InsertionPoint(regs, item), item)
  }

  function InsertOrderedAsWritten(regs: seq<Entity>, item: Entity): seq<Entity>
  {
    InsertAt(regs, InsertionPointAsWritten(regs, item), item)
  }

  /** One pair of the registry after an ascending insertion is in order. */
  lemma InsertedPairIsOrdered(regs: seq<Entity>, n: nat, e: Entity, i: nat, j: nat)
    requires WellFormed(regs, n) && FreeRegion(regs, n, e)
    requires i < j < |regs| + 1
    ensures InsertOrdered(regs, e)[i].End() <= InsertOrdered(regs, e)[j].start
  {
    var ip := InsertionPoint(regs, e);
    var r := InsertOrdered(regs, e);
    if j < ip {
      assert r[i] == regs[i] && r[j] == regs[j];
    } else if j == ip {
      assert r[i] == regs[i] && regs[i].start <= e.start;
      assert Disjoint(e, regs[i]);
    } else if i < ip {
      assert r[i] == regs[i] && r[j] == regs[j - 1];
    } else if i == ip {
      assert r[j] == regs[j - 1];
      assert regs[ip].start <= regs[j - 1].start by {
        if ip < j - 1 {
          assert regs[ip].End() <= regs[j - 1].start;
        }
      }
      assert Disjoint(e, regs[j - 1]);
    } else {
      assert r[i] == regs[i - 1] && r[j] == regs[j - 1];
    }
  }

  /** Inserting a fresh region in ascending position keeps the registry well formed. */
  lemma InsertOrderedKeepsWellFormed(regs: seq<Entity>, n: nat, e: Entity)
    requires WellFormed(regs, n) && FreeRegion(regs, n, e)
    ensures WellFormed(InsertOrdered(regs, e), n)
  {
    var r := InsertOrdered(regs, e);
    forall i, j | 0 <= i < j < |r|
      ensures r[i].End() <= r[j].start
    {
      InsertedPairIsOrdered(regs, n, e, i, j);
    }
  }

  /** The ordered insertion adds `e` and keeps every other region: the contents grow by exactly `e`. */
  lemma InsertOrderedAddsExactlyItem(regs: seq<Entity>, e: Entity)
    ensures multiset(InsertOrdered(regs, e)) == multiset(regs) + multiset{e}
  {
    InsertAtAddsElement(regs, InsertionPoint(regs, e), e);
  }

  /**
   * The literal insertion rule keeps a descending registry descending, the
   * opposite of the order allocate_c assumes.
   */
  lemma InsertOrderedAsWrittenKeepsDescending(regs: seq<Entity>, e: Entity)
    requires Descending(regs) && e.count > 0
    requires forall i :: 0 <= i < |regs| ==> regs[i].count > 0 && Disjoint(e, regs[i])
    ensures Descending(InsertOrderedAsWritten(regs, e))
  {
    var ip := InsertionPointAsWritten(regs, e);
    var r := InsertOrderedAsWritten(regs, e);
    forall i, j | 0 <= i < j < |r|
      ensures r[j].End() <= r[i].start
    {
      if j < ip {
      } else if j == ip {
        assert r[i] == regs[i] && regs[i].start >= e.start;
        assert Disjoint(e, regs[i]);
      } else if i < ip {
        assert r[j] == regs[j - 1];
      } else if i == ip {
        assert r[j] == regs[j - 1];
        assert regs[j - 1].start < e.start by {
          if ip < j - 1 {
            assert regs[j - 1].End() <= regs[ip].start;
          }
        }
        assert Disjoint(e, regs[j - 1]);
      } else {
        assert r[i] == regs[i - 1] && r[j] == regs[j - 1];
      }
    }
  }

  /** Removing any region keeps the registry well formed. */
  lemma RemoveKeepsWellFormed(regs: seq<Entity>, n: nat, i: nat)
    requires WellFormed(regs, n) && i < |regs|
    ensures WellFormed(RemoveAt(regs, i), n)
  {
    var r := RemoveAt(regs, i);
    forall a, b | 0 <= a < b < |r|
      ensures r[a].End() <= r[b].start
    {
      var a' := if a < i then a else a + 1;
      var b' := if b < i then b else b + 1;
      assert r[a] == regs[a'] && r[b] == regs[b'];
    }
  }

  /** The registry after `deallocate(p)`, and whether it succeeded. */
  datatype Release = Release(ok: bool, registry: seq<Entity>)

  /**
   * Intended deallocate: drop the region that starts at `p`; an unknown `p`
   * fails and leaves the registry as it was.
   */
  function Deallocation(regs: seq<Entity>, p: nat): (r: Release)
    ensures r.ok <==> Registered(regs, p)
    ensures !r.ok ==> r.registry == regs
  {
    var i := IndexOfStart(regs, p);
    if i == |regs| then Release(false, regs) else Release(true, RemoveAt(regs, i))
  }

  /** After removing the region at index i, no region starts where it did. */
  lemma RemovedStartIsGone(regs: seq<Entity>, n: nat, i: nat)
    requires WellFormed(regs, n) && i < |regs|
    ensures !Registered(RemoveAt(regs, i), regs[i].start)
  {
    var r := RemoveAt(regs, i);
    forall k | 0 <= k < |r|
      ensures r[k].start != regs[i].start
    {
      if k < i {
        assert regs[k].End() <= regs[i].start;
      } else {
        assert r[k] == regs[k + 1] && regs[i].End() <= regs[k + 1].start;
      }
    }
  }

  /** Removing the region at index i keeps every region that starts elsewhere. */
  lemma RemoveKeepsOthers(regs: seq<Entity>, i: nat)
    requires i < |regs|
    ensures forall e :: e in regs && e.start != regs[i].start ==> e in RemoveAt(regs, i)
  {
    var r := RemoveAt(regs, i);
    forall e | e in regs && e.start != regs[i].start
      ensures e in r
    {
      var k :| 0 <= k < |regs| && regs[k] == e;
      if k < i {
        assert r[k] == e;
      } else {
        assert r[k - 1] == e;
      }
    }
  }

  /**
   * A successful deallocation removes exactly the region starting at `p`,
   * keeps the others in order, and keeps the registry well formed.
   */
  lemma DeallocationRemovesOnlyThatRegion(regs: seq<Entity>, n: nat, p: nat)
    requires WellFormed(regs, n) && Registered(regs, p)
    ensures var r := Deallocation(regs, p);
      r.ok && !Registered(r.registry, p) && WellFormed(r.registry, n) &&
      |r.registry| == |regs| - 1 &&
      forall e :: e in regs && e.start != p ==> e in r.registry
  {
    var i := IndexOfStart(regs, p);
    RemoveKeepsWellFormed(regs, n, i);
    RemovedStartIsGone(regs, n, i);
    RemoveKeepsOthers(regs, i);
  }

  /** Deallocating the same pointer twice: the first call succeeds, the second fails. */
  lemma DeallocateTwiceFails(regs: seq<Entity>, n: nat, p: nat)
    requires WellFormed(regs, n) && Registered(regs, p)
    ensures Deallocation(regs, p).ok
    ensures !Deallocation(Deallocation(regs, p).registry, p).ok
  {
    DeallocationRemovesOnlyThatRegion(regs, n, p);
  }

  /** The scan of `std::find_if` in deallocate: the first region starting at `p`, or size(). */
  method Find(v: BufferVector<Entity>, p: nat) returns (i: nat)
    requires v.Valid()
    ensures i == IndexOfStart(v.Elements(), p)
  {
    i := 0;
    while i < v.Size()
      invariant i <= |v.Elements()|
      invariant forall k :: 0 <= k < i ==> v.Elements()[k].start != p
    {
      if v.Get(i).start == p {
        break;
      }
      i := i + 1;
    }
  }

  /**
   * `insert_ordering`, with the comparison at nfb_allocator.h:39 turned round
   * so that the registry stays ascending.
   */
  method InsertOrdering(v: BufferVector<Entity>, item: Entity) returns (ok: bool)
    requires v.Valid()
    modifies v, v.data
    ensures v.Valid()
    ensures ok <==> old(|v.Elements()|) < v.Capacity()
    ensures v.Elements() == if ok then InsertOrdered(old(v.Elements()), item) else old(v.Elements())
  {
    var i := 0;
    while i < v.Size()
      invariant i <= |v.Elements()|
      invariant forall k :: 0 <= k < i ==> v.Elements()[k].start <= item.start
    {
      if v.Get(i).start > item.start {
        break;
      }
      i := i + 1;
    }
    ok := v.Insert(item, i);
  }

  /** `remove_item`: removes the first region with the same start; false if there is none. */
  method RemoveItem(v: BufferVector<Entity>, item: Entity) returns (ok: bool)
    requires v.Valid()
    modifies v, v.data
    ensures v.Valid()
    ensures Release(ok, v.Elements()) == Deallocation(old(v.Elements()), item.start)
    ensures ok ==> v.count < v.data.Length && v.data[v.count] == old(v.Elements())[v.count]
  {
    var i := 0;
    while i < v.Size()
      invariant i <= |v.Elements()|
      invariant forall k :: 0 <= k < i ==> v.Elements()[k].start != item.start
    {
      if v.Get(i).start == item.start {
        break;
      }
      i := i + 1;
    }
    ok := v.Remove(i);
  }
}

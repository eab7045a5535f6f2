/**
 * The allocator object (nfb_allocator<T>): a block of `memorySize` bytes, the
 * element size sizeof(T), and the registry of live regions kept in a
 * BufferVector<Entity> over a caller-owned array.
 */
module Allocator {
  import opened Container
  import opened Entities
  import opened GapSearch

  class NfbAllocator {
    /** Size in bytes of the caller-owned block; addresses are offsets into it. */
    const memorySize: nat
    /** sizeof(T). */
    const elemSize: nat
    /** The registry of live regions. */
    const entities: BufferVector<Entity>

    ghost predicate Valid()
      reads this, entities, entities.data
    {
      elemSize > 0 && entities.Valid() && WellFormed(entities.Elements(), memorySize)
    }

    /** The live regions in address order. */
    ghost function Registry(): seq<Entity>
      reads this, entities, entities.data
      requires entities.Valid()
    {
      entities.Elements()
    }

    constructor (memorySize: nat, elemSize: nat, entitiesBuffer: array<Entity>)
      requires elemSize > 0
      ensures Valid() && fresh(entities)
      ensures this.memorySize == memorySize && this.elemSize == elemSize
      ensures entities.data == entitiesBuffer
      ensures Registry() == []
    {
      this.memorySize := memorySize;
      this.elemSize := elemSize;
      entities := new BufferVector(entitiesBuffer);
    }

    /**
     * The switch of allocate_c (nfb_allocator.h:76-151): the best of the one or
     * two gaps it derives from the registry's ends.
     */
    method SwitchCandidate(req: nat) returns (best: Entity)
      requires entities.Valid() && InBlock(Registry(), memorySize)
      ensures best == Select(EdgeCandidates(Registry(), memorySize), req)
    {
      var size := entities.Size();
      if size == 0 {
        best := Entity(0, memorySize);
      } else if size == 1 {
        var only := entities.Front();
        if only.start == 0 {
          best := Entity(only.End(), memorySize - only.count);
        } else if only.End() == memorySize {
          best := Entity(0, memorySize - only.count);
        } else {
          var firstAvailable := Entity(0, Difference(0, only.start));
          var lastAvailable := Entity(only.End(), Difference(only.End(), memorySize));
          best := firstAvailable;
          if lastAvailable.count >= req && lastAvailable.count < best.count {
            best := lastAvailable;
          }
        }
      } else {
        var first := entities.Front();
        var second := entities.Get(1);
        var penultimate := entities.Get(size - 2);
        var last := entities.Back();
        var firstAvailable, lastAvailable;
        if first.start == 0 {
          firstAvailable := Entity(first.End(), Difference(first.End(), second.start));
        } else {
          firstAvailable := Entity(0, Difference(0, first.start));
        }
        if last.End() == memorySize {
          lastAvailable := Entity(penultimate.End(), Difference(penultimate.End(), last.start));
        } else {
          lastAvailable := Entity(last.End(), Difference(last.End(), memorySize));
        }
        best := firstAvailable;
        if lastAvailable.count >= req && lastAvailable.count < best.count {
          best := lastAvailable;
        }
      }
    }

    /**
     * The candidate allocate_c settles on (nfb_allocator.h:76-176): the switch's
     * choice, then the loop over the gap after every region but the last.
     */
    method BestCandidate(req: nat) returns (best: Entity)
      requires entities.Valid() && InBlock(Registry(), memorySize)
      ensures best == Select(Candidates(Registry(), memorySize), req)
    {
      ghost var cands := Candidates(Registry(), memorySize);
      ghost var edge := EdgeCandidates(Registry(), memorySize);
      var size := entities.Size();
      best := SwitchCandidate(req);
      assert cands[..|edge|] == edge;

      // The source's guard `i < size() - 1` is written `i + 1 < size` so that
      // it cannot wrap below zero; need_to_foreach already excludes that case.
      var needToForeach := size >= 2;
      var i := 0;
      while needToForeach && i + 1 < size
        invariant i <= if size < 2 then 0 else size - 1
        invariant |edge| + i <= |cands|
        invariant best == Select(cands[..|edge| + i], req)
      {
        var ent1 := entities.Get(i);
        var ent2 := entities.Get(i + 1);
        var current := Entity(ent1.End(), Difference(ent1.End(), ent2.start));
        assert cands[|edge| + i] == current;
        SelectStep(cands, |edge| + i, req);
        if current.count >= req {
          if best.count > current.count {
            best := current;
          }
        }
        i := i + 1;
      }
      assert cands[..|edge| + i] == cands;
    }

    /**
     * `allocate_c`: picks a gap by the scan-order selection rule and records
     * {gap start, count * elemSize}.  The result of the insertion is ignored,
     * as in the source, so with a full registry the pointer is returned but
     * the region is not recorded.
     */
    method AllocateC(count: nat := 1) returns (p: Ptr)
      requires Valid()
      modifies entities, entities.data
      ensures Valid()
      ensures p == Allocation(old(Registry()), memorySize, count, elemSize)
      ensures Registry() ==
        if p.Addr? && old(|Registry()|) < entities.Capacity()
        then InsertOrdered(old(Registry()), Entity(p.offset, count * elemSize))
        else old(Registry())
    {
      if count == 0 {
        return Null;
      }
      var req := count * elemSize;
      var best := BestCandidate(req);
      if best.count < req {
        return Null;
      }
      var filled := Entity(best.start, req);
      AllocationKeepsRegistryWellFormed(Registry(), memorySize, count, elemSize, best.start);
      var recorded := InsertOrdering(entities, filled);
      p := Addr(filled.start);
    }

    /**
     * `allocate`: allocate_c followed by value-initialisation of the new
     * elements, which this model does not represent; on null nothing is written.
     */
    method Allocate(count: nat := 1) returns (p: Ptr)
      requires Valid()
      modifies entities, entities.data
      ensures Valid()
      ensures p == Allocation(old(Registry()), memorySize, count, elemSize)
      ensures Registry() ==
        if p.Addr? && old(|Registry()|) < entities.Capacity()
        then InsertOrdered(old(Registry()), Entity(p.offset, count * elemSize))
        else old(Registry())
    {
      p := AllocateC(count);
    }

    /**
     * `deallocate` as its comment at nfb_allocator.h:222 intends: an unknown
     * pointer yields false and changes nothing.  The source compares the
     * find_if result with nullptr instead of end(); see DeallocateAsWritten.
     * The slot just past the shrunk registry keeps a copy of the old last region.
     */
    method Deallocate(p: nat) returns (ok: bool)
      requires Valid()
      modifies entities, entities.data
      ensures Valid()
      ensures Release(ok, Registry()) == Deallocation(old(Registry()), p)
      ensures ok ==> entities.count < entities.data.Length &&
                     entities.data[entities.count] == old(Registry())[entities.count]
    {
      ghost var regs := Registry();
      var i := Find(entities, p);
      if i == entities.Size() {
        return false;
      }
      RemoveKeepsWellFormed(regs, memorySize, i);
      var removed := RemoveItem(entities, entities.Get(i));
      return true;
    }
  }

  /**
   * `deallocate` as written, over the raw slot array: when `p` is not found,
   * find_if yields end(), the nullptr test never fires, and the stale slot
   * slots[count] is handed to remove_item.  It always reports success.
   */
  function DeallocateAsWritten(slots: seq<Entity>, count: nat, p: nat): (r: Release)
    requires count <= |slots| && IndexOfStart(slots[..count], p) < |slots|
    ensures r.ok
    ensures Registered(slots[..count], p) ==> r == Deallocation(slots[..count], p)
  {
    var live := slots[..count];
    var found := IndexOfStart(live, p);
    var target := slots[found];
    var j := IndexOfStart(live, target.start);
    Release(true, if j < count then RemoveAt(live, j) else live)
  }

  /**
   * The stale-slot defect: after [0, 10) is freed from [[0, 10), [10, 30)],
   * the slots read [[10, 30), [10, 30)] with one live entry; deallocating the
   * unknown pointer 50 then frees the live region [10, 30) and reports success,
   * where the intended behaviour fails and keeps it.
   */
  lemma AsWrittenDeallocateFreesLiveRegion()
    ensures DeallocateAsWritten([Entity(10, 20), Entity(10, 20)], 1, 50) == Release(true, [])
    ensures Deallocation([Entity(10, 20)], 50) == Release(false, [Entity(10, 20)])
  {
    assert [Entity(10, 20), Entity(10, 20)][..1] == [Entity(10, 20)];
  }

  /** The first two steps of AllocateTwiceFreeFirst: 10 bytes go to 0, then 20 bytes to 10. */
  method AllocateTwice() returns (a: NfbAllocator, buffer: array<Entity>, p1: Ptr, p2: Ptr)
    ensures fresh(buffer) && fresh(a.entities) && a.entities.data == buffer
    ensures a.Valid() && a.memorySize == 100 && a.elemSize == 1 && buffer.Length == 3
    ensures p1 == Addr(0) && p2 == Addr(10)
    ensures a.Registry() == [Entity(0, 10), Entity(10, 20)]
  {
    buffer := new Entity[3](_ => Entity(0, 0));
    a := new NfbAllocator(100, 1, buffer);
    FreedPrefixIsReused();
    p1 := a.AllocateC(10);
    p2 := a.AllocateC(20);
  }

  /**
   * A 100-byte block with 1-byte elements and three registry slots: 10 bytes
   * go to 0, 20 bytes to 10, and 0 is freed.  The slot array then holds the
   * live region [10, 30) followed by a stale copy of it.
   */
  method AllocateTwiceFreeFirst() returns (a: NfbAllocator, buffer: array<Entity>, p1: Ptr, p2: Ptr, freed: bool)
    ensures fresh(buffer) && fresh(a.entities) && a.entities.data == buffer
    ensures a.Valid() && a.memorySize == 100 && a.elemSize == 1 && buffer.Length == 3
    ensures p1 == Addr(0) && p2 == Addr(10) && freed
    ensures a.Registry() == [Entity(10, 20)]
    ensures buffer[0] == buffer[1] == Entity(10, 20)
  {
    a, buffer, p1, p2 := AllocateTwice();
    ghost var before := a.Registry();
    assert RemoveAt(before, 0) == [Entity(10, 20)];
    freed := a.Deallocate(0);
  }

  /**
   * Continuing AllocateTwiceFreeFirst, a 10-byte request lands at 0 again;
   * on the slot array as it stood after the free, the literal deallocate of
   * the unknown pointer 50 would have freed the live region.
   */
  method FreedPrefixScenario() returns (p1: Ptr, p2: Ptr, freed: bool, slots: seq<Entity>, p3: Ptr)
    ensures p1 == Addr(0) && p2 == Addr(10) && freed && p3 == Addr(0)
    ensures slots == [Entity(10, 20), Entity(10, 20)]
    ensures DeallocateAsWritten(slots, 1, 50) == Release(true, [])
  {
    var a, buffer;
    a, buffer, p1, p2, freed := AllocateTwiceFreeFirst();
    slots := buffer[..2];
    AsWrittenDeallocateFreesLiveRegion();
    FreedPrefixIsReused();
    p3 := a.AllocateC(10);
  }

  /**
   * With a one-slot registry the second allocation is returned but not
   * recorded (its insertion result is ignored), so the third call hands out
   * the same bytes again.
   */
  method FullRegistryScenario() returns (p1: Ptr, p2: Ptr, p3: Ptr)
    ensures p1 == Addr(0) && p2 == Addr(10) && p3 == Addr(10)
  {
    var buffer := new Entity[1](_ => Entity(0, 0));
    var a := new NfbAllocator(100, 1, buffer);
    FreedPrefixIsReused();
    p1 := a.AllocateC(10);
    p2 := a.AllocateC(10);
    p3 := a.AllocateC(10);
  }
}

/**
 * The gap search of allocate_c (nfb_allocator.h:64-189) as functions of the
 * registry contents.
 *
 * Free space is never stored: each call derives candidate gaps from the
 * registry, in a fixed scan order (the one or two gaps the switch computes,
 * then the gap after every region but the last), and folds them with the
 * source's replacement rule.  That rule replaces the current best only by a
 * candidate that fits AND is strictly smaller, so a first candidate that is
 * too small is never replaced; this is kept as written.
 */
module GapSearch {
  import opened Container
  import opened Entities

  /** The span from the end of `left` to the start of `right` (nfb_allocator.h:163). */
  function GapAfter(left: Entity, right: Entity): (g: Entity)
    ensures g.start == left.End()
    ensures left.End() <= right.start ==> g.End() == right.start
  {
    Entity(left.End(), Difference(left.End(), right.start))
  }

  /** The candidates of the switch at nfb_allocator.h:76-151, in scan order. */
  function EdgeCandidates(regs: seq<Entity>, n: nat): (c: seq<Entity>)
    requires InBlock(regs, n)
    ensures 1 <= |c| <= 2
  {
    if |regs| == 0 then
      [Entity(0, n)]
    else if |regs| == 1 then
      var only := regs[0];
      if only.start == 0 then
        [Entity(only.End(), n - only.count)]
      else if only.End() == n then
        [Entity(0, n - only.count)]
      else
        [Entity(0, Difference(0, only.start)), Entity(only.End(), Difference(only.End(), n))]
    else
      var first, second := regs[0], regs[1];
      var penultimate, last := regs[|regs| - 2], regs[|regs| - 1];
      var firstGap :=
        if first.start == 0 then GapAfter(first, second)
        else Entity(0, Difference(0, first.start));
      var lastGap :=
        if last.End() == n then GapAfter(penultimate, last)
        else Entity(last.End(), Difference(last.End(), n));
      [firstGap, lastGap]
  }

  /** The gaps the loop at nfb_allocator.h:157-176 visits: one after each region but the last. */
  function InteriorGaps(regs: seq<Entity>): (g: seq<Entity>)
    ensures |g| == if |regs| < 2 then 0 else |regs| - 1
    ensures forall i :: 0 <= i < |g| ==> g[i] == GapAfter(regs[i], regs[i + 1])
  {
    if |regs| < 2 then [] else [GapAfter(regs[0], regs[1])] + InteriorGaps(regs[1..])
  }

  /** Every candidate allocate_c considers, in the order it considers them. */
  function Candidates(regs: seq<Entity>, n: nat): seq<Entity>
    requires InBlock(regs, n)
  {
    EdgeCandidates(regs, n) + InteriorGaps(regs)
  }

  /** One step of the selection: `cand` replaces `best` only if it fits and is strictly smaller. */
  function Better(best: Entity, cand: Entity, req: nat): (r: Entity)
    ensures r == best || r == cand
    ensures r != best ==> cand.count >= req && cand.count < best.count
    ensures cand.count >= req && cand.count < best.count ==> r == cand
  {
    if cand.count >= req && cand.count < best.count then cand else best
  }

  /** The best candidate after the scan: a left fold of Better that starts from the first candidate. */
  function Select(cands: seq<Entity>, req: nat): (r: Entity)
    requires |cands| > 0
    ensures r in cands
    ensures cands[0].count < req ==> r == cands[0]
    decreases |cands|
  {
    if |cands| == 1 then cands[0]
    else Better(Select(cands[..|cands| - 1], req), cands[|cands| - 1], req)
  }

  /**
   * allocate_c on the registry `regs` of a block of `n` bytes: null for a zero
   * count or when the selected candidate is too small, else the selected
   * candidate's start.
   */
  function Allocation(regs: seq<Entity>, n: nat, count: nat, elemSize: nat): (p: Ptr)
    requires InBlock(regs, n)
    ensures count == 0 ==> p == Null
    ensures p.Addr? ==> exists c :: c in Candidates(regs, n) && c.start == p.offset && c.count >= count * elemSize
  {
    if count == 0 then Null
    else
      var req := count * elemSize;
      var best := Select(Candidates(regs, n), req);
      if best.count < req then Null else Addr(best.start)
  }

  /** Folding one more candidate is one more Better step. */
  lemma SelectStep(cands: seq<Entity>, m: nat, req: nat)
    requires 0 < m < |cands|
    ensures Select(cands[..m + 1], req) == Better(Select(cands[..m], req), cands[m], req)
  {
    assert cands[..m + 1][..m] == cands[..m];
  }

  /** When the first candidate fits, the fold ends on a fitting candidate of least size. */
  lemma {:induction false} SelectIsSmallestFit(cands: seq<Entity>, req: nat)
    requires |cands| > 0 && cands[0].count >= req
    ensures Select(cands, req).count >= req
    ensures forall k :: 0 <= k < |cands| && cands[k].count >= req ==> Select(cands, req).count <= cands[k].count
    decreases |cands|
  {
    if |cands| > 1 {
      var m := |cands| - 1;
      var prefix := cands[..m];
      SelectIsSmallestFit(prefix, req);
      assert forall k :: 0 <= k < m ==> prefix[k] == cands[k];
    }
  }

  /**
   * When the first candidate fits, the fold ends on the earliest candidate of
   * its size among those that fit: ties keep the earlier candidate.
   */
  lemma {:induction false} SelectIsEarliestSmallestFit(cands: seq<Entity>, req: nat)
    requires |cands| > 0 && cands[0].count >= req
    ensures Select(cands, req).count >= req
    ensures forall k :: 0 <= k < |cands| && cands[k].count >= req ==> Select(cands, req).count <= cands[k].count
    ensures exists j ::
              0 <= j < |cands| && cands[j] == Select(cands, req) &&
              forall k :: 0 <= k < j && cands[k].count >= req ==> cands[k].count > cands[j].count
    decreases |cands|
  {
    SelectIsSmallestFit(cands, req);
    if |cands| > 1 {
      var m := |cands| - 1;
      var prefix := cands[..m];
      SelectIsEarliestSmallestFit(prefix, req);
      var prev := Select(prefix, req);
      var j :| 0 <= j < m && prefix[j] == prev &&
        forall k :: 0 <= k < j && prefix[k].count >= req ==> prefix[k].count > prefix[j].count;
      if cands[m].count >= req && cands[m].count < prev.count {
        assert cands[m] == Select(cands, req);
        assert forall k :: 0 <= k < m ==> prefix[k] == cands[k];
      } else {
        assert cands[j] == Select(cands, req);
        assert forall k :: 0 <= k < j ==> prefix[k] == cands[k];
      }
    }
  }

  /** Allocation of a non-zero count succeeds exactly when the first candidate fits. */
  lemma AllocationSucceedsIffFirstCandidateFits(regs: seq<Entity>, n: nat, count: nat, elemSize: nat)
    requires InBlock(regs, n) && count > 0
    ensures Allocation(regs, n, count, elemSize).Addr? <==> Candidates(regs, n)[0].count >= count * elemSize
  {
    var cands := Candidates(regs, n);
    if cands[0].count >= count * elemSize {
      SelectIsEarliestSmallestFit(cands, count * elemSize);
    }
  }

  /**
   * A successful allocation starts at a candidate that fits, that is no larger
   * than any fitting candidate, and that is strictly smaller than every
   * fitting candidate scanned before it.
   */
  lemma AllocationIsEarliestSmallestFit(regs: seq<Entity>, n: nat, count: nat, elemSize: nat, a: nat)
    requires InBlock(regs, n) && Allocation(regs, n, count, elemSize) == Addr(a)
    ensures var cands, req := Candidates(regs, n), count * elemSize;
      exists j :: 0 <= j < |cands| && cands[j].start == a && cands[j].count >= req &&
        (forall k :: 0 <= k < |cands| && cands[k].count >= req ==> cands[j].count <= cands[k].count) &&
        (forall k :: 0 <= k < j && cands[k].count >= req ==> cands[k].count > cands[j].count)
  {
    SelectIsEarliestSmallestFit(Candidates(regs, n), count * elemSize);
  }

  /** With no live region the whole block is the only candidate. */
  lemma AllocationOnEmptyRegistry(n: nat, count: nat, elemSize: nat)
    ensures Allocation([], n, count, elemSize) ==
      if count > 0 && count * elemSize <= n then Addr(0) else Null
  {
    assert Candidates([], n) == [Entity(0, n)];
  }

  /** With one live region the candidates are its free prefix and suffix, each when non-empty. */
  lemma OneRegionCandidates(e: Entity, n: nat)
    requires e.count > 0 && e.End() <= n
    ensures forall c :: c in Candidates([e], n) ==> c == Entity(0, e.start) || c == Entity(e.End(), n - e.End())
    ensures e.start > 0 ==> Entity(0, e.start) in Candidates([e], n)
    ensures e.End() < n ==> Entity(e.End(), n - e.End()) in Candidates([e], n)
  {
    assert Candidates([e], n) == EdgeCandidates([e], n);
  }

  /** The prefix before the first region is free. */
  lemma PrefixIsFree(regs: seq<Entity>, n: nat)
    requires WellFormed(regs, n) && |regs| > 0
    ensures FreeSpan(regs, n, Entity(0, regs[0].start))
  {
    forall i | 0 < i < |regs|
      ensures regs[0].start <= regs[i].start
    {
      assert regs[0].End() <= regs[i].start;
    }
  }

  /** The suffix after the last region is free. */
  lemma SuffixIsFree(regs: seq<Entity>, n: nat)
    requires WellFormed(regs, n) && |regs| > 0
    ensures var last := regs[|regs| - 1];
      FreeSpan(regs, n, Entity(last.End(), n - last.End()))
  {
    var m := |regs| - 1;
    forall i | 0 <= i < m
      ensures regs[i].End() <= regs[m].End()
    {
      assert regs[i].End() <= regs[m].start;
    }
  }

  /** The gap between neighbours i and i + 1 is free. */
  lemma GapAfterIsFree(regs: seq<Entity>, n: nat, i: nat)
    requires WellFormed(regs, n) && i + 1 < |regs|
    ensures FreeSpan(regs, n, GapAfter(regs[i], regs[i + 1]))
  {
    var g := GapAfter(regs[i], regs[i + 1]);
    forall k | 0 <= k < |regs|
      ensures Disjoint(g, regs[k])
    {
      if k < i {
        assert regs[k].End() <= regs[i].start;
      } else if i + 1 < k {
        assert regs[i + 1].End() <= regs[k].start;
      }
    }
  }

  /** With one region, the switch's candidates are free spans. */
  lemma OneRegionEdgeCandidatesAreFree(regs: seq<Entity>, n: nat)
    requires WellFormed(regs, n) && |regs| == 1
    ensures forall c :: c in EdgeCandidates(regs, n) ==> FreeSpan(regs, n, c)
  {
    var edge := EdgeCandidates(regs, n);
    var e := regs[0];
    var prefix, suffix := Entity(0, e.start), Entity(e.End(), n - e.End());
    PrefixIsFree(regs, n);
    SuffixIsFree(regs, n);
    assert forall c :: c in edge ==> c == prefix || c == suffix;
    forall c | c in edge
      ensures FreeSpan(regs, n, c)
    {
      if c == prefix {
        assert FreeSpan(regs, n, prefix);
      } else {
        assert c == suffix && FreeSpan(regs, n, suffix);
      }
    }
  }

  /** With two or more regions, the first gap the switch computes is free. */
  lemma FirstEdgeCandidateIsFree(regs: seq<Entity>, n: nat)
    requires WellFormed(regs, n) && |regs| >= 2
    ensures FreeSpan(regs, n, EdgeCandidates(regs, n)[0])
  {
    if regs[0].start == 0 {
      GapAfterIsFree(regs, n, 0);
    } else {
      PrefixIsFree(regs, n);
    }
  }

  /** With two or more regions, the last gap the switch computes is free. */
  lemma LastEdgeCandidateIsFree(regs: seq<Entity>, n: nat)
    requires WellFormed(regs, n) && |regs| >= 2
    ensures FreeSpan(regs, n, EdgeCandidates(regs, n)[1])
  {
    var m := |regs| - 1;
    if regs[m].End() == n {
      GapAfterIsFree(regs, n, m - 1);
    } else {
      SuffixIsFree(regs, n);
    }
  }

  /** The candidates of the switch are free spans. */
  lemma EdgeCandidatesAreFree(regs: seq<Entity>, n: nat)
    requires WellFormed(regs, n)
    ensures forall c :: c in EdgeCandidates(regs, n) ==> FreeSpan(regs, n, c)
  {
    if |regs| == 1 {
      OneRegionEdgeCandidatesAreFree(regs, n);
    } else if |regs| >= 2 {
      var edge := EdgeCandidates(regs, n);
      FirstEdgeCandidateIsFree(regs, n);
      LastEdgeCandidateIsFree(regs, n);
      forall c | c in edge
        ensures FreeSpan(regs, n, c)
      {
        if c == edge[0] {
        } else {
          assert c == edge[1];
        }
      }
    }
  }

  /** Under the registry invariant every candidate lies in the block and overlaps no live region. */
  lemma CandidatesAreFree(regs: seq<Entity>, n: nat)
    requires WellFormed(regs, n)
    ensures forall c :: c in Candidates(regs, n) ==> FreeSpan(regs, n, c)
  {
    var edge := EdgeCandidates(regs, n);
    var gaps := InteriorGaps(regs);
    EdgeCandidatesAreFree(regs, n);
    forall c | c in edge + gaps
      ensures FreeSpan(regs, n, c)
    {
      if c !in edge {
        var k :| 0 <= k < |gaps| && gaps[k] == c;
        GapAfterIsFree(regs, n, k);
      }
    }
  }

  /**
   * The maximal free spans of the block in address order: before the first
   * region, between neighbours, and after the last.
   */
  function FreeGaps(regs: seq<Entity>, n: nat): seq<Entity>
    requires InBlock(regs, n)
  {
    if regs == [] then [Entity(0, n)]
    else
      var last := regs[|regs| - 1];
      [Entity(0, regs[0].start)] + InteriorGaps(regs) + [Entity(last.End(), n - last.End())]
  }

  /** Every non-empty maximal free span is among the candidates; no free space is missed. */
  lemma FreeGapsAreCandidates(regs: seq<Entity>, n: nat)
    requires WellFormed(regs, n)
    ensures forall g :: g in FreeGaps(regs, n) && g.count > 0 ==> g in Candidates(regs, n)
  {
    var cands := Candidates(regs, n);
    if |regs| == 1 {
      assert cands == EdgeCandidates(regs, n);
    } else if |regs| >= 2 {
      var last := regs[|regs| - 1];
      var gaps := InteriorGaps(regs);
      assert cands == EdgeCandidates(regs, n) + gaps;
      assert regs[0].start > 0 ==> Entity(0, regs[0].start) == cands[0];
      assert last.End() < n ==> Entity(last.End(), n - last.End()) == cands[1];
      forall g | g in gaps
        ensures g in cands
      {
        var k :| 0 <= k < |gaps| && gaps[k] == g;
        assert cands[2 + k] == g;
      }
    }
  }

  /** Every free byte of the block lies inside some candidate. */
  lemma FreeByteLiesInCandidate(regs: seq<Entity>, n: nat, a: nat)
    requires WellFormed(regs, n) && a < n
    requires forall i :: 0 <= i < |regs| ==> !(regs[i].start <= a < regs[i].End())
    ensures exists c :: c in Candidates(regs, n) && c.start <= a < c.End()
  {
    FreeGapsAreCandidates(regs, n);
    var gaps := FreeGaps(regs, n);
    if regs == [] {
      assert gaps[0] == Entity(0, n);
    } else {
      var k := InsertionPoint(regs, Entity(a, 0));
      var m := |regs| - 1;
      if k == 0 {
        assert gaps[0] == Entity(0, regs[0].start);
      } else if k == |regs| {
        assert regs[m].End() <= a;
        assert gaps[|gaps| - 1] == Entity(regs[m].End(), n - regs[m].End());
      } else {
        assert regs[k - 1].End() <= a < regs[k].start;
        assert gaps[k] == GapAfter(regs[k - 1], regs[k]);
      }
    }
  }

  /** Where the merged span shows up among the free gaps once region i is removed. */
  lemma MergedSpanIsFreeGap(regs: seq<Entity>, n: nat, i: nat, lo: nat, hi: nat)
    requires WellFormed(regs, n) && i < |regs|
    requires lo == if i == 0 then 0 else regs[i - 1].End()
    requires hi == if i == |regs| - 1 then n else regs[i + 1].start
    requires lo <= hi && InBlock(RemoveAt(regs, i), n)
    ensures Entity(lo, hi - lo) in FreeGaps(RemoveAt(regs, i), n)
  {
    var after := RemoveAt(regs, i);
    var gaps := FreeGaps(after, n);
    if after == [] {
      assert gaps[0] == Entity(lo, hi - lo);
    } else if i == 0 {
      assert gaps[0] == Entity(lo, hi - lo);
    } else if i == |regs| - 1 {
      assert gaps[|gaps| - 1] == Entity(lo, hi - lo);
    } else {
      assert after[i - 1] == regs[i - 1] && after[i] == regs[i + 1];
      assert gaps[i] == GapAfter(after[i - 1], after[i]);
    }
  }

  /**
   * Freeing a region merges it with the free space on both sides: the whole
   * span from the previous region's end (or the block start) to the next
   * region's start (or the block end) is then a single candidate.
   */
  lemma FreedRegionJoinsNeighbouringGaps(regs: seq<Entity>, n: nat, i: nat)
    requires WellFormed(regs, n) && i < |regs|
    ensures var lo := if i == 0 then 0 else regs[i - 1].End();
      var hi := if i == |regs| - 1 then n else regs[i + 1].start;
      var after := RemoveAt(regs, i);
      lo < hi && InBlock(after, n) && Entity(lo, hi - lo) in Candidates(after, n)
  {
    var lo := if i == 0 then 0 else regs[i - 1].End();
    var hi := if i == |regs| - 1 then n else regs[i + 1].start;
    var after := RemoveAt(regs, i);
    if i > 0 {
      assert regs[i - 1].End() <= regs[i].start;
    }
    if i < |regs| - 1 {
      assert regs[i].End() <= regs[i + 1].start;
    }
    RemoveKeepsWellFormed(regs, n, i);
    MergedSpanIsFreeGap(regs, n, i, lo, hi);
    FreeGapsAreCandidates(after, n);
  }

  /**
   * The headline invariant step: a successful allocation yields a region that
   * is non-empty, inside the block and disjoint from every live region, and
   * recording it keeps the registry well formed.
   */
  lemma AllocationKeepsRegistryWellFormed(regs: seq<Entity>, n: nat, count: nat, elemSize: nat, a: nat)
    requires WellFormed(regs, n) && elemSize > 0
    requires Allocation(regs, n, count, elemSize) == Addr(a)
    ensures FreeRegion(regs, n, Entity(a, count * elemSize))
    ensures WellFormed(InsertOrdered(regs, Entity(a, count * elemSize)), n)
  {
    var req := count * elemSize;
    var best := Select(Candidates(regs, n), req);
    CandidatesAreFree(regs, n);
    assert FreeSpan(regs, n, best);
    var e := Entity(a, req);
    assert e.count > 0;
    forall i | 0 <= i < |regs|
      ensures Disjoint(e, regs[i])
    {
      assert Disjoint(best, regs[i]);
    }
    InsertOrderedKeepsWellFormed(regs, n, e);
  }

  /**
   * The selection rule is not a true best fit: a 5-byte prefix before the
   * region [5, 10) is scanned first, so a 20-byte request fails although the
   * 90-byte suffix would hold it.
   */
  lemma FirstCandidateTooSmallBlocksLaterFit()
    ensures Entity(10, 90) in Candidates([Entity(5, 5)], 100)
    ensures Allocation([Entity(5, 5)], 100, 20, 1) == Null
  {
    assert Candidates([Entity(5, 5)], 100) == [Entity(0, 5), Entity(10, 90)];
  }

  /** First step of FreedPrefixIsReused: 10 bytes in an empty 100-byte block go to 0. */
  lemma ScenarioFirstAllocation()
    ensures Allocation([], 100, 10, 1) == Addr(0)
    ensures InsertOrdered([], Entity(0, 10)) == [Entity(0, 10)]
  {
    assert Candidates([], 100) == [Entity(0, 100)];
  }

  /** Second step of FreedPrefixIsReused: 20 more bytes go to 10. */
  lemma ScenarioSecondAllocation()
    ensures Allocation([Entity(0, 10)], 100, 20, 1) == Addr(10)
    ensures InsertOrdered([Entity(0, 10)], Entity(10, 20)) == [Entity(0, 10), Entity(10, 20)]
  {
    assert Candidates([Entity(0, 10)], 100) == [Entity(10, 90)];
  }

  /** Third step of FreedPrefixIsReused: freeing 0 leaves [10, 30). */
  lemma ScenarioFree()
    ensures Deallocation([Entity(0, 10), Entity(10, 20)], 0) == Release(true, [Entity(10, 20)])
  {
    assert RemoveAt([Entity(0, 10), Entity(10, 20)], 0) == [Entity(10, 20)];
  }

  /** Last step of FreedPrefixIsReused: the exact-size prefix wins over the 70-byte suffix. */
  lemma ScenarioReuse()
    ensures Allocation([Entity(10, 20)], 100, 10, 1) == Addr(0)
  {
    assert Candidates([Entity(10, 20)], 100) == [Entity(0, 10), Entity(30, 70)];
  }

  /**
   * On a 100-byte block with 1-byte elements: 10 bytes go to 0, 20 bytes to 10;
   * after freeing 0 a 10-byte request gets 0 again, the exact-size prefix
   * being preferred to the 70-byte suffix.
   */
  lemma FreedPrefixIsReused()
    ensures Allocation([], 100, 10, 1) == Addr(0)
    ensures InsertOrdered([], Entity(0, 10)) == [Entity(0, 10)]
    ensures Allocation([Entity(0, 10)], 100, 20, 1) == Addr(10)
    ensures InsertOrdered([Entity(0, 10)], Entity(10, 20)) == [Entity(0, 10), Entity(10, 20)]
    ensures Deallocation([Entity(0, 10), Entity(10, 20)], 0) == Release(true, [Entity(10, 20)])
    ensures Allocation([Entity(10, 20)], 100, 10, 1) == Addr(0)
  {
    ScenarioFirstAllocation();
    ScenarioSecondAllocation();
    ScenarioFree();
    ScenarioReuse();
  }

  /** The literal insertion puts a region that starts later in front. */
  lemma AsWrittenInsertReverses()
    ensures InsertOrderedAsWritten([Entity(0, 10)], Entity(10, 20)) == [Entity(10, 20), Entity(0, 10)]
  {
    assert InsertionPointAsWritten([Entity(0, 10)], Entity(10, 20)) == 0;
  }

  /**
   * The literal insertion order breaks allocate_c: after 10 bytes at 0 and 20
   * bytes at 10 (ScenarioFirstAllocation, ScenarioSecondAllocation) the
   * registry reads [[10, 30), [0, 10)], and the next 10-byte request is
   * handed the live region at 0.
   */
  lemma AsWrittenOrderingHandsOutLiveRegion()
    ensures Allocation([Entity(10, 20), Entity(0, 10)], 100, 10, 1) == Addr(0)
    ensures Registered([Entity(10, 20), Entity(0, 10)], 0)
  {
    var regs := [Entity(10, 20), Entity(0, 10)];
    assert regs[1].start == 0;
    assert EdgeCandidates(regs, 100) == [Entity(0, 10), Entity(10, 90)];
    assert InteriorGaps(regs) == [Entity(30, 30)];
    var cands := [Entity(0, 10), Entity(10, 90), Entity(30, 30)];
    assert Candidates(regs, 100) == cands;
    assert cands[..2][..1] == [Entity(0, 10)];
    assert Select(cands[..2], 10) == Entity(0, 10);
    assert cands[..|cands| - 1] == cands[..2];
  }
}

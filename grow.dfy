/**
 * kmem_cache_grow: what one growth adds to a cache, in each of its two modes,
 * and that it keeps the cache invariant.
 */
module Grow {
  import opened Wrappers
  import opened Layout
  import opened SlabState
  import opened StateFacts

  /**
   * A small-object growth carves the page into `(PAGE_SIZE - HDR) / objSize`
   * slots seeded in ascending order from the start of the page, every one of
   * them wholly in front of the header at `page + PAGE_SIZE - HDR`.
   */
  lemma SmallGrowCarvesPage(st: CacheState, page: int, rec: int)
    requires GrowOk(st, page, rec) && !st.large
    ensures var t := GrowState(st, page, rec).slabs[|st.slabs|];
      && t.maxObjs == (PAGE_SIZE - HDR) / st.objSize
      && t.id == page + PAGE_SIZE - HDR
      && |t.freelist| == t.maxObjs
      && (forall k :: 0 <= k < |t.freelist| ==>
            t.freelist[k] == page + k * st.objSize && t.freelist[k] + st.objSize <= t.id)
  {
    var t := GrowState(st, page, rec).slabs[|st.slabs|];
    forall k | 0 <= k < |t.freelist|
      ensures t.freelist[k] + st.objSize <= t.id
    {
      SmallSlotFits(page, st.objSize, k);
    }
  }

  /**
   * A large-object growth makes a slab for one object whose freelist is the
   * new buffer, and indexes that buffer with a bufctl naming the new slab
   * record; the buffer is the least page multiple that holds the object.
   */
  lemma LargeGrowIndexesBuffer(st: CacheState, page: int, rec: int)
    requires Inv(st) && GrowOk(st, page, rec) && st.large
    ensures var st' := GrowState(st, page, rec);
      && st'.slabs[|st.slabs|] == Slab(rec, page, 0, 1, [page])
      && page !in st.index
      && st'.index == st.index[page := Bufctl(rec, page)]
      && RegionSize(st) % PAGE_SIZE == 0 && st.objSize <= RegionSize(st)
      && RegionSize(st) - PAGE_SIZE < st.objSize
  {
    BufferSizeIsLeastPageMultiple(st.objSize);
  }

  /** The new slab is well formed: all its slots are free and none is repeated. */
  lemma NewSlabOk(st: CacheState, page: int, rec: int)
    requires st.large == IsLarge(st.objSize) && GrowOk(st, page, rec)
    ensures SlabOk(st, NewSlab(st, page, rec))
  {
    if !st.large {
      SmallSlotsDistinct(page, st.objSize);
    }
  }

  /** The new slab sits apart from every old slab. */
  lemma NewSlabApart(st: CacheState, page: int, rec: int, i: int)
    requires Inv(st) && GrowOk(st, page, rec) && 0 <= i < |st.slabs|
    ensures Apart(st, st.slabs[i], NewSlab(st, page, rec))
  {
    assert SlabOk(st, st.slabs[i]);
  }

  /** In large mode growing adds the new buffer's bufctl and keeps every old one. */
  lemma GrowKeepsIndex(st: CacheState, page: int, rec: int)
    requires Inv(st) && GrowOk(st, page, rec)
    ensures IndexOk(GrowState(st, page, rec))
  {
    var st' := GrowState(st, page, rec);
    var n := |st.slabs|;
    if st.large {
      assert Bases(st'.slabs) == Bases(st.slabs) + {page} by {
        forall x | x in Bases(st'.slabs) ensures x in Bases(st.slabs) + {page} {
          var i :| 0 <= i < |st'.slabs| && st'.slabs[i].base == x;
          if i < n {
            assert st.slabs[i].base == x;
          }
        }
        forall x | x in Bases(st.slabs) ensures x in Bases(st'.slabs) {
          var i :| 0 <= i < |st.slabs| && st.slabs[i].base == x;
          assert st'.slabs[i].base == x;
        }
        assert st'.slabs[n].base == page;
      }
      forall i | 0 <= i < |st'.slabs|
        ensures st'.slabs[i].base in st'.index
        ensures st'.index[st'.slabs[i].base] == Bufctl(st'.slabs[i].id, st'.slabs[i].base)
      {
        if i < n {
          NewSlabApart(st, page, rec, i);
        }
      }
    }
  }

  /** Growing keeps the cache invariant. */
  lemma GrowKeepsInv(st: CacheState, page: int, rec: int)
    requires Inv(st) && GrowOk(st, page, rec)
    ensures Inv(GrowState(st, page, rec))
  {
    var st' := GrowState(st, page, rec);
    var t := NewSlab(st, page, rec);
    var n := |st.slabs|;
    assert st'.slabs == st.slabs + [t];
    forall i | 0 <= i < |st'.slabs|
      ensures SlabOk(st', st'.slabs[i])
    {
      if i < n {
        assert SlabOk(st, st.slabs[i]);
      } else {
        NewSlabOk(st, page, rec);
      }
    }
    forall i, j | 0 <= i < j < |st'.slabs|
      ensures Apart(st', st'.slabs[i], st'.slabs[j])
    {
      if j < n {
        assert Apart(st, st.slabs[i], st.slabs[j]);
      } else {
        NewSlabApart(st, page, rec, i);
      }
    }
    GrowKeepsIndex(st, page, rec);
  }

  /** The new slab holds no object, so the allocated total is unchanged. */
  lemma GrowKeepsTotal(st: CacheState, page: int, rec: int)
    requires GrowOk(st, page, rec)
    ensures Total(GrowState(st, page, rec).slabs) == Total(st.slabs)
  {
    TotalConcat(st.slabs, [NewSlab(st, page, rec)]);
    TotalSingle(NewSlab(st, page, rec));
  }

  /**
   * Growing appends exactly one slab, with no object allocated and room for
   * at least one, at the end of the list and points the cursor at it; the
   * old slabs, the allocated total and the set of outstanding objects are
   * unchanged.
   */
  lemma GrowAppendsEmptySlab(st: CacheState, page: int, rec: int)
    requires Inv(st) && GrowOk(st, page, rec)
    ensures var st' := GrowState(st, page, rec);
      && |st'.slabs| == |st.slabs| + 1 && st'.slabs[..|st.slabs|] == st.slabs
      && st'.slabs[|st.slabs|].allocatedCount == 0
      && st'.slabs[|st.slabs|].maxObjs >= 1
      && st'.slabs[|st.slabs|].base == page
      && st'.freeSlab == Some(|st.slabs|)
      && Total(st'.slabs) == Total(st.slabs)
      && (forall x :: Outstanding(st', x) <==> Outstanding(st, x))
  {
    var st' := GrowState(st, page, rec);
    var n := |st.slabs|;
    assert st'.slabs[..n] == st.slabs;
    if !st.large {
      SmallCapacityAtLeastSeven(st.objSize);
    }
    GrowKeepsTotal(st, page, rec);
    forall x
      ensures Outstanding(st', x) <==> Outstanding(st, x)
    {
      if Outstanding(st', x) {
        var i :| HeldBy(st', i, x);
        assert i < n;
        assert HeldBy(st, i, x);
      }
      if Outstanding(st, x) {
        var i :| HeldBy(st, i, x);
        assert HeldBy(st', i, x);
      }
    }
  }
}

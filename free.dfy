/**
 * kmem_cache_free: find the slab an object came from, count it back, append
 * the object to that slab's freelist, and reap once the slab holds nothing.
 */
module Free {
  import opened Wrappers
  import opened Layout
  import opened SlabState
  import opened StateFacts
  import opened Alloc
  import opened Reap

  /** Free resolves an outstanding object to the slab holding it, which counts at least one object. */
  lemma OwnerHoldsObject(st: CacheState, buf: int)
    requires Inv(st) && Outstanding(st, buf)
    ensures Owner(st, buf) < |st.slabs| && HeldBy(st, Owner(st, buf), buf)
    ensures st.slabs[Owner(st, buf)].allocatedCount >= 1
  {
    var i :| HeldBy(st, i, buf);
    OwnerIsHolder(st, i, buf);
    HolderNotEmpty(st, i, buf);
  }

  /** Giving a held object back to its slab keeps the invariant. */
  lemma FreeAtKeepsInv(st: CacheState, k: nat, buf: int)
    requires Inv(st) && HeldBy(st, k, buf)
    requires st.slabs[k].allocatedCount > 0
    ensures Inv(FreeAt(st, k, buf))
  {
    var s := st.slabs[k];
    assert SlabOk(st, s);
    var t := s.(allocatedCount := s.allocatedCount - 1, freelist := s.freelist + [buf]);
    assert Slots(st, t) == Slots(st, s);
    forall a, b | 0 <= a < b < |t.freelist|
      ensures t.freelist[a] != t.freelist[b]
    {
      if b < |s.freelist| {
        assert t.freelist[a] == s.freelist[a] && t.freelist[b] == s.freelist[b];
      } else {
        assert t.freelist[a] == s.freelist[a] && s.freelist[a] in s.freelist;
      }
    }
    forall x | x in t.freelist ensures x in Slots(st, t) {
      assert x in s.freelist || x == buf;
    }
    UpdateKeepsInv(st, k, t);
  }

  /** After giving `buf` back to slab `k`, each slab holds what it held, less `buf` in slab `k`. */
  lemma HeldAfterFree(st: CacheState, k: nat, buf: int, i: int, x: int)
    requires k < |st.slabs| && st.slabs[k].allocatedCount > 0
    ensures HeldBy(FreeAt(st, k, buf), i, x) <==> HeldBy(st, i, x) && !(i == k && x == buf)
  {
    var st' := FreeAt(st, k, buf);
    if 0 <= i < |st.slabs| {
      assert Slots(st', st'.slabs[i]) == Slots(st, st.slabs[i]);
      if i == k {
        assert x in st'.slabs[k].freelist <==> x in st.slabs[k].freelist || x == buf;
      }
    }
  }

  /** Giving a held object back makes it, and only it, no longer outstanding. */
  lemma FreeAtReturnsObject(st: CacheState, k: nat, buf: int, x: int)
    requires Inv(st) && HeldBy(st, k, buf)
    requires st.slabs[k].allocatedCount > 0
    ensures Outstanding(FreeAt(st, k, buf), x) <==> Outstanding(st, x) && x != buf
  {
    var st' := FreeAt(st, k, buf);
    if Outstanding(st', x) {
      var i :| HeldBy(st', i, x);
      HeldAfterFree(st, k, buf, i, x);
      if x == buf {
        HolderUnique(st, i, k, buf);
      }
    }
    if Outstanding(st, x) && x != buf {
      var i :| HeldBy(st, i, x);
      HeldAfterFree(st, k, buf, i, x);
    }
  }

  /** The cache state after one call of free on an outstanding object. */
  ghost function FreeState(st: CacheState, buf: int): CacheState
    requires Inv(st) && Outstanding(st, buf)
  {
    OwnerHoldsObject(st, buf);
    var k := Owner(st, buf);
    var st1 := FreeAt(st, k, buf);
    FreeAtKeepsInv(st, k, buf);
    if st1.slabs[k].allocatedCount == 0 then
      assert HasEmpty(st1.slabs) by {
        assert st1.slabs[k].allocatedCount == 0;
      }
      ReapState(st1)
    else st1
  }

  /**
   * One call of free keeps the invariant, hands `buf` back and nothing
   * else, and lowers the allocated total by one.
   */
  lemma FreeReturnsObject(st: CacheState, buf: int)
    requires Inv(st) && Outstanding(st, buf)
    ensures var st' := FreeState(st, buf);
      && Inv(st')
      && (forall x :: Outstanding(st', x) <==> Outstanding(st, x) && x != buf)
      && Total(st'.slabs) == Total(st.slabs) - 1
  {
    OwnerHoldsObject(st, buf);
    var k := Owner(st, buf);
    var st1 := FreeAt(st, k, buf);
    FreeAtKeepsInv(st, k, buf);
    TotalUpdate(st.slabs, k, st1.slabs[k]);
    forall x
      ensures Outstanding(st1, x) <==> Outstanding(st, x) && x != buf
    {
      FreeAtReturnsObject(st, k, buf, x);
    }
    if st1.slabs[k].allocatedCount == 0 {
      assert HasEmpty(st1.slabs) by {
        assert st1.slabs[k].allocatedCount == 0;
      }
      ReapKeepsInv(st1);
      ReapRemovesFirstEmpty(st1);
    }
  }

  /**
   * Free returns `buf` to the slab it was carved from, at the tail of its
   * freelist; the slab stays, and nothing else changes, unless that was its
   * last object, in which case reap removes one slab.
   */
  lemma FreeAppendsToOwner(st: CacheState, buf: int)
    requires Inv(st) && Outstanding(st, buf)
    ensures var st' := FreeState(st, buf); var k := Owner(st, buf);
      && k < |st.slabs| && HeldBy(st, k, buf)
      && (st.slabs[k].allocatedCount == 1 <==> |st'.slabs| == |st.slabs| - 1)
      && (st.slabs[k].allocatedCount > 1 ==>
            && |st'.slabs| == |st.slabs|
            && st'.slabs[k].allocatedCount == st.slabs[k].allocatedCount - 1
            && st'.slabs[k].freelist == st.slabs[k].freelist + [buf]
            && st'.freeSlab == st.freeSlab
            && (forall j :: 0 <= j < |st.slabs| && j != k ==> st'.slabs[j] == st.slabs[j]))
  {
    OwnerHoldsObject(st, buf);
  }

  // ---------------------------------------------------------------------
  // Used only through alloc and free, a cache never keeps a slab that
  // holds nothing, so reap removes exactly the slab free has just drained.

  predicate NoEmpty(slabs: seq<Slab>)
  {
    forall i :: 0 <= i < |slabs| ==> slabs[i].allocatedCount > 0
  }

  /** A new cache has no slab at all. */
  lemma CreateHasNoEmpty(size: nat)
    ensures NoEmpty(CreateState(size).slabs) && Inv(CreateState(size))
    ensures Total(CreateState(size).slabs) == 0
    ensures forall x :: !Outstanding(CreateState(size), x)
  {
  }

  /** Alloc leaves no slab empty: the slab it takes from counts at least one object. */
  lemma AllocKeepsNoEmpty(st: CacheState, page: int, rec: int)
    requires Inv(st) && (NeedsGrow(st) ==> GrowOk(st, page, rec)) && NoEmpty(st.slabs)
    ensures NoEmpty(AllocState(st, page, rec).slabs)
  {
    AllocHandsOutFreshObject(st, page, rec);
    var st' := AllocState(st, page, rec);
    var n := |st.slabs|;
    forall i | 0 <= i < |st'.slabs|
      ensures st'.slabs[i].allocatedCount > 0
    {
      if i < n && NeedsGrow(st) {
        assert st'.slabs[i] == st'.slabs[..n][i];
      }
    }
  }

  /** When one slab alone is empty, reap removes that slab and leaves none empty. */
  lemma ReapOnlyEmpty(st: CacheState, k: nat)
    requires Inv(st) && k < |st.slabs| && st.slabs[k].allocatedCount == 0
    requires forall j :: 0 <= j < |st.slabs| && j != k ==> st.slabs[j].allocatedCount > 0
    ensures HasEmpty(st.slabs) && FirstEmpty(st.slabs) == k
    ensures ReapState(st).slabs == RemoveAt(st.slabs, k) && NoEmpty(ReapState(st).slabs)
  {
    assert HasEmpty(st.slabs);
    var rest := RemoveAt(st.slabs, k);
    forall i | 0 <= i < |rest|
      ensures rest[i].allocatedCount > 0
    {
      RemoveAtIndex(st.slabs, k, i);
    }
  }

  /**
   * In a cache with no empty slab, free reaps exactly when it drains the
   * owning slab, and then removes that slab and no other; no empty slab
   * remains.
   */
  lemma FreeReapsDrainedSlab(st: CacheState, buf: int)
    requires Inv(st) && Outstanding(st, buf) && NoEmpty(st.slabs)
    ensures var st' := FreeState(st, buf); var k := Owner(st, buf);
      && NoEmpty(st'.slabs)
      && k < |st.slabs|
      && (st.slabs[k].allocatedCount == 1 ==> st'.slabs == st.slabs[..k] + st.slabs[k + 1..])
  {
    OwnerHoldsObject(st, buf);
    var k := Owner(st, buf);
    var st1 := FreeAt(st, k, buf);
    FreeAtKeepsInv(st, k, buf);
    if st1.slabs[k].allocatedCount == 0 {
      ReapOnlyEmpty(st1, k);
      assert st1.slabs[..k] == st.slabs[..k];
      assert st1.slabs[k + 1..] == st.slabs[k + 1..];
    }
  }
}

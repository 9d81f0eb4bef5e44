/**
 * kmem_cache_alloc: take the head of the cursor slab's freelist, growing the
 * cache first when the cursor is null or its slab is full.
 */
module Alloc {
  import opened Wrappers
  import opened Layout
  import opened SlabState
  import opened StateFacts
  import opened Grow

  /**
   * After one growth the cursor slab has room, so the recursive retry in
   * alloc is served without a second growth.
   */
  lemma RetryDoesNotGrow(st: CacheState, page: int, rec: int)
    requires Inv(st) && (NeedsGrow(st) ==> GrowOk(st, page, rec))
    ensures CanTake(Prepared(st, page, rec))
  {
    if NeedsGrow(st) {
      GrowKeepsInv(st, page, rec);
      GrowAppendsEmptySlab(st, page, rec);
    }
  }

  /** The address one call of alloc returns. */
  ghost function AllocAddr(st: CacheState, page: int, rec: int): int
    requires Inv(st) && (NeedsGrow(st) ==> GrowOk(st, page, rec))
  {
    RetryDoesNotGrow(st, page, rec);
    TakeAddr(Prepared(st, page, rec))
  }

  /** The cache state after one call of alloc. */
  ghost function AllocState(st: CacheState, page: int, rec: int): CacheState
    requires Inv(st) && (NeedsGrow(st) ==> GrowOk(st, page, rec))
  {
    RetryDoesNotGrow(st, page, rec);
    TakeState(Prepared(st, page, rec))
  }

  /** The freelist head is a slot of its slab that no slab holds as allocated. */
  lemma HeadIsFree(st: CacheState)
    requires CanTake(st)
    ensures var k := st.freeSlab.value;
      && st.slabs[k].freelist != []
      && TakeAddr(st) in Slots(st, st.slabs[k])
      && !Outstanding(st, TakeAddr(st))
  {
    var k := st.freeSlab.value;
    var s := st.slabs[k];
    var r := s.freelist[0];
    assert SlabOk(st, s);
    if Outstanding(st, r) {
      var j :| HeldBy(st, j, r);
      SlotsApart(st, k, j, r);
    }
  }

  /** Taking the head keeps the cursor slab well formed and so the invariant. */
  lemma TakeKeepsInv(st: CacheState)
    requires CanTake(st)
    ensures Inv(TakeState(st))
  {
    var k := st.freeSlab.value;
    var s := st.slabs[k];
    assert SlabOk(st, s);
    var t := s.(allocatedCount := s.allocatedCount + 1, freelist := s.freelist[1..]);
    assert Distinct(t.freelist);
    assert Slots(st, t) == Slots(st, s);
    forall x | x in t.freelist ensures x in Slots(st, t) {
      assert x in s.freelist;
    }
    UpdateKeepsInv(st, k, t);
  }

  /**
   * Taking from the cursor slab hands out one object that was not
   * outstanding: it joins the outstanding set and nothing else does, the
   * cursor slab counts one more object and stays within its capacity, and
   * every other slab and the cursor are unchanged.
   */
  lemma TakeHandsOutHead(st: CacheState)
    requires CanTake(st)
    ensures var st' := TakeState(st); var r := TakeAddr(st); var k := st.freeSlab.value;
      && !Outstanding(st, r)
      && (forall x :: Outstanding(st', x) <==> Outstanding(st, x) || x == r)
      && Total(st'.slabs) == Total(st.slabs) + 1
      && st'.slabs[k].allocatedCount == st.slabs[k].allocatedCount + 1
      && st'.slabs[k].allocatedCount <= st'.slabs[k].maxObjs
      && |st'.slabs| == |st.slabs| && st'.freeSlab == st.freeSlab
      && (forall j :: 0 <= j < |st.slabs| && j != k ==> st'.slabs[j] == st.slabs[j])
  {
    var st' := TakeState(st);
    var r := TakeAddr(st);
    var k := st.freeSlab.value;
    var s := st.slabs[k];
    HeadIsFree(st);
    TakeKeepsInv(st);
    assert SlabOk(st', st'.slabs[k]);
    TotalUpdate(st.slabs, k, st'.slabs[k]);
    forall x
      ensures Outstanding(st', x) <==> Outstanding(st, x) || x == r
    {
      assert x in s.freelist <==> x == r || x in s.freelist[1..];
      if x == r {
        assert HeldBy(st', k, r);
      } else {
        if Outstanding(st', x) {
          var i :| HeldBy(st', i, x);
          assert HeldBy(st, i, x);
        }
        if Outstanding(st, x) {
          var i :| HeldBy(st, i, x);
          assert HeldBy(st', i, x);
        }
      }
    }
  }

  /**
   * One call of alloc keeps the invariant and returns an object that was not
   * outstanding, which is now outstanding along with every earlier one; the
   * allocated total rises by one, and the cache grew by exactly one slab
   * precisely when the cursor was null or on a full slab.
   */
  lemma AllocHandsOutFreshObject(st: CacheState, page: int, rec: int)
    requires Inv(st) && (NeedsGrow(st) ==> GrowOk(st, page, rec))
    ensures var st' := AllocState(st, page, rec); var r := AllocAddr(st, page, rec);
      && Inv(st')
      && !Outstanding(st, r)
      && (forall x :: Outstanding(st', x) <==> Outstanding(st, x) || x == r)
      && Total(st'.slabs) == Total(st.slabs) + 1
      && |st'.slabs| == |st.slabs| + (if NeedsGrow(st) then 1 else 0)
      && (NeedsGrow(st) ==>
            && st'.slabs[..|st.slabs|] == st.slabs
            && st'.freeSlab == Some(|st.slabs|)
            && st'.slabs[|st.slabs|].allocatedCount == 1)
      && (!NeedsGrow(st) ==>
            && st'.freeSlab == st.freeSlab
            && forall j :: 0 <= j < |st.slabs| && j != st.freeSlab.value ==> st'.slabs[j] == st.slabs[j])
  {
    var p := Prepared(st, page, rec);
    RetryDoesNotGrow(st, page, rec);
    TakeKeepsInv(p);
    TakeHandsOutHead(p);
    if NeedsGrow(st) {
      GrowAppendsEmptySlab(st, page, rec);
      var n := |st.slabs|;
      assert AllocState(st, page, rec).slabs[..n] == p.slabs[..n];
    }
  }
}

/**
 * kmem_cache_reap: unlink the first slab in list order that holds no
 * object, move the cursor off it, and in large mode drop its bufctl.
 */
module Reap {
  import opened Wrappers
  import opened Layout
  import opened SlabState
  import opened StateFacts

  /** The slabs left after a removal keep their relative order. */
  lemma RemoveAtIndex(slabs: seq<Slab>, k: nat, i: int)
    requires k < |slabs| && 0 <= i < |slabs| - 1
    ensures RemoveAt(slabs, k)[i] == slabs[if i < k then i else i + 1]
  {
  }

  /** The cursor stays in range once a node is unlinked. */
  lemma CursorInRange(cursor: Option<nat>, k: nat, n: nat)
    requires k < n && (cursor.Some? ==> cursor.value < n)
    ensures var c := CursorAfterRemoval(cursor, k, n); c.Some? ==> c.value < n - 1
  {
  }

  /**
   * A large slab with no allocated object has its buffer as the only
   * freelist entry, which is the key reap looks up in the index.
   */
  lemma EmptyLargeSlabFreelist(st: CacheState, k: int)
    requires Inv(st) && st.large && 0 <= k < |st.slabs| && st.slabs[k].allocatedCount == 0
    ensures st.slabs[k].freelist == [st.slabs[k].base]
  {
    var s := st.slabs[k];
    assert SlabOk(st, s);
    assert |s.freelist| == 1;
    var x := s.freelist[0];
    assert x in s.freelist;
    assert Slots(st, s) == [s.base];
    assert x in Slots(st, s);
    assert s.freelist == [x];
  }

  /** In large mode the removed slab's buffer leaves the set of buffers and no other does. */
  lemma BasesAfterRemoval(st: CacheState, k: nat)
    requires Inv(st) && k < |st.slabs|
    ensures Bases(RemoveAt(st.slabs, k)) == Bases(st.slabs) - {st.slabs[k].base}
  {
    var rest := RemoveAt(st.slabs, k);
    forall x | x in Bases(rest)
      ensures x in Bases(st.slabs) - {st.slabs[k].base}
    {
      var i :| 0 <= i < |rest| && rest[i].base == x;
      var j := if i < k then i else i + 1;
      RemoveAtIndex(st.slabs, k, i);
      if j < k {
        assert Apart(st, st.slabs[j], st.slabs[k]);
      } else {
        assert Apart(st, st.slabs[k], st.slabs[j]);
      }
    }
    forall x | x in Bases(st.slabs) - {st.slabs[k].base}
      ensures x in Bases(rest)
    {
      var j :| 0 <= j < |st.slabs| && st.slabs[j].base == x;
      var i := if j < k then j else j - 1;
      RemoveAtIndex(st.slabs, k, i);
    }
  }

  /** Reap keeps the cache invariant. */
  lemma ReapKeepsInv(st: CacheState)
    requires Inv(st) && HasEmpty(st.slabs)
    ensures Inv(ReapState(st))
  {
    var k := FirstEmpty(st.slabs);
    var st' := ReapState(st);
    var n := |st.slabs|;
    forall i | 0 <= i < |st'.slabs|
      ensures SlabOk(st', st'.slabs[i])
    {
      RemoveAtIndex(st.slabs, k, i);
      assert SlabOk(st, st.slabs[if i < k then i else i + 1]);
    }
    forall i, j | 0 <= i < j < |st'.slabs|
      ensures Apart(st', st'.slabs[i], st'.slabs[j])
    {
      RemoveAtIndex(st.slabs, k, i);
      RemoveAtIndex(st.slabs, k, j);
      assert Apart(st, st.slabs[if i < k then i else i + 1], st.slabs[if j < k then j else j + 1]);
    }
    CursorInRange(st.freeSlab, k, n);
    if st.large {
      EmptyLargeSlabFreelist(st, k);
      BasesAfterRemoval(st, k);
      forall i | 0 <= i < |st'.slabs|
        ensures st'.slabs[i].base in st'.index
        ensures st'.index[st'.slabs[i].base] == Bufctl(st'.slabs[i].id, st'.slabs[i].base)
      {
        var j := if i < k then i else i + 1;
        RemoveAtIndex(st.slabs, k, i);
        if j < k {
          assert Apart(st, st.slabs[j], st.slabs[k]);
        } else {
          assert Apart(st, st.slabs[k], st.slabs[j]);
        }
      }
    }
  }

  /** A slab left after the removal holds exactly what it held before. */
  lemma HeldAfterRemoval(st: CacheState, k: nat, i: int, x: int)
    requires k < |st.slabs| && 0 <= i < |st.slabs| - 1
    ensures var st' := st.(slabs := RemoveAt(st.slabs, k));
      HeldBy(st', i, x) <==> HeldBy(st, if i < k then i else i + 1, x)
  {
    RemoveAtIndex(st.slabs, k, i);
  }

  /** Unlinking a slab that does not hold `x` leaves `x` outstanding or not, as before. */
  lemma RemovalKeepsHeld(st: CacheState, k: nat, x: int)
    requires k < |st.slabs| && !HeldBy(st, k, x)
    ensures Outstanding(st.(slabs := RemoveAt(st.slabs, k)), x) <==> Outstanding(st, x)
  {
    var sr := st.(slabs := RemoveAt(st.slabs, k));
    if Outstanding(sr, x) {
      var i :| HeldBy(sr, i, x);
      HeldAfterRemoval(st, k, i, x);
    }
    if Outstanding(st, x) {
      var j :| HeldBy(st, j, x);
      var i := if j < k then j else j - 1;
      HeldAfterRemoval(st, k, i, x);
      assert HeldBy(sr, i, x);
    }
  }

  /** Unlinking a slab that holds nothing leaves the outstanding objects as they were. */
  lemma RemovalKeepsOutstanding(st: CacheState, k: nat, x: int)
    requires Inv(st) && k < |st.slabs| && st.slabs[k].allocatedCount == 0
    ensures Outstanding(st.(slabs := RemoveAt(st.slabs, k)), x) <==> Outstanding(st, x)
  {
    EmptySlabHoldsNothing(st, k, x);
    RemovalKeepsHeld(st, k, x);
  }

  /** Reap hands back nothing: the outstanding objects are unchanged. */
  lemma ReapKeepsOutstanding(st: CacheState, x: int)
    requires Inv(st) && HasEmpty(st.slabs)
    ensures Outstanding(ReapState(st), x) <==> Outstanding(st, x)
  {
    var k := FirstEmpty(st.slabs);
    var sr := st.(slabs := RemoveAt(st.slabs, k));
    RemovalKeepsOutstanding(st, k, x);
    var st' := ReapState(st);
    assert st'.slabs == sr.slabs && st'.objSize == sr.objSize && st'.large == sr.large;
    assert Outstanding(st', x) == Outstanding(sr, x) by {
      assert forall i :: HeldBy(st', i, x) == HeldBy(sr, i, x);
    }
  }

  /**
   * Reap unlinks the first slab with no allocated object, keeping the other
   * slabs in order, and hands back nothing: the outstanding objects and the
   * allocated total are unchanged.
   */
  lemma ReapRemovesFirstEmpty(st: CacheState)
    requires Inv(st) && HasEmpty(st.slabs)
    ensures var st' := ReapState(st); var k := FirstEmpty(st.slabs);
      && st.slabs[k].allocatedCount == 0
      && (forall j :: 0 <= j < k ==> st.slabs[j].allocatedCount > 0)
      && st'.slabs == st.slabs[..k] + st.slabs[k + 1..]
      && Total(st'.slabs) == Total(st.slabs)
      && (forall x :: Outstanding(st', x) <==> Outstanding(st, x))
  {
    TotalRemove(st.slabs, FirstEmpty(st.slabs));
    forall x
      ensures Outstanding(ReapState(st), x) <==> Outstanding(st, x)
    {
      ReapKeepsOutstanding(st, x);
    }
  }

  /**
   * Where the cursor goes: nowhere when the last slab goes; onto the
   * predecessor when it was on the removed slab, or nowhere when that slab
   * was the head; on the same slab as before otherwise.
   */
  lemma ReapMovesCursor(st: CacheState)
    requires Inv(st) && HasEmpty(st.slabs)
    ensures var st' := ReapState(st); var k := FirstEmpty(st.slabs);
      && (|st.slabs| == 1 ==> st'.freeSlab == None)
      && (st.freeSlab == None ==> st'.freeSlab == None)
      && (|st.slabs| > 1 && st.freeSlab == Some(k) ==>
            if k == 0 then st'.freeSlab == None
            else st'.freeSlab == Some(k - 1) && st'.slabs[k - 1] == st.slabs[k - 1])
      && (|st.slabs| > 1 && st.freeSlab.Some? && st.freeSlab.value != k ==>
            st'.freeSlab.Some? && st'.slabs[st'.freeSlab.value] == st.slabs[st.freeSlab.value])
  {
    var k := FirstEmpty(st.slabs);
    var st' := ReapState(st);
    CursorInRange(st.freeSlab, k, |st.slabs|);
    if |st.slabs| > 1 && st.freeSlab.Some? {
      var j := st.freeSlab.value;
      if j == k && k > 0 {
        RemoveAtIndex(st.slabs, k, k - 1);
      } else if j > k {
        RemoveAtIndex(st.slabs, k, j - 1);
      } else if j < k {
        RemoveAtIndex(st.slabs, k, j);
      }
    }
  }

  /**
   * In large mode reap removes from the index exactly the bufctl of the
   * removed slab's buffer.
   */
  lemma LargeReapDropsBufctl(st: CacheState)
    requires Inv(st) && HasEmpty(st.slabs) && st.large
    ensures var st' := ReapState(st); var s := st.slabs[FirstEmpty(st.slabs)];
      && s.freelist == [s.base]
      && st'.index.Keys == st.index.Keys - {s.base}
      && (forall b :: b in st'.index ==> st'.index[b] == st.index[b])
  {
    EmptyLargeSlabFreelist(st, FirstEmpty(st.slabs));
  }
}

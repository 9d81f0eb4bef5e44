/**
 * The allocator as the program runs it: a `Cache` object whose fields are
 * those of `struct kmem_cache`, updated in place by create, grow, alloc,
 * free, reap and destroy, and the list walks those operations perform.
 * Every method promises that the fields follow the corresponding function
 * of module SlabState, so the lemmas proved there hold of the object.
 */
module SlabCache {
  import opened Wrappers
  import opened Layout
  import opened SlabState
  import opened StateFacts
  import opened Grow
  import opened Alloc
  import opened Reap
  import opened Free

  // ---------------------------------------------------------------------
  // The loops of the allocator

  /**
   * The seeding loop of a small-object growth: one slot per object that fits
   * wholly in front of the header, in ascending order from the page start.
   */
  method SeedSmallSlab(page: int, objSize: nat) returns (fl: seq<int>)
    requires objSize > 0
    ensures fl == SmallSlots(page, objSize)
    ensures |fl| == Capacity(objSize)
  {
    fl := [];
    var i := 0;
    while i + objSize <= USABLE
      invariant i == |fl| * objSize && i <= USABLE
      invariant forall k :: 0 <= k < |fl| ==> fl[k] == page + k * objSize
      decreases USABLE - i
    {
      fl := fl + [page + i];
      i := i + objSize;
    }
    FitsIffBelowQuotient(|fl|, USABLE, objSize);
    FitsIffBelowQuotient(|fl| + 1, USABLE, objSize);
    assert (|fl| + 1) * objSize == i + objSize;
  }

  /** The size loop of a large-object growth: whole pages until the object fits. */
  method LargeBufferSize(objSize: nat) returns (memAlloc: int)
    ensures memAlloc == BufferSize(objSize)
    ensures memAlloc % PAGE_SIZE == 0 && objSize <= memAlloc
    ensures memAlloc == PAGE_SIZE || memAlloc - PAGE_SIZE < objSize
  {
    memAlloc := PAGE_SIZE;
    while memAlloc < objSize
      invariant memAlloc % PAGE_SIZE == 0 && PAGE_SIZE <= memAlloc
      invariant memAlloc == PAGE_SIZE || memAlloc - PAGE_SIZE < objSize
      decreases objSize - memAlloc
    {
      memAlloc := memAlloc + PAGE_SIZE;
    }
  }

  /** The walk after a growth: from the head to the node holding record `id`. */
  method FindNode(slabs: seq<Slab>, id: int) returns (k: nat)
    requires exists j :: 0 <= j < |slabs| && slabs[j].id == id
    ensures k < |slabs| && slabs[k].id == id
    ensures forall j :: 0 <= j < k ==> slabs[j].id != id
  {
    k := 0;
    while slabs[k].id != id
      invariant k < |slabs|
      invariant forall j :: 0 <= j < k ==> slabs[j].id != id
      invariant exists j :: k <= j < |slabs| && slabs[j].id == id
      decreases |slabs| - k
    {
      k := k + 1;
    }
  }

  /**
   * The small-mode walk of free: from the head to the first slab whose
   * window accepts `buf`. The loop has no end-of-list test, so a slab that
   * accepts `buf` must exist.
   */
  method ScanOwner(slabs: seq<Slab>, buf: int) returns (k: nat)
    requires FirstOwner(slabs, buf) < |slabs|
    ensures k == FirstOwner(slabs, buf)
  {
    k := 0;
    while !Owns(slabs[k], buf)
      invariant k <= FirstOwner(slabs, buf)
      decreases FirstOwner(slabs, buf) - k
    {
      k := k + 1;
    }
  }

  /**
   * The walk of reap: from the head to the first slab with no allocated
   * object. The loop has no end-of-list test, so such a slab must exist.
   */
  method ScanEmpty(slabs: seq<Slab>) returns (k: nat)
    requires HasEmpty(slabs)
    ensures k == FirstEmpty(slabs)
  {
    k := 0;
    while slabs[k].allocatedCount != 0
      invariant k <= FirstEmpty(slabs)
      decreases FirstEmpty(slabs) - k
    {
      k := k + 1;
    }
  }

  /**
   * The list surgery of reap: find the first slab holding nothing, move the
   * cursor off it, drop its bufctl in large mode, and unlink it.
   */
  method Unlink(st: CacheState) returns (list: seq<Slab>, cursor: Option<nat>, hash: map<int, Bufctl>)
    requires Inv(st) && HasEmpty(st.slabs)
    ensures CacheState(st.objSize, st.large, list, cursor, hash) == ReapState(st)
  {
    var k := ScanEmpty(st.slabs);
    var s := st.slabs[k];
    cursor := st.freeSlab;
    if |st.slabs| == 1 {
      cursor := None;
    } else if cursor == Some(k) {
      cursor := if k == 0 then None else Some(k - 1);
    } else if cursor.Some? && cursor.value > k {
      // The cursor names a node by position: the nodes after the removed
      // one move up by one.
      cursor := Some(cursor.value - 1);
    }
    assert cursor == CursorAfterRemoval(st.freeSlab, k, |st.slabs|);
    hash := st.index;
    if st.large {
      EmptyLargeSlabFreelist(st, k);
      hash := hash - {s.freelist[0]};
    }
    list := st.slabs[..k] + st.slabs[k + 1..];
  }

  /**
   * The carving step of grow: the slab made on the block at `page`, the
   * bufctl hash with the new buffer added in large mode, the record the
   * slab list will hold, and the bytes the block is requested with.
   */
  method CarveBlock(st: CacheState, page: int, rec: int)
    returns (newSlab: Slab, hash: map<int, Bufctl>, newId: int, blockSize: int)
    requires st.objSize > 0 && st.large == IsLarge(st.objSize)
    ensures newSlab == NewSlab(st, page, rec) && newId == newSlab.id
    ensures hash == GrowState(st, page, rec).index
    ensures blockSize == RegionSize(st)
  {
    hash := st.index;
    if st.large {
      blockSize := LargeBufferSize(st.objSize);
      newSlab := Slab(rec, page, 0, 1, [page]);
      hash := hash[page := Bufctl(rec, page)];
      newId := rec;
    } else {
      blockSize := PAGE_SIZE;
      var fl := SeedSmallSlab(page, st.objSize);
      newId := HeaderAddr(page);
      newSlab := Slab(newId, page, 0, Capacity(st.objSize), fl);
    }
  }

  /**
   * The list step of grow: append the new slab, then walk from the head to
   * its node and point the cursor there.
   */
  method Link(st: CacheState, page: int, rec: int)
    returns (list: seq<Slab>, cursor: Option<nat>, hash: map<int, Bufctl>, newId: int, blockSize: int)
    requires Inv(st) && GrowOk(st, page, rec)
    ensures CacheState(st.objSize, st.large, list, cursor, hash) == GrowState(st, page, rec)
    ensures newId == NewSlab(st, page, rec).id && blockSize == RegionSize(st)
  {
    var newSlab;
    newSlab, hash, newId, blockSize := CarveBlock(st, page, rec);
    list := st.slabs + [newSlab];
    GrowKeepsInv(st, page, rec);
    PositionOfRecord(GrowState(st, page, rec), |list| - 1);
    var k := FindNode(list, newId);
    cursor := Some(k);
  }

  /** The `offSet` a growth records: the new slab record's address modulo the page size. */
  function GrowOffset(st: CacheState, page: int, rec: int): (r: int)
    requires st.objSize > 0
    ensures !st.large && 0 <= page && page % PAGE_SIZE == 0 ==> r == USABLE
    ensures st.large ==> r == CRem(rec, PAGE_SIZE)
  {
    CRem(NewSlab(st, page, rec).id, PAGE_SIZE)
  }

  // ---------------------------------------------------------------------
  // The cache object

  class Cache {
    /** `name` and `objSize` are set once at creation. */
    const name: string
    const objSize: nat
    /** Objects above an eighth of a page are kept one per slab. */
    const large: bool
    /** The slab list, head first. */
    var slabs: seq<Slab>
    /** The position of the node the free-slab cursor points at. */
    var freeSlab: Option<nat>
    /** The bufctl hash, keyed by buffer address. */
    var buffhash: map<int, Bufctl>
    /** The offset of the last slab record within its page; -1 before any growth. */
    var offSet: int
    /**
     * The handle of the slab-list object, as the list constructor returned
     * it at creation; no operation changes it.
     */
    const listHandle: int
    /** Set once destroy has released the cache record. */
    var released: bool
    /** How many allocs and frees have completed. */
    ghost var allocs: nat
    ghost var frees: nat

    function State(): CacheState
      reads this
    {
      CacheState(objSize, large, slabs, freeSlab, buffhash)
    }

    ghost predicate Valid()
      reads this
    {
      Inv(State()) && !released && Total(slabs) == allocs - frees
    }

    /**
     * kmem_cache_create: no slabs, a null cursor, an empty hash and offset -1;
     * `listHandle` is what the list constructor returned. A size of 0 is
     * refused: growth divides by the object size.
     */
    constructor (name: string, size: nat, listHandle: int)
      requires size > 0
      ensures State() == CreateState(size) && Valid()
      ensures this.name == name && this.listHandle == listHandle
      ensures offSet == -1 && allocs == 0 && frees == 0
    {
      this.name := name;
      objSize := size;
      this.listHandle := listHandle;
      large := size > LARGE_LIMIT;
      slabs := [];
      freeSlab := None;
      buffhash := map[];
      offSet := -1;
      released := false;
      allocs, frees := 0, 0;
    }

    /**
     * kmem_cache_grow on the block at `page`, with slab record `rec` in
     * large mode. Returns the number of bytes the block is requested with.
     */
    method Grow(page: int, rec: int) returns (blockSize: int)
      requires Valid() && GrowOk(State(), page, rec)
      modifies this
      ensures Valid()
      ensures State() == GrowState(old(State()), page, rec)
      ensures offSet == GrowOffset(old(State()), page, rec)
      ensures blockSize == RegionSize(State())
      ensures allocs == old(allocs) && frees == old(frees)
    {
      ghost var st := State();
      var list, cursor, hash, newId;
      list, cursor, hash, newId, blockSize := Link(State(), page, rec);
      GrowKeepsInv(st, page, rec);
      GrowKeepsTotal(st, page, rec);
      slabs, freeSlab, buffhash, offSet := list, cursor, hash, CRem(newId, PAGE_SIZE);
    }

    /**
     * kmem_cache_alloc: grow first when the cursor is null or on a full
     * slab, then retry; the retry takes the cursor slab's freelist head.
     */
    method Alloc(page: int, rec: int) returns (r: int)
      requires Valid() && (NeedsGrow(State()) ==> GrowOk(State(), page, rec))
      modifies this
      ensures Valid()
      ensures State() == AllocState(old(State()), page, rec)
      ensures r == AllocAddr(old(State()), page, rec)
      ensures offSet == if NeedsGrow(old(State())) then GrowOffset(old(State()), page, rec) else old(offSet)
      ensures allocs == old(allocs) + 1 && frees == old(frees)
      decreases if NeedsGrow(State()) then 1 else 0
    {
      if freeSlab == None || slabs[freeSlab.value].allocatedCount == slabs[freeSlab.value].maxObjs {
        ghost var st := State();
        var _ := Grow(page, rec);
        RetryDoesNotGrow(st, page, rec);
        r := Alloc(page, rec);
      } else {
        r := Take();
      }
    }

    /** The branch of alloc that serves the cursor slab: count one more, pop its freelist head. */
    method Take() returns (r: int)
      requires Valid() && !NeedsGrow(State())
      modifies this
      ensures Valid()
      ensures State() == TakeState(old(State())) && r == TakeAddr(old(State()))
      ensures offSet == old(offSet) && allocs == old(allocs) + 1 && frees == old(frees)
    {
      ghost var st := State();
      var k := freeSlab.value;
      var s := slabs[k];
      assert SlabOk(st, s);
      TakeKeepsInv(st);
      var t := s.(allocatedCount := s.allocatedCount + 1, freelist := s.freelist[1..]);
      TotalUpdate(slabs, k, t);
      r := s.freelist[0];
      slabs, allocs := slabs[k := t], allocs + 1;
      assert State() == TakeState(st);
    }

    /**
     * kmem_cache_reap: unlink the first slab holding nothing, move the cursor
     * off it and, in large mode, drop the bufctl of its buffer.
     */
    method Reap()
      requires Valid() && HasEmpty(slabs)
      modifies this
      ensures Valid()
      ensures State() == ReapState(old(State()))
      ensures offSet == old(offSet) && allocs == old(allocs) && frees == old(frees)
    {
      ghost var st := State();
      var list, cursor, hash := Unlink(State());
      ReapKeepsInv(st);
      TotalRemove(st.slabs, FirstEmpty(st.slabs));
      slabs, freeSlab, buffhash := list, cursor, hash;
    }

    /**
     * The lookup of free: the slab an outstanding object came from, through
     * its bufctl in large mode or the list walk in small mode.
     */
    method FindSlab(buf: int) returns (k: nat)
      requires Valid() && Outstanding(State(), buf)
      ensures k == Owner(State(), buf) && HeldBy(State(), k, buf)
    {
      OwnerHoldsObject(State(), buf);
      if large {
        IndexResolvesOutstanding(State(), buf);
        var ctl := buffhash[buf];
        k :| 0 <= k < |slabs| && slabs[k].id == ctl.slab;
        PositionOfRecord(State(), k);
      } else {
        k := ScanOwner(slabs, buf);
      }
    }

    /**
     * kmem_cache_free of an outstanding object: resolve its slab through the
     * bufctl hash (large) or the list walk (small), count the object back,
     * append it to the slab's freelist, and reap once the slab is empty.
     */
    method Free(buf: int)
      requires Valid() && Outstanding(State(), buf)
      modifies this
      ensures Valid()
      ensures State() == FreeState(old(State()), buf)
      ensures offSet == old(offSet) && allocs == old(allocs) && frees == old(frees) + 1
    {
      ghost var st := State();
      var k := FindSlab(buf);
      Return(k, buf);
      if slabs[k].allocatedCount == 0 {
        assert HasEmpty(slabs) by {
          assert slabs[k].allocatedCount == 0;
        }
        Reap();
      }
    }

    /** The update of free: the slab counts one object fewer and `buf` joins its freelist tail. */
    method Return(k: nat, buf: int)
      requires Valid() && HeldBy(State(), k, buf)
      modifies this
      ensures Valid() && k < |slabs|
      ensures old(State().slabs[k].allocatedCount) > 0
      ensures State() == FreeAt(old(State()), k, buf)
      ensures offSet == old(offSet) && allocs == old(allocs) && frees == old(frees) + 1
    {
      ghost var st := State();
      HolderNotEmpty(st, k, buf);
      FreeAtKeepsInv(st, k, buf);
      var s := slabs[k];
      var t := s.(allocatedCount := s.allocatedCount - 1, freelist := s.freelist + [buf]);
      TotalUpdate(slabs, k, t);
      slabs, frees := slabs[k := t], frees + 1;
      assert State() == FreeAt(st, k, buf);
    }

    /** kmem_cache_destroy: release the cache record when it has no slabs. */
    method Destroy()
      requires Valid()
      modifies this
      ensures released <==> old(slabs) == []
      ensures State() == old(State()) && offSet == old(offSet)
      ensures allocs == old(allocs) && frees == old(frees)
    {
      if slabs == [] {
        released := true;
      }
    }

    /**
     * kmem_cache_destroy as written: it tests the list handle, not the list,
     * so it releases the record only if the list constructor returned null.
     */
    method DestroyAsWritten()
      requires Valid()
      modifies this
      ensures released <==> listHandle == 0
      ensures State() == old(State()) && offSet == old(offSet)
      ensures allocs == old(allocs) && frees == old(frees)
    {
      if listHandle == 0 {
        released := true;
      }
    }
  }
}

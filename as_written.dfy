/**
 * Three places where slab.h does something other than what it evidently
 * means to do, each modelled as written next to a concrete input that
 * shows the difference. The rest of the project uses the intended
 * behaviour: `SlabCache.SeedSmallSlab`, `SlabState.Owns` and
 * `SlabCache.Cache.Destroy`; destroy as written is the method
 * `SlabCache.Cache.DestroyAsWritten` of the cache object.
 */
module AsWritten {
  import opened Wrappers
  import opened Layout
  import opened SlabState
  import opened StateFacts
  import opened SlabCache

  // ---------------------------------------------------------------------
  // 1. The seeding loop tests where a slot starts, not where it ends.

  /** How many slots the loop as written seeds: one per start below the header. */
  function SeedCountAsWritten(objSize: nat): nat
    requires objSize > 0
  {
    (USABLE + objSize - 1) / objSize
  }

  function SeedSlotsAsWritten(page: int, objSize: nat): seq<int>
    requires objSize > 0
  {
    seq(SeedCountAsWritten(objSize), k => page + k * objSize)
  }

  /** The seeding loop as written: it runs while the slot start is below the header. */
  method SeedSmallSlabAsWritten(page: int, objSize: nat) returns (fl: seq<int>)
    requires objSize > 0
    ensures fl == SeedSlotsAsWritten(page, objSize)
  {
    fl := [];
    var i := 0;
    while i < USABLE
      invariant i == |fl| * objSize
      invariant |fl| == 0 || (|fl| - 1) * objSize < USABLE
      invariant forall k :: 0 <= k < |fl| ==> fl[k] == page + k * objSize
      decreases USABLE - i
    {
      fl := fl + [page + i];
      i := i + objSize;
    }
    assert |fl| * objSize >= USABLE;
    CeilCount(|fl|, objSize);
  }

  /** `n` is the number of starts below the header exactly when `n` is the rounded-up quotient. */
  lemma CeilCount(n: nat, objSize: nat)
    requires objSize > 0 && n * objSize >= USABLE && (n == 0 || (n - 1) * objSize < USABLE)
    ensures n == SeedCountAsWritten(objSize)
  {
    var q := SeedCountAsWritten(objSize);
    var a := USABLE + objSize - 1;
    assert a == q * objSize + a % objSize;
    if n < q {
      assert (n + 1) * objSize == n * objSize + objSize;
      MulMonotone(n + 1, q, objSize);
    } else if n > q {
      assert (n - 1) * objSize == n * objSize - objSize;
      MulMonotone(q, n - 1, objSize);
    }
  }

  /**
   * The loop as written seeds one slot more than `maxObjs` whenever the
   * object size does not divide the bytes in front of the header, and
   * that extra slot runs over the header.
   */
  lemma SeedAsWrittenOverruns(page: int, objSize: nat)
    requires objSize > 0 && USABLE % objSize != 0
    ensures |SeedSlotsAsWritten(page, objSize)| == Capacity(objSize) + 1
    ensures var last := SeedSlotsAsWritten(page, objSize)[Capacity(objSize)];
      last < HeaderAddr(page) < last + objSize
  {
    var c := Capacity(objSize);
    assert USABLE == c * objSize + USABLE % objSize;
    CeilCount(c + 1, objSize);
    assert (c + 1) * objSize == c * objSize + objSize;
  }

  /** When the object size divides the bytes in front of the header, the loop as written seeds exactly `maxObjs` slots. */
  lemma SeedCountsAgreeWhenDividing(objSize: nat)
    requires objSize > 0 && USABLE % objSize == 0
    ensures SeedCountAsWritten(objSize) == Capacity(objSize)
  {
    var c := Capacity(objSize);
    assert USABLE == c * objSize;
    if c > 0 {
      assert (c - 1) * objSize == c * objSize - objSize;
    }
    CeilCount(c, objSize);
  }

  /** Alloc from one slab as written: count one more and take the freelist head. */
  function TakeOne(s: Slab): Slab
    requires s.freelist != []
  {
    s.(allocatedCount := s.allocatedCount + 1, freelist := s.freelist[1..])
  }

  /** Free into one slab as written: count one fewer and append the object. */
  function GiveBack(s: Slab, buf: int): Slab
    requires s.allocatedCount > 0
  {
    s.(allocatedCount := s.allocatedCount - 1, freelist := s.freelist + [buf])
  }

  /** The addresses `n` successive allocs from a slab hand out while it is not full: its freelist in order. */
  function TakeRun(s: Slab, n: nat): (r: seq<int>)
    requires s.allocatedCount + n <= s.maxObjs && n <= |s.freelist|
    ensures r == s.freelist[..n]
    decreases n
  {
    if n == 0 then []
    else
      assert s.freelist[..n] == [s.freelist[0]] + s.freelist[1..][..n - 1];
      [s.freelist[0]] + TakeRun(TakeOne(s), n - 1)
  }

  /**
   * On a slab seeded as written with one slot too many: alloc twice, free
   * the first object, and the next `maxObjs - 1` allocs, all made while the
   * slab counts fewer than `maxObjs` objects, end with the extra slot.
   */
  lemma RefillReachesExtraSlot(page: int, objSize: nat)
    requires objSize > 0 && !IsLarge(objSize) && USABLE % objSize != 0
    ensures var c := Capacity(objSize);
      var s0 := Slab(HeaderAddr(page), page, 0, c, SeedSlotsAsWritten(page, objSize));
      && c >= 7 && |s0.freelist| == c + 1
      && var s1 := GiveBack(TakeOne(TakeOne(s0)), page);
      && s1.allocatedCount + (c - 1) <= s1.maxObjs && c - 1 <= |s1.freelist|
      && TakeRun(s1, c - 1)[c - 2] == page + c * objSize
  {
    var c := Capacity(objSize);
    SmallCapacityAtLeastSeven(objSize);
    SeedAsWrittenOverruns(page, objSize);
    var s0 := Slab(HeaderAddr(page), page, 0, c, SeedSlotsAsWritten(page, objSize));
    var s1 := GiveBack(TakeOne(TakeOne(s0)), page);
    assert s1.freelist == s0.freelist[1..][1..] + [page];
    assert s1.freelist[c - 2] == s0.freelist[c];
  }

  /**
   * Objects of 200 bytes on the page at 0: the loop as written seeds 21
   * slots for a slab of 20, and after the alloc-alloc-free sequence above
   * the nineteenth alloc returns the slot at 4000, whose 200 bytes cover
   * the header at 4080 and run past the end of the page.
   */
  lemma SeedOverrunExample()
    ensures |SeedSlotsAsWritten(0, 200)| == 21 && Capacity(200) == 20
    ensures var s1 := GiveBack(TakeOne(TakeOne(Slab(HeaderAddr(0), 0, 0, 20, SeedSlotsAsWritten(0, 200)))), 0);
      && s1.allocatedCount + 19 <= s1.maxObjs && 19 <= |s1.freelist|
      && TakeRun(s1, 19)[18] == 4000
      && 4000 < HeaderAddr(0) < 4000 + 200 && PAGE_SIZE < 4000 + 200
  {
    SeedAsWrittenOverruns(0, 200);
    RefillReachesExtraSlot(0, 200);
  }

  // ---------------------------------------------------------------------
  // 2. The small-mode free loop accepts a 4196-byte window.

  /** The window the free loop as written accepts for slab `s`. */
  predicate OwnsAsWritten(s: Slab, buf: int)
  {
    0 <= s.id - buf <= 4196
  }

  /** The position the free loop as written stops at (`|slabs|` if none). */
  function FirstOwnerAsWritten(slabs: seq<Slab>, buf: int): (k: nat)
    ensures k <= |slabs|
    ensures k < |slabs| ==> OwnsAsWritten(slabs[k], buf)
    ensures forall j :: 0 <= j < k ==> !OwnsAsWritten(slabs[j], buf)
  {
    if slabs == [] then 0
    else if OwnsAsWritten(slabs[0], buf) then 0
    else 1 + FirstOwnerAsWritten(slabs[1..], buf)
  }

  /**
   * The wide window still holds every slot of a slab, so the loop as written
   * never runs past the slab an object came from.
   */
  lemma ScanAsWrittenStopsByHolder(st: CacheState, i: int, buf: int)
    requires Inv(st) && !st.large && 0 <= i < |st.slabs| && buf in Slots(st, st.slabs[i])
    ensures FirstOwnerAsWritten(st.slabs, buf) <= i
  {
    assert SlabOk(st, st.slabs[i]);
    SlotInRegion(st, st.slabs[i], buf);
    assert OwnsAsWritten(st.slabs[i], buf);
  }

  /** A full small slab of 16-byte objects on `page`. */
  function FullSlab16(page: int): Slab
  {
    Slab(HeaderAddr(page), page, Capacity(16), Capacity(16), [])
  }

  /**
   * A 16-byte cache whose slab list holds the page at 8192 and then the page
   * at 4096, both full. The object at 8096 was carved from the second page,
   * and free with the intended window returns it there; the loop as written
   * stops at the first slab, whose header lies 4176 bytes above, and would
   * append the object to a slab it is not a slot of.
   */
  lemma WideWindowExample()
    ensures var st := CacheState(16, false, [FullSlab16(8192), FullSlab16(4096)], None, map[]);
      && Inv(st) && HeldBy(st, 1, 8096) && Outstanding(st, 8096)
      && Owner(st, 8096) == 1
      && FirstOwnerAsWritten(st.slabs, 8096) == 0
      && 8096 !in Slots(st, st.slabs[0])
  {
    var st := CacheState(16, false, [FullSlab16(8192), FullSlab16(4096)], None, map[]);
    assert SlabOk(st, st.slabs[0]) && SlabOk(st, st.slabs[1]);
    assert Apart(st, st.slabs[0], st.slabs[1]);
    assert Inv(st);
    assert SmallSlots(4096, 16)[250] == 8096;
    assert HeldBy(st, 1, 8096);
    OwnerIsHolder(st, 1, 8096);
    if 8096 in Slots(st, st.slabs[0]) {
      SlotInRegion(st, st.slabs[0], 8096);
    }
  }

  // ---------------------------------------------------------------------
  // 3. Destroy tests the list handle instead of the list.

  /**
   * Two caches created with a non-null list handle and destroyed at once:
   * `c` with destroy as written, which keeps its record although it has no
   * slab, and `d` with the intended destroy, which releases it.
   */
  method DestroyAsWrittenKeepsEmptyCache() returns (c: Cache, d: Cache)
    ensures c.slabs == [] && c.listHandle != 0 && !c.released
    ensures d.slabs == [] && d.listHandle != 0 && d.released
  {
    c := new Cache("empty", 16, 1);
    c.DestroyAsWritten();
    d := new Cache("empty", 16, 1);
    d.Destroy();
  }
}

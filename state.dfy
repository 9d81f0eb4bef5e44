/**
 * The abstract state of one cache (`struct kmem_cache`) and the effect of each
 * allocator operation on it, as functions from the old state to the new one.
 * The class in module SlabCache runs these operations in place and promises
 * that its fields follow these functions; the lemmas in modules Grow, Alloc,
 * Reap and Free prove what the operations guarantee.
 */
module SlabState {
  import opened Wrappers
  import opened Layout

  /**
   * One slab (`struct kmem_slab`). `id` is the address of its record, which
   * is also what the cache's slab list holds: for a small slab the header at
   * the tail of its page, for a large slab a record from the bootstrap slab
   * cache. `base` is the page (small) or buffer (large) the objects live in.
   */
  datatype Slab = Slab(id: int, base: int, allocatedCount: nat, maxObjs: nat, freelist: seq<int>)

  /** A buffer-control record (`struct kmem_bufctl`) of a large object. */
  datatype Bufctl = Bufctl(slab: int, buffer: int)

  /**
   * `slabs` is the slab list in list order, `freeSlab` the position of the
   * node `freeSlab` points at (`None` for null), `index` the bufctl hash
   * keyed by buffer address.
   */
  datatype CacheState = CacheState(
    objSize: nat,
    large: bool,
    slabs: seq<Slab>,
    freeSlab: Option<nat>,
    index: map<int, Bufctl>)

  // ---------------------------------------------------------------------
  // Layout of a slab within its cache

  /** The object slots a slab was carved into. */
  function Slots(st: CacheState, s: Slab): seq<int>
  {
    if st.large then [s.base]
    else if st.objSize > 0 then SmallSlots(s.base, st.objSize)
    else []
  }

  /** Bytes of the block a slab owns: one page, or the large buffer. */
  function RegionSize(st: CacheState): int
  {
    if st.large then BufferSize(st.objSize) else PAGE_SIZE
  }

  function RegionEnd(st: CacheState, s: Slab): int
  {
    s.base + RegionSize(st)
  }

  /** The bookkeeping of one slab is consistent with its memory. */
  ghost predicate SlabOk(st: CacheState, s: Slab)
  {
    && s.base % PAGE_SIZE == 0
    && (if st.large then s.maxObjs == 1
        else st.objSize > 0 && s.maxObjs == Capacity(st.objSize) && s.id == HeaderAddr(s.base))
    && s.allocatedCount + |s.freelist| == s.maxObjs
    && Distinct(s.freelist)
    && (forall x :: x in s.freelist ==> x in Slots(st, s))
  }

  /** Two slabs own disjoint blocks and have distinct records. */
  ghost predicate Apart(st: CacheState, a: Slab, b: Slab)
  {
    (RegionEnd(st, a) <= b.base || RegionEnd(st, b) <= a.base) && a.id != b.id
  }

  /** The buffer addresses of the slabs. */
  function Bases(slabs: seq<Slab>): set<int>
  {
    set i | 0 <= i < |slabs| :: slabs[i].base
  }

  /**
   * In large-object mode the index holds exactly one bufctl per slab, keyed
   * by that slab's buffer; in small-object mode it stays empty.
   */
  ghost predicate IndexOk(st: CacheState)
  {
    if st.large then
      && st.index.Keys == Bases(st.slabs)
      && (forall i :: 0 <= i < |st.slabs| ==>
            st.slabs[i].base in st.index &&
            st.index[st.slabs[i].base] == Bufctl(st.slabs[i].id, st.slabs[i].base))
    else st.index == map[]
  }

  /** The invariant every operation keeps. */
  ghost predicate Inv(st: CacheState)
  {
    && st.large == IsLarge(st.objSize)
    && (forall i :: 0 <= i < |st.slabs| ==> SlabOk(st, st.slabs[i]))
    && (forall i, j :: 0 <= i < j < |st.slabs| ==> Apart(st, st.slabs[i], st.slabs[j]))
    && (st.freeSlab.Some? ==> st.freeSlab.value < |st.slabs|)
    && IndexOk(st)
  }

  /** Slab `i` holds `x` as an allocated object: `x` is one of its slots and not free. */
  ghost predicate HeldBy(st: CacheState, i: int, x: int)
  {
    0 <= i < |st.slabs| && x in Slots(st, st.slabs[i]) && x !in st.slabs[i].freelist
  }

  /** `x` has been handed out by the cache and not given back. */
  ghost predicate Outstanding(st: CacheState, x: int)
  {
    exists i :: HeldBy(st, i, x)
  }

  /** The number of objects handed out, summed over the slabs. */
  function Total(slabs: seq<Slab>): int
  {
    if slabs == [] then 0 else Total(slabs[..|slabs| - 1]) + slabs[|slabs| - 1].allocatedCount
  }

  // ---------------------------------------------------------------------
  // kmem_cache_create

  function CreateState(size: nat): CacheState
  {
    CacheState(size, IsLarge(size), [], None, map[])
  }

  // ---------------------------------------------------------------------
  // kmem_cache_grow

  /**
   * What the block source and the bootstrap cache must deliver for a growth:
   * a page-aligned block (`page`) not overlapping any block of the cache and,
   * in large mode, a slab record (`rec`) the cache does not already use.
   */
  ghost predicate GrowOk(st: CacheState, page: int, rec: int)
  {
    && st.objSize > 0
    && page % PAGE_SIZE == 0
    && (forall i :: 0 <= i < |st.slabs| ==>
          page + RegionSize(st) <= st.slabs[i].base || RegionEnd(st, st.slabs[i]) <= page)
    && (st.large ==> forall i :: 0 <= i < |st.slabs| ==> st.slabs[i].id != rec)
  }

  /** The slab a growth creates on the block at `page`. */
  function NewSlab(st: CacheState, page: int, rec: int): Slab
    requires st.objSize > 0
  {
    if st.large then Slab(rec, page, 0, 1, [page])
    else Slab(HeaderAddr(page), page, 0, Capacity(st.objSize), SmallSlots(page, st.objSize))
  }

  function GrowState(st: CacheState, page: int, rec: int): CacheState
    requires st.objSize > 0
  {
    st.(slabs := st.slabs + [NewSlab(st, page, rec)],
        freeSlab := Some(|st.slabs|),
        index := if st.large then st.index[page := Bufctl(rec, page)] else st.index)
  }

  // ---------------------------------------------------------------------
  // kmem_cache_alloc

  /** The slab the cursor points at is missing or already full: alloc must grow. */
  predicate NeedsGrow(st: CacheState)
    requires st.freeSlab.Some? ==> st.freeSlab.value < |st.slabs|
  {
    st.freeSlab.None? ||
    st.slabs[st.freeSlab.value].allocatedCount == st.slabs[st.freeSlab.value].maxObjs
  }

  /** An allocation can be served from the cursor slab without growing. */
  ghost predicate CanTake(st: CacheState)
  {
    Inv(st) && !NeedsGrow(st)
  }

  /** The address an allocation from the cursor slab returns: its freelist head. */
  function TakeAddr(st: CacheState): int
    requires CanTake(st)
  {
    st.slabs[st.freeSlab.value].freelist[0]
  }

  function TakeState(st: CacheState): CacheState
    requires CanTake(st)
  {
    var k := st.freeSlab.value;
    var s := st.slabs[k];
    st.(slabs := st.slabs[k := s.(allocatedCount := s.allocatedCount + 1, freelist := s.freelist[1..])])
  }

  /** The state alloc takes from: the old state, or the state after one growth. */
  function Prepared(st: CacheState, page: int, rec: int): CacheState
    requires st.freeSlab.Some? ==> st.freeSlab.value < |st.slabs|
    requires NeedsGrow(st) ==> st.objSize > 0
  {
    if NeedsGrow(st) then GrowState(st, page, rec) else st
  }

  // ---------------------------------------------------------------------
  // kmem_cache_reap

  predicate HasEmpty(slabs: seq<Slab>)
  {
    exists i :: 0 <= i < |slabs| && slabs[i].allocatedCount == 0
  }

  /** The position of the first slab in list order that holds no object. */
  function FirstEmpty(slabs: seq<Slab>): (k: nat)
    requires HasEmpty(slabs)
    ensures k < |slabs| && slabs[k].allocatedCount == 0
    ensures forall j :: 0 <= j < k ==> slabs[j].allocatedCount != 0
  {
    if slabs[0].allocatedCount == 0 then 0
    else
      assert HasEmpty(slabs[1..]) by {
        var i :| 0 <= i < |slabs| && slabs[i].allocatedCount == 0;
        assert slabs[1..][i - 1].allocatedCount == 0;
      }
      1 + FirstEmpty(slabs[1..])
  }

  function RemoveAt(slabs: seq<Slab>, k: nat): seq<Slab>
    requires k < |slabs|
  {
    slabs[..k] + slabs[k + 1..]
  }

  /**
   * Where the cursor points once the node at position `k` of a list of `n`
   * nodes is unlinked: nowhere if it was the only node; the predecessor if
   * the cursor was on the removed node (nowhere for the head, whose
   * predecessor link is null); otherwise the same node as before.
   */
  function CursorAfterRemoval(cursor: Option<nat>, k: nat, n: nat): Option<nat>
  {
    if n == 1 then None
    else match cursor
      case None => None
      case Some(j) =>
        if j == k then (if k == 0 then None else Some(k - 1))
        else if j > k then Some(j - 1)
        else Some(j)
  }

  function ReapState(st: CacheState): CacheState
    requires Inv(st) && HasEmpty(st.slabs)
  {
    var k := FirstEmpty(st.slabs);
    var s := st.slabs[k];
    assert SlabOk(st, s);
    st.(slabs := RemoveAt(st.slabs, k),
        freeSlab := CursorAfterRemoval(st.freeSlab, k, |st.slabs|),
        index := if st.large then st.index - {s.freelist[0]} else st.index)
  }

  // ---------------------------------------------------------------------
  // kmem_cache_free

  /** `buf` lies in the window the free loop accepts for slab `s`. */
  predicate Owns(s: Slab, buf: int)
  {
    0 <= s.id - buf <= PAGE_SIZE
  }

  /** The position the small-mode free loop stops at (`|slabs|` if none). */
  function FirstOwner(slabs: seq<Slab>, buf: int): (k: nat)
    ensures k <= |slabs|
    ensures k < |slabs| ==> Owns(slabs[k], buf)
    ensures forall j :: 0 <= j < k ==> !Owns(slabs[j], buf)
  {
    if slabs == [] then 0
    else if Owns(slabs[0], buf) then 0
    else 1 + FirstOwner(slabs[1..], buf)
  }

  /** The position of the slab whose record is `id` (`|slabs|` if none). */
  function PositionOf(slabs: seq<Slab>, id: int): (k: nat)
    ensures k <= |slabs|
    ensures k < |slabs| ==> slabs[k].id == id
    ensures forall j :: 0 <= j < k ==> slabs[j].id != id
  {
    if slabs == [] then 0
    else if slabs[0].id == id then 0
    else 1 + PositionOf(slabs[1..], id)
  }

  /** The slab free resolves `buf` to: via the bufctl index, or the list scan. */
  function Owner(st: CacheState, buf: int): nat
  {
    if st.large then
      if buf in st.index then PositionOf(st.slabs, st.index[buf].slab) else |st.slabs|
    else FirstOwner(st.slabs, buf)
  }

  /** Give `buf` back to slab `k`: one object fewer, `buf` at the freelist tail. */
  function FreeAt(st: CacheState, k: nat, buf: int): CacheState
    requires k < |st.slabs| && st.slabs[k].allocatedCount > 0
  {
    var s := st.slabs[k];
    st.(slabs := st.slabs[k := s.(allocatedCount := s.allocatedCount - 1, freelist := s.freelist + [buf])])
  }
}

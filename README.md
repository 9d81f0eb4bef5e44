# Slab allocator

A model of a small slab allocator. A *cache* hands out objects of one fixed
size. It keeps them in *slabs*, which are blocks of page-aligned memory, on a
doubly linked list. A cursor (`freeSlab`) points at the slab that serves the
next allocation. The cache chooses one of two modes when it is created:

- **Small mode**: objects of at most an eighth of a page (512 bytes). A slab is
  one 4096-byte page. The slab's 16-byte record (`struct kmem_slab`: allocated
  count, capacity, freelist) sits at the tail of that page. The page is carved
  into `(4096 - 16) / objSize` slots, and the freelist is seeded with them in
  ascending order.
- **Large mode**: objects of more than 512 bytes. A slab holds one object, in a
  buffer whose size is the least page multiple that holds the object. Its
  record comes from a bootstrap cache of slab records. A buffer-control record
  (`struct kmem_bufctl`) is kept in a hash keyed by the buffer address and
  maps the buffer back to its slab.

The operations:

- **alloc** grows the cache when the cursor is null or its slab is full, then
  pops the head of the cursor slab's freelist.
- **free** finds the object's slab. In large mode it uses the hash; in small
  mode it walks the list for the slab whose header lies at most a page above
  the object. Free then counts the object back, appends it to the slab's
  freelist, and reaps once the slab is empty.
- **reap** unlinks the first slab that holds no object. It moves the cursor
  off that slab and, in large mode, drops the slab's bufctl.
- **destroy** releases a cache that has no slabs.

## How the model is built

- Module `SlabState` describes a cache as a value (`CacheState`). Each
  operation is a function from the old state to the new one. The invariant
  `Inv` covers these facts:
  - every slab's count, capacity and freelist agree with the slots its block
    was carved into;
  - blocks do not overlap, and slab records are distinct;
  - the cursor names a slab;
  - in large mode the hash holds exactly one bufctl per slab.
- An object is *outstanding* when it is a slot of some slab but not on that
  slab's freelist. `Total` is the sum of the allocated counts.
- The modules `Grow`, `Alloc`, `Reap` and `Free` prove what each operation
  guarantees:
  - it keeps `Inv`;
  - alloc returns an object that was not outstanding and changes nothing else;
  - free hands back exactly the freed object;
  - reap hands back nothing;
  - a cache used only through alloc and free never keeps an empty slab.
- Module `SlabCache` is the allocator as the program runs it. Class `Cache` has
  the fields of `struct kmem_cache`, and its methods update them in place.
  Each method ensures that the new fields are the corresponding `SlabState`
  function of the old ones. The list walks of the source are `while` loops
  proved against the functions they compute.
- The slab list is a `seq<Slab>` in list order. The cursor is the position of
  the node it points at.
- Memory comes from outside the model:
  - `page` is the block a growth obtains from the page allocator;
  - `rec` is the slab record a large-mode growth obtains from the bootstrap
    cache.

  The precondition `GrowOk` states what those sources must deliver: a
  page-aligned block that overlaps no block of the cache and, in large mode,
  a record the cache does not already use.
- Module `AsWritten` keeps three places where the code does something other
  than what it evidently means (see Findings). At those three places the
  documented design of the allocator agrees with the corrected behaviour, not
  with the code. The rest of the model follows the corrected behaviour.

All line references are to `slab_allocator/slab.h`.

## Model

| member | source | states |
|---|---|---|
| SlabCache.Cache.constructor | slab_allocator/slab.h:72-84 | A new cache has no slab, a null cursor, an empty bufctl hash, offset -1 and the list handle it was given. The size must be positive. It is large exactly when the size exceeds PAGE_SIZE/8. Nothing is outstanding and the total is 0. |
| SlabCache.Cache.Grow | slab_allocator/slab.h:148-187 | The fields become GrowState of the old state: one new empty slab is appended and the cursor points at it. The offset is the new record's address modulo the page size, with C's sign rule. The requested block size is a page (small mode) or the large buffer size. Valid is kept. |
| SlabCache.Cache.Alloc | slab_allocator/slab.h:92-104 | The fields become AllocState and the result is AllocAddr: it grows once if the cursor is null or its slab is full, then takes. The recursive retry terminates after one growth. Valid is kept. |
| SlabCache.Cache.Take | slab_allocator/slab.h:100-103 | The cursor slab counts one more object, and the result is its freelist head, which is removed. |
| SlabCache.Cache.FindSlab | slab_allocator/slab.h:115-126 | Finds the slab an outstanding object belongs to: through its bufctl in large mode, or by walking the list in small mode. The slab found holds the object. |
| SlabCache.Cache.Return | slab_allocator/slab.h:127-128 | The slab found counts one object fewer (it counted at least one), and the object goes to the tail of its freelist. |
| SlabCache.Cache.Free | slab_allocator/slab.h:113-130 | The fields become FreeState: return the object to its slab, and reap if that slab is now empty. Valid is kept. |
| SlabCache.Cache.Reap | slab_allocator/slab.h:197-233 | The fields become ReapState: the first empty slab is unlinked, the cursor is moved and, in large mode, its bufctl is dropped. Valid is kept. |
| SlabCache.Cache.Destroy | slab_allocator/slab.h:135-139 | The cache record is released exactly when the cache has no slabs. Nothing else changes. |
| SlabCache.SeedSmallSlab | slab_allocator/slab.h:172-177 | The seeding loop yields exactly the maxObjs slots that fit in front of the header, in ascending order from the page start. |
| SlabCache.LargeBufferSize | slab_allocator/slab.h:159-160 | The size loop yields the least page multiple that is at least the object size, and never less than one page. |
| SlabCache.FindNode | slab_allocator/slab.h:182-184 | The walk stops at the first node holding the new slab's record. |
| SlabCache.ScanOwner | slab_allocator/slab.h:122-125 | The small-mode free walk stops at the first slab whose window accepts the object. |
| SlabCache.ScanEmpty | slab_allocator/slab.h:205-212 | The reap walk stops at the first slab with no allocated object. |
| SlabCache.Unlink | slab_allocator/slab.h:197-231 | Reap's list surgery (walk, cursor update, bufctl deletion, removal) yields exactly ReapState. |
| SlabCache.CarveBlock | slab_allocator/slab.h:149-181 | The slab made on a block is NewSlab: one buffer slot and a new bufctl in large mode, or the seeded page with the header record in small mode. The block is requested with RegionSize bytes. |
| SlabCache.Link | slab_allocator/slab.h:148-184 | Appending the new slab and pointing the cursor at its node yields exactly GrowState. |
| SlabCache.GrowOffset | slab_allocator/slab.h:185 | In small mode, on a page-aligned page, the offset is PAGE_SIZE - 16. In large mode it is the record's address modulo the page size, with C's sign rule. |
| SlabState.FirstEmpty | slab_allocator/slab.h:205-212 | The position reap finds holds no object, and every earlier slab holds at least one. |
| SlabState.FirstOwner | slab_allocator/slab.h:122-125 | The position the free walk finds is the first slab whose window accepts the object, or the end of the list if none does. |
| SlabState.PositionOf | slab_allocator/slab.h:116-121 | The position of the node holding a given slab record is the first one with that record, or the end of the list if none has it. |
| Layout.SmallCapacityAtLeastSeven | slab_allocator/slab.h:172 | A small slab has room for at least seven objects. |
| Layout.SmallSlotFits | slab_allocator/slab.h:172-177 | Every seeded slot lies wholly in front of the slab header. |
| Layout.SmallSlotsApart | slab_allocator/slab.h:175-176 | Seeded slots are in ascending order and at least one object apart. |
| Layout.SmallSlotsDistinct | slab_allocator/slab.h:175-176 | No address is seeded twice. |
| Layout.BufferSizeIsLeastPageMultiple | slab_allocator/slab.h:159-160 | The large buffer is a page multiple, at least the object size and at least a page, and one page less would be too small. |
| StateFacts.SlotInRegion | slab_allocator/slab.h:162-177 | Every slot lies in its slab's block. A small slot also ends before the header. |
| StateFacts.SlotsShape | slab_allocator/slab.h:172-177 | A slab has maxObjs distinct slots. |
| StateFacts.SlotsApart | slab_allocator/slab.h:162-173 | No address is a slot of two slabs. |
| StateFacts.EmptySlabHoldsNothing | slab_allocator/slab.h:129 | A slab that counts no object holds no outstanding object. |
| StateFacts.HolderNotEmpty | slab_allocator/slab.h:127 | A slab holding an outstanding object counts at least one, so free's decrement stays non-negative. |
| StateFacts.HolderUnique | slab_allocator/slab.h:113-130 | At most one slab holds a given outstanding object. |
| StateFacts.OutstandingDisjoint | slab_allocator/slab.h:92-104 | Two distinct outstanding objects do not overlap. |
| StateFacts.FreelistsDisjoint | slab_allocator/slab.h:100-102 | A free object lies in its own slab's block and is on no other slab's freelist. |
| StateFacts.WindowSelectsHolder | slab_allocator/slab.h:124 | In small mode, a page-wide window below a slab's header accepts an object exactly when the object is one of that slab's slots. |
| StateFacts.OwnerIsHolder | slab_allocator/slab.h:116-126 | Free resolves a slot of slab i to slab i in both modes. |
| StateFacts.IndexResolvesOutstanding | slab_allocator/slab.h:116-121 | In large mode, an outstanding object has a bufctl keyed by itself, and that bufctl names the slab whose buffer it is. |
| StateFacts.PositionOfRecord | slab_allocator/slab.h:182-184 | Because slab records are distinct, the node found for slab k's record is node k. |
| Grow.SmallGrowCarvesPage | slab_allocator/slab.h:171-181 | A small growth gives a slab of (PAGE_SIZE - 16) / objSize slots, with its record at page + PAGE_SIZE - 16. The freelist is page + k * objSize for each k, and each slot ends before the record. |
| Grow.LargeGrowIndexesBuffer | slab_allocator/slab.h:153-170 | A large growth gives a one-object slab whose freelist is the new buffer. That buffer had no bufctl before and gets one naming the new record. The buffer is the least page multiple that holds the object. |
| Grow.NewSlabOk | slab_allocator/slab.h:151-181 | The new slab is well formed: all its slots are free and none repeats. |
| Grow.NewSlabApart | slab_allocator/slab.h:162-173 | The new block is apart from every old block, and its record is distinct from every old record. |
| Grow.GrowKeepsIndex | slab_allocator/slab.h:163-166 | The hash stays one bufctl per slab: the new buffer's bufctl is added and every old one is kept. |
| Grow.GrowKeepsInv | slab_allocator/slab.h:148-187 | Growing keeps the cache invariant. |
| Grow.GrowKeepsTotal | slab_allocator/slab.h:151 | The new slab counts no object, so the allocated total is unchanged. |
| Grow.GrowAppendsEmptySlab | slab_allocator/slab.h:148-184 | Growing appends one slab at the tail, with base page, count 0 and room for at least one object, and the cursor points at it. The old slabs, the total and the outstanding set are unchanged. |
| Alloc.RetryDoesNotGrow | slab_allocator/slab.h:96-98 | After one growth the cursor slab has room, so the recursive call takes without growing again. |
| Alloc.HeadIsFree | slab_allocator/slab.h:100-102 | The cursor slab's freelist head is one of its slots and is not outstanding. |
| Alloc.TakeKeepsInv | slab_allocator/slab.h:100-102 | Taking the head keeps the invariant. |
| Alloc.TakeHandsOutHead | slab_allocator/slab.h:100-103 | Taking makes exactly the head outstanding, which it was not before. The total rises by 1, the slab's count rises by 1 and stays within capacity, and the other slabs and the cursor are unchanged. |
| Alloc.AllocHandsOutFreshObject | slab_allocator/slab.h:92-104 | Alloc keeps Inv and returns an object that was not outstanding. Afterwards exactly the old outstanding objects plus that one are outstanding, and the total rises by 1. The list grows by one slab exactly when alloc had to grow, and then the cursor is at the new slab, which counts 1. Otherwise the other slabs and the cursor are unchanged. |
| Reap.EmptyLargeSlabFreelist | slab_allocator/slab.h:218-221 | An empty large slab's freelist is exactly its buffer, which is the key reap looks up in the hash. |
| Reap.BasesAfterRemoval | slab_allocator/slab.h:218-222 | Removing a slab removes its buffer, and only that buffer, from the set of buffers. |
| Reap.ReapKeepsInv | slab_allocator/slab.h:197-233 | Reap keeps the invariant, including the cursor range and the hash. |
| Reap.HeldAfterRemoval | slab_allocator/slab.h:231 | A slab that remains holds what it held, at its shifted position. |
| Reap.RemovalKeepsHeld | slab_allocator/slab.h:231 | Unlinking a slab that does not hold x leaves x outstanding exactly when it was before. |
| Reap.RemovalKeepsOutstanding | slab_allocator/slab.h:225-231 | Unlinking an empty slab changes no object's outstanding status. |
| Reap.ReapKeepsOutstanding | slab_allocator/slab.h:197-233 | After reap, x is outstanding exactly when it was before. |
| Reap.ReapRemovesFirstEmpty | slab_allocator/slab.h:205-231 | Reap unlinks the first slab with count 0; all earlier slabs count more than 0. The others stay in order, and the total and the outstanding set are unchanged. |
| Reap.ReapMovesCursor | slab_allocator/slab.h:212-216 | With one slab the cursor becomes null. If the cursor was on the removed slab, it moves to the predecessor, or becomes null at the head. Otherwise it stays on the same slab. |
| Reap.LargeReapDropsBufctl | slab_allocator/slab.h:218-223 | In large mode exactly the removed buffer's bufctl leaves the hash, and every other bufctl is unchanged. |
| Free.OwnerHoldsObject | slab_allocator/slab.h:115-127 | Free resolves an outstanding object to the slab that holds it, which counts at least one object. |
| Free.FreeAtKeepsInv | slab_allocator/slab.h:127-128 | Returning a held object to its slab keeps the invariant. |
| Free.HeldAfterFree | slab_allocator/slab.h:127-128 | After the return, every slab holds what it held, except that the object is no longer held by its slab. |
| Free.FreeAtReturnsObject | slab_allocator/slab.h:127-128 | After the return, exactly the old outstanding objects other than the freed one are outstanding. |
| Free.FreeReturnsObject | slab_allocator/slab.h:113-130 | Free keeps Inv. Exactly the old outstanding objects other than the freed one stay outstanding, and the total drops by 1. |
| Free.FreeAppendsToOwner | slab_allocator/slab.h:113-130 | Free returns the object to the slab holding it. The list shrinks by one exactly when that slab counted 1. Otherwise only that slab changes: its count drops by 1, the object is appended to its freelist, and the cursor stays. |
| Free.CreateHasNoEmpty | slab_allocator/slab.h:72-84 | A new cache satisfies Inv, has no empty slab, nothing outstanding, and total 0. |
| Free.AllocKeepsNoEmpty | slab_allocator/slab.h:92-104 | Alloc never leaves an empty slab behind. |
| Free.ReapOnlyEmpty | slab_allocator/slab.h:129 | When only slab k is empty, reap removes slab k and leaves no empty slab. |
| Free.FreeReapsDrainedSlab | slab_allocator/slab.h:127-129 | In a cache with no empty slab, free leaves none. When it drains the owning slab, it removes exactly that slab. |
| AsWritten.SeedSmallSlabAsWritten | slab_allocator/slab.h:175-177 | The seeding loop as written yields one slot for every start below the header: ceil((PAGE_SIZE - 16) / objSize) slots. |
| AsWritten.CeilCount | slab_allocator/slab.h:175 | The number of starts below the header is the rounded-up quotient. |
| AsWritten.SeedAsWrittenOverruns | slab_allocator/slab.h:172-177 | When objSize does not divide PAGE_SIZE - 16, the loop as written seeds maxObjs + 1 slots, and the last one straddles the header. |
| AsWritten.SeedCountsAgreeWhenDividing | slab_allocator/slab.h:172-175 | When objSize divides PAGE_SIZE - 16, the loop as written seeds exactly maxObjs slots. |
| AsWritten.TakeRun | slab_allocator/slab.h:100-102 | n successive allocs from a slab below capacity hand out the first n entries of its freelist, in order. |
| AsWritten.RefillReachesExtraSlot | slab_allocator/slab.h:100-128 | On a slab seeded as written: alloc twice, then free the first object. The next maxObjs - 1 allocs, all made while the slab is below capacity, end with the extra slot. |
| AsWritten.SeedOverrunExample | slab_allocator/slab.h:172-180 | Example with 200-byte objects on page 0: 21 slots are seeded for a slab of 20. After that sequence the 19th alloc returns 4000, which covers the header at 4080 and runs past the page end. |
| AsWritten.FirstOwnerAsWritten | slab_allocator/slab.h:122-125 | The free walk as written stops at the first slab within 4196 bytes above the object. |
| AsWritten.ScanAsWrittenStopsByHolder | slab_allocator/slab.h:124 | The wide window still accepts every slot of a slab, so the walk never passes the slab the object came from. |
| AsWritten.WideWindowExample | slab_allocator/slab.h:122-128 | Example: a 16-byte cache with full slabs on pages 8192 and 4096. Object 8096 is held by the second slab, where the intended free returns it. The walk as written stops at the first slab, of which 8096 is not a slot. |
| SlabCache.Cache.DestroyAsWritten | slab_allocator/slab.h:135-139 | Destroy as written releases the record exactly when the list handle is null. The handle is fixed at creation (slab.h:77 is its only assignment), so a cache created with a non-null handle is never released. Nothing else changes. |
| AsWritten.DestroyAsWrittenKeepsEmptyCache | slab_allocator/slab.h:135-139 | Example: a cache created with a non-null handle and destroyed at once has no slab, yet destroy as written keeps it; the intended destroy releases the same cache. |

## Left out

- Output: the `printf` of grow (line 186) and reap (line 232), and `print_cache_info` / `print_slab_info` (lines 235-257), are not modelled because they only print.
- Object contents: `memcpy` of the slab record (lines 157 and 178) is not modelled. The record is the `Slab` value, so nothing is copied, and no object's bytes are modelled.
- The page allocator and the C library: `memalign` is a parameter, `page`, whose freshness is the precondition `GrowOk`. Its failure is not modelled, because the source never checks for NULL. Blocks are never returned; the source does not return them either, since reap releases neither the page nor the buffer.
- The bootstrap caches: `kmem_init` (lines 61-64) and the nested allocs and frees on `slab_structs` and `ctl_structs` (lines 155-156, 163, 223-224) are not modelled. The slab record they supply is a parameter, `rec`, and its distinctness is part of `GrowOk`.
- Address narrowing: `HASH_FIND_INT` and the `(int)` casts truncate addresses to `int`. Addresses are unbounded integers here, so a truncation collision cannot happen in the model.
- list.h and uthash.h are not part of this model, and neither is main.c. The slab list is a sequence in list order; the hash is a map keyed by buffer address.
- Reap.ReapMovesCursor and SlabCache.Unlink: the list shape is a modelling choice, and the two assumptions the model makes about reap's list steps contradict each other, because no single list shape gives both. The model assumes:
  - the walk one step past the found node and back through `prev` (lines 209 and 212) lands on the found node. That holds on a circular list. On a null-terminated list, reaping the tail slab dereferences NULL at line 212, and the tail is also the only slab right after one alloc and one free;
  - the predecessor of the head is null, so a cursor on a reaped head slab becomes null (the `None` of the head case). That holds on a null-terminated list. On a circular list, line 216 moves the cursor to the tail instead. The tail test of `print_cache_info` (line 245) suggests the list is circular.
- Aliasing: a slab is a value inside the list, not an object shared between the list node, the cursor and a bufctl. The cursor is the position of its node, so a removal renumbers it.
- Concurrency: the source has none.
- SlabCache.GrowOffset: states the small-mode offset only for pages at non-negative addresses. For a negative (wrapped) address, C's remainder differs; the function itself computes it with C's sign rule.
- SlabCache.Cache.Free: requires the object to be outstanding, which is the client contract of free. Outside it the source does not fail cleanly:
  - an address in the window of a live small slab is counted back and appended as a second freelist entry, with no error. For example, if a slab holds a and b and `free(a)` runs twice, the count reaches 0 and line 129 reaps the slab while b is still handed out;
  - an address no slab's window accepts runs the walk off the end of a null-terminated list (a NULL dereference), or loops forever on a circular one;
  - in large mode, an address with no bufctl makes line 121 dereference NULL.
- SlabCache.Cache.Reap: requires an empty slab. Without one the source's walk runs off the end of the list. Free calls reap only after draining a slab.

## Findings

| source | as written | input that shows it | evidently intended | confidence | as-written member | corrected member |
|---|---|---|---|---|---|---|
| slab_allocator/slab.h:175 | The seeding loop runs while the slot start is below the header, so it seeds ceil(4080 / objSize) slots, while maxObjs is the floor. | objSize 200 on page 0: 21 slots for maxObjs 20. Alloc twice and free the first object; the 19th alloc after that returns 4000, whose 200 bytes cover the header at 4080 and run past the page end at 4096. | Seed only slots that end in front of the header: `i + objSize <= PAGE_SIZE - 16`, which gives exactly maxObjs slots. | not executed | AsWritten.SeedSmallSlabAsWritten, AsWritten.SeedOverrunExample | SlabCache.SeedSmallSlab |
| slab_allocator/slab.h:124 | The small-mode free walk accepts a slab whose header lies up to 4196 bytes above the object, a window 100 bytes wider than a page, so it can stop at a slab the object does not belong to. | A 16-byte cache whose list holds full slabs on page 8192 and then page 4096. Object 8096 is slot 250 of the second slab. The header of the first slab is at 12272, 4176 bytes above the object, so the walk stops there, and 8096 would be appended to a slab it is not a slot of. | A window of one page (4096), which accepts exactly the slab holding the object. | not executed | AsWritten.FirstOwnerAsWritten, AsWritten.WideWindowExample | StateFacts.OwnerIsHolder |
| slab_allocator/slab.h:136 | Destroy tests the slab-list handle for null. That handle is set at creation and never reset, so destroy never frees the cache. | Any cache: create one, then destroy it right away. The list handle is non-null and nothing is released. | Release the cache when its slab list is empty. | not executed | SlabCache.Cache.DestroyAsWritten, AsWritten.DestroyAsWrittenKeepsEmptyCache | SlabCache.Cache.Destroy |

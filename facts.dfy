/**
 * Consequences of the cache invariant that several operations rely on:
 * where a slot lies, that slabs never share an address, that a slab with no
 * allocated object holds nothing, how free finds the slab of an address,
 * and how the allocated counts add up.
 */
module StateFacts {
  import opened Wrappers
  import opened Layout
  import opened SlabState

  /** A slot lies in its slab's block, wholly in front of a small slab's header. */
  lemma SlotInRegion(st: CacheState, s: Slab, x: int)
    requires st.large == IsLarge(st.objSize) && x in Slots(st, s)
    ensures s.base <= x && x + st.objSize <= RegionEnd(st, s)
    ensures !st.large ==> x + st.objSize <= HeaderAddr(s.base)
  {
    if st.large {
      BufferSizeIsLeastPageMultiple(st.objSize);
    } else {
      var k :| 0 <= k < |SmallSlots(s.base, st.objSize)| && SmallSlots(s.base, st.objSize)[k] == x;
      SmallSlotFits(s.base, st.objSize, k);
    }
  }

  /** The slot list of a well-formed slab holds `maxObjs` distinct addresses. */
  lemma SlotsShape(st: CacheState, s: Slab)
    requires st.large == IsLarge(st.objSize) && SlabOk(st, s)
    ensures |Slots(st, s)| == s.maxObjs && Distinct(Slots(st, s))
  {
    if !st.large {
      SmallSlotsDistinct(s.base, st.objSize);
    }
  }

  /** No address is a slot of two different slabs (their blocks are disjoint). */
  lemma SlotsApart(st: CacheState, i: int, j: int, x: int)
    requires Inv(st) && 0 <= i < |st.slabs| && 0 <= j < |st.slabs| && i != j
    requires x in Slots(st, st.slabs[i])
    ensures x !in Slots(st, st.slabs[j])
  {
    SlotInRegion(st, st.slabs[i], x);
    if x in Slots(st, st.slabs[j]) {
      SlotInRegion(st, st.slabs[j], x);
      assert false;
    }
  }

  /** A slab whose allocated count is zero hands out no object: all its slots are free. */
  lemma EmptySlabHoldsNothing(st: CacheState, k: int, x: int)
    requires Inv(st) && 0 <= k < |st.slabs| && st.slabs[k].allocatedCount == 0
    ensures !HeldBy(st, k, x)
  {
    var s := st.slabs[k];
    assert SlabOk(st, s);
    SlotsShape(st, s);
    if x in Slots(st, s) {
      FullListHoldsAll(s.freelist, Slots(st, s), x);
    }
  }

  /** A slab that holds an object has a positive allocated count. */
  lemma HolderNotEmpty(st: CacheState, k: int, x: int)
    requires Inv(st) && HeldBy(st, k, x)
    ensures st.slabs[k].allocatedCount >= 1
  {
    var s := st.slabs[k];
    assert SlabOk(st, s);
    SlotsShape(st, s);
    MissingSlotShortens(s.freelist, Slots(st, s), x);
  }

  /** An object is held by one slab only. */
  lemma HolderUnique(st: CacheState, i: int, j: int, x: int)
    requires Inv(st) && HeldBy(st, i, x) && HeldBy(st, j, x)
    ensures i == j
  {
    if i != j {
      SlotsApart(st, i, j, x);
    }
  }

  /**
   * Objects handed out at the same time never overlap: the bytes of two
   * distinct outstanding objects are disjoint.
   */
  lemma OutstandingDisjoint(st: CacheState, x: int, y: int)
    requires Inv(st) && Outstanding(st, x) && Outstanding(st, y) && x != y
    ensures x + st.objSize <= y || y + st.objSize <= x
  {
    var i :| HeldBy(st, i, x);
    var j :| HeldBy(st, j, y);
    var si, sj := st.slabs[i], st.slabs[j];
    SlotInRegion(st, si, x);
    SlotInRegion(st, sj, y);
    if i == j {
      if !st.large {
        var a :| 0 <= a < |Slots(st, si)| && Slots(st, si)[a] == x;
        var b :| 0 <= b < |Slots(st, si)| && Slots(st, si)[b] == y;
        if a < b {
          SmallSlotsApart(si.base, st.objSize, a, b);
        } else {
          SmallSlotsApart(si.base, st.objSize, b, a);
        }
      }
    } else if i < j {
      assert Apart(st, si, sj);
    } else {
      assert Apart(st, sj, si);
    }
  }

  /** A free address lies in its own slab's block and in no other slab's freelist. */
  lemma FreelistsDisjoint(st: CacheState, i: int, j: int, x: int)
    requires Inv(st) && 0 <= i < |st.slabs| && x in st.slabs[i].freelist
    requires 0 <= j < |st.slabs| && j != i
    ensures st.slabs[i].base <= x < RegionEnd(st, st.slabs[i])
    ensures x !in st.slabs[j].freelist
  {
    assert SlabOk(st, st.slabs[i]);
    assert SlabOk(st, st.slabs[j]);
    SlotInRegion(st, st.slabs[i], x);
    SlotsApart(st, i, j, x);
  }

  /**
   * Replacing one slab by a well-formed slab on the same block with the same
   * record keeps the invariant.
   */
  lemma UpdateKeepsInv(st: CacheState, k: int, t: Slab)
    requires Inv(st) && 0 <= k < |st.slabs|
    requires SlabOk(st, t) && t.base == st.slabs[k].base && t.id == st.slabs[k].id
    ensures Inv(st.(slabs := st.slabs[k := t]))
  {
    var st' := st.(slabs := st.slabs[k := t]);
    forall i, j | 0 <= i < j < |st'.slabs|
      ensures Apart(st', st'.slabs[i], st'.slabs[j])
    {
      assert Apart(st, st.slabs[i], st.slabs[j]);
    }
    if st.large {
      assert Bases(st'.slabs) == Bases(st.slabs) by {
        forall x | x in Bases(st'.slabs) ensures x in Bases(st.slabs) {
          var i :| 0 <= i < |st'.slabs| && st'.slabs[i].base == x;
          assert st.slabs[i].base == x;
        }
        forall x | x in Bases(st.slabs) ensures x in Bases(st'.slabs) {
          var i :| 0 <= i < |st.slabs| && st.slabs[i].base == x;
          assert st'.slabs[i].base == x;
        }
      }
    }
  }

  // ---------------------------------------------------------------------
  // Resolving an address to its slab on free

  /** In small mode only the slab an address was carved from accepts it in its window. */
  lemma WindowSelectsHolder(st: CacheState, i: int, j: int, buf: int)
    requires Inv(st) && !st.large
    requires 0 <= i < |st.slabs| && buf in Slots(st, st.slabs[i])
    requires 0 <= j < |st.slabs|
    ensures Owns(st.slabs[j], buf) <==> i == j
  {
    assert SlabOk(st, st.slabs[i]);
    SlotInRegion(st, st.slabs[i], buf);
    if i < j {
      assert Apart(st, st.slabs[i], st.slabs[j]);
      assert SlabOk(st, st.slabs[j]);
    } else if j < i {
      assert Apart(st, st.slabs[j], st.slabs[i]);
      assert SlabOk(st, st.slabs[j]);
    }
  }

  /** Free resolves every slot of slab `i` to slab `i`, in either mode. */
  lemma OwnerIsHolder(st: CacheState, i: int, buf: int)
    requires Inv(st) && 0 <= i < |st.slabs| && buf in Slots(st, st.slabs[i])
    ensures Owner(st, buf) == i
  {
    var k := Owner(st, buf);
    if st.large {
      assert buf == st.slabs[i].base;
      var id := st.slabs[i].id;
      assert st.index[buf] == Bufctl(id, buf);
    } else {
      WindowSelectsHolder(st, i, i, buf);
      if k < |st.slabs| {
        WindowSelectsHolder(st, i, k, buf);
      }
    }
  }

  /** In large mode every outstanding object is found in the index, pointing at its slab. */
  lemma IndexResolvesOutstanding(st: CacheState, x: int)
    requires Inv(st) && st.large && Outstanding(st, x)
    ensures x in st.index && st.index[x].buffer == x
    ensures Owner(st, x) < |st.slabs| && st.slabs[Owner(st, x)].base == x
    ensures st.slabs[Owner(st, x)].id == st.index[x].slab
  {
    var i :| HeldBy(st, i, x);
    OwnerIsHolder(st, i, x);
  }

  /** Slab records are distinct, so the search for a slab's record stops at that slab. */
  lemma PositionOfRecord(st: CacheState, k: int)
    requires Inv(st) && 0 <= k < |st.slabs|
    ensures PositionOf(st.slabs, st.slabs[k].id) == k
  {
  }

  // ---------------------------------------------------------------------
  // Summing allocated counts

  lemma {:induction false} TotalConcat(a: seq<Slab>, b: seq<Slab>)
    ensures Total(a + b) == Total(a) + Total(b)
    decreases |b|
  {
    if b != [] {
      var b' := b[..|b| - 1];
      assert (a + b)[..|a + b| - 1] == a + b';
      TotalConcat(a, b');
    } else {
      assert a + b == a;
    }
  }

  lemma SplitAt(slabs: seq<Slab>, k: int)
    requires 0 <= k < |slabs|
    ensures slabs == slabs[..k] + [slabs[k]] + slabs[k + 1..]
  {
  }

  lemma TotalSingle(s: Slab)
    ensures Total([s]) == s.allocatedCount
  {
    assert [s][..0] == [];
  }

  /** Replacing one slab changes the total by the change in that slab's count. */
  lemma TotalUpdate(slabs: seq<Slab>, k: int, t: Slab)
    requires 0 <= k < |slabs|
    ensures Total(slabs[k := t]) == Total(slabs) - slabs[k].allocatedCount + t.allocatedCount
  {
    var a, b := slabs[..k], slabs[k + 1..];
    SplitAt(slabs, k);
    SplitAt(slabs[k := t], k);
    assert slabs[k := t][..k] == a && slabs[k := t][k + 1..] == b;
    TotalConcat(a + [slabs[k]], b);
    TotalConcat(a + [t], b);
    TotalConcat(a, [slabs[k]]);
    TotalConcat(a, [t]);
    TotalSingle(slabs[k]);
    TotalSingle(t);
  }

  /** Removing one slab lowers the total by that slab's count. */
  lemma TotalRemove(slabs: seq<Slab>, k: int)
    requires 0 <= k < |slabs|
    ensures Total(RemoveAt(slabs, k)) == Total(slabs) - slabs[k].allocatedCount
  {
    var a, b := slabs[..k], slabs[k + 1..];
    SplitAt(slabs, k);
    TotalConcat(a + [slabs[k]], b);
    TotalConcat(a, [slabs[k]]);
    TotalConcat(a, b);
    TotalSingle(slabs[k]);
  }
}

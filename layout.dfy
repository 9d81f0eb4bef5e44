/**
 * Page geometry of the slab allocator: the page size, the size of the slab
 * header kept at the tail of a small-object page, the capacity of a small
 * slab, the addresses of its object slots, and the rounded-up size of the
 * buffer behind a large object.
 */
module Layout {

  /** `PAGE_SIZE`: every block is requested page-aligned in this unit. */
  const PAGE_SIZE: int := 4096

  /** `sizeof(struct kmem_slab)` on an LP64 platform: two `int`s and a list handle. */
  const HDR: int := 16

  /** Bytes of a small-object page in front of the slab header. */
  const USABLE: int := PAGE_SIZE - HDR

  /** Object sizes above an eighth of a page select large-object mode. */
  const LARGE_LIMIT: int := PAGE_SIZE / 8

  predicate IsLarge(objSize: nat)
  {
    objSize > LARGE_LIMIT
  }

  /** `maxObjs` of a small slab: how many objects fit in front of the header. */
  function Capacity(objSize: nat): nat
    requires objSize > 0
  {
    USABLE / objSize
  }

  /** Where the slab header of the small slab on `page` lives. */
  function HeaderAddr(page: int): int
  {
    page + USABLE
  }

  /** The slots of a small slab on `page`, in the order its freelist is seeded. */
  function SmallSlots(page: int, objSize: nat): seq<int>
    requires objSize > 0
  {
    seq(Capacity(objSize), k => page + k * objSize)
  }

  /**
   * The size of the block behind one large object: the least multiple of the
   * page size that holds the object, and never less than one page.
   */
  function BufferSize(objSize: nat): nat
  {
    if objSize <= PAGE_SIZE then PAGE_SIZE
    else ((objSize + PAGE_SIZE - 1) / PAGE_SIZE) * PAGE_SIZE
  }

  /** C's `%` on `int`: the remainder takes the sign of the dividend. */
  function CRem(a: int, b: int): int
    requires b > 0
  {
    if a >= 0 then a % b else -((-a) % b)
  }

  // ---------------------------------------------------------------------
  // Arithmetic facts about division and multiplication by a variable.

  lemma {:induction false} MulMonotone(a: int, b: int, c: nat)
    requires a <= b
    ensures a * c <= b * c
    decreases c
  {
    if c > 0 {
      MulMonotone(a, b, c - 1);
      assert a * c == a * (c - 1) + a;
      assert b * c == b * (c - 1) + b;
    }
  }

  /** `q` objects of size `b` fit in `a` bytes exactly when `q <= a / b`. */
  lemma FitsIffBelowQuotient(q: nat, a: nat, b: nat)
    requires b > 0
    ensures q * b <= a <==> q <= a / b
  {
    var d := a / b;
    assert a == d * b + a % b;
    if q <= d {
      MulMonotone(q, d, b);
    } else {
      MulMonotone(d + 1, q, b);
      assert (d + 1) * b == d * b + b;
    }
  }

  /** The capacity of a small slab is at least seven objects. */
  lemma SmallCapacityAtLeastSeven(objSize: nat)
    requires 0 < objSize && !IsLarge(objSize)
    ensures Capacity(objSize) >= 7
  {
    MulMonotone(objSize, LARGE_LIMIT, 7);
    FitsIffBelowQuotient(7, USABLE, objSize);
  }

  /** Every slot of a small slab lies wholly in front of the header. */
  lemma SmallSlotFits(page: int, objSize: nat, k: nat)
    requires objSize > 0 && k < Capacity(objSize)
    ensures page <= SmallSlots(page, objSize)[k]
    ensures SmallSlots(page, objSize)[k] + objSize <= HeaderAddr(page)
  {
    FitsIffBelowQuotient(k + 1, USABLE, objSize);
    assert (k + 1) * objSize == k * objSize + objSize;
  }

  /** Slots are seeded in ascending order, each one object after the last. */
  lemma SmallSlotsApart(page: int, objSize: nat, a: nat, b: nat)
    requires objSize > 0 && a < b < Capacity(objSize)
    ensures SmallSlots(page, objSize)[a] + objSize <= SmallSlots(page, objSize)[b]
  {
    MulMonotone(a + 1, b, objSize);
    assert (a + 1) * objSize == a * objSize + objSize;
  }

  /** No address is seeded twice into a small slab. */
  lemma SmallSlotsDistinct(page: int, objSize: nat)
    requires objSize > 0
    ensures Distinct(SmallSlots(page, objSize))
  {
    forall a, b | 0 <= a < b < |SmallSlots(page, objSize)|
      ensures SmallSlots(page, objSize)[a] != SmallSlots(page, objSize)[b]
    {
      SmallSlotsApart(page, objSize, a, b);
    }
  }

  /** The large-object buffer is the least page multiple that holds the object. */
  lemma BufferSizeIsLeastPageMultiple(objSize: nat)
    ensures BufferSize(objSize) % PAGE_SIZE == 0
    ensures BufferSize(objSize) >= objSize && BufferSize(objSize) >= PAGE_SIZE
    ensures BufferSize(objSize) == PAGE_SIZE || BufferSize(objSize) - PAGE_SIZE < objSize
  {
  }

  // ---------------------------------------------------------------------
  // Sequences without repetitions, and counting their elements.

  predicate Distinct(s: seq<int>)
  {
    forall a, b :: 0 <= a < b < |s| ==> s[a] != s[b]
  }

  function Elements(s: seq<int>): set<int>
  {
    set x | x in s
  }

  lemma {:induction false} DistinctElements(s: seq<int>)
    requires Distinct(s)
    ensures |Elements(s)| == |s|
  {
    if |s| > 0 {
      var t := s[..|s| - 1];
      assert Distinct(t);
      DistinctElements(t);
      assert Elements(s) == Elements(t) + {s[|s| - 1]};
      assert s[|s| - 1] !in Elements(t);
    }
  }

  lemma SubsetSize(a: set<int>, b: set<int>)
    requires a <= b
    ensures |a| <= |b|
  {
    assert b == a + (b - a);
  }

  /**
   * A repetition-free list drawn from the slots that leaves one slot out is
   * shorter than the slot list.
   */
  lemma MissingSlotShortens(fl: seq<int>, slots: seq<int>, x: int)
    requires Distinct(fl) && Distinct(slots)
    requires forall y :: y in fl ==> y in slots
    requires x in slots && x !in fl
    ensures |fl| < |slots|
  {
    DistinctElements(fl);
    DistinctElements(slots);
    SubsetSize(Elements(fl), Elements(slots) - {x});
  }

  /**
   * A repetition-free list drawn from the slots that is as long as the slot
   * list holds every slot.
   */
  lemma FullListHoldsAll(fl: seq<int>, slots: seq<int>, x: int)
    requires Distinct(fl) && Distinct(slots)
    requires forall y :: y in fl ==> y in slots
    requires |fl| == |slots| && x in slots
    ensures x in fl
  {
    if x !in fl {
      MissingSlotShortens(fl, slots, x);
    }
  }
}

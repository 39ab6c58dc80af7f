/**
 * The async-safe bump allocator: its layout, the allocation of one thread, and any number of threads whose separate
 * reads of `next_addr` and compare-and-swaps interleave.
 */
module Allocator {
  import opened Arithmetic
  import opened Common

  const ALIGNMENT := 16
  /** The size of the allocator structure on a 64-bit host, which lies at the start of the usable pages. */
  const HEADER_SIZE := 48

  /** `PL_ROUNDUP_ALIGN`, before it is cut to 64 bits. */
  function RoundUp(x: nat): (r: nat)
    ensures r % ALIGNMENT == 0 && x <= r < x + ALIGNMENT
  {
    (x + (ALIGNMENT - 1)) / ALIGNMENT * ALIGNMENT
  }

  /** `round_page` */
  function RoundPage(x: nat, page: nat): nat
    requires page > 0
  {
    (x + page - 1) / page * page
  }

  lemma PageRounded(x: nat, page: nat)
    requires page > 0 && page % ALIGNMENT == 0
    ensures x <= RoundPage(x, page) < x + page && RoundPage(x, page) % page == 0 && RoundPage(x, page) % ALIGNMENT == 0
  {
    var q, k := (x + page - 1) / page, page / ALIGNMENT;
    DivMod(x + page - 1, page);
    MultipleOf(q, page);
    assert page == k * ALIGNMENT;
    assert q * page == (q * k) * ALIGNMENT;
    MultipleOf(q * k, ALIGNMENT);
  }

  datatype Pool = Pool(basePage: nat, totalSize: nat, usablePage: nat, usableSize: nat, pageSize: nat) {
    function End(): nat {
      usablePage + usableSize
    }

    predicate Valid() {
      && pageSize > 0 && pageSize % ALIGNMENT == 0 && usablePage % ALIGNMENT == 0 && usableSize % ALIGNMENT == 0
      && HEADER_SIZE <= usableSize && End() < TWO_TO_64
    }
  }

  datatype Outcome = Allocated(address: nat) | Null | Trap

  /** The space check of `alloc`, in unsigned 64-bit arithmetic, passes. */
  predicate HasSpace(pool: Pool, next: nat, size: nat) {
    (pool.usableSize - (next - pool.usablePage)) % TWO_TO_64 >= size
  }

  lemma SpaceInside(pool: Pool, next: nat, size: nat)
    requires pool.Valid() && pool.usablePage <= next <= pool.End()
    ensures HasSpace(pool, next, size) <==> next + size <= pool.End()
  {
  }

  lemma RoundsInside(pool: Pool, x: nat)
    requires pool.Valid() && x <= pool.End()
    ensures RoundUp(x) <= pool.End()
  {
  }

  /** What the layout arithmetic of `allocator_new` gives, with the usable pages at `usable`. */
  lemma Layout(usable: nat, size: nat, page: nat)
    requires page > 0 && page % ALIGNMENT == 0 && usable % ALIGNMENT == 0
    ensures
      var usableSize := RoundPage(size + HEADER_SIZE, page);
      && usableSize % ALIGNMENT == 0 && size + HEADER_SIZE <= usableSize < size + HEADER_SIZE + page
      && RoundUp(usable + HEADER_SIZE) == usable + HEADER_SIZE
  {
    hide RoundPage;
    PageRounded(size + HEADER_SIZE, page);
  }

  lemma SumAligned(x: nat, y: nat)
    requires x % ALIGNMENT == 0 && y % ALIGNMENT == 0
    ensures (x + y) % ALIGNMENT == 0
  {
  }

  class AsyncAllocator {
    var pool: Pool
    var nextAddr: nat

    ghost predicate Valid()
      reads this
    {
      pool.Valid() && nextAddr % ALIGNMENT == 0 && pool.usablePage + HEADER_SIZE <= nextAddr <= pool.End()
    }

    ghost function Available(): nat
      requires Valid()
      reads this
    {
      pool.End() - nextAddr
    }

    /**
     * `allocator_new` in a mapping that starts at `base`. The guard pages are outside of the usable pages, and all of
     * the requested size is available.
     */
    constructor (base: nat, size: nat, guardLow: bool, guardHigh: bool, pageSize: nat)
      requires pageSize > 0 && pageSize % ALIGNMENT == 0 && base % ALIGNMENT == 0
      requires base + size + HEADER_SIZE + 3 * pageSize < TWO_TO_64
      ensures Valid() && Available() >= size
      ensures pool.basePage == base && pool.pageSize == pageSize
      ensures base <= pool.usablePage && pool.End() <= base + pool.totalSize
      ensures guardLow ==> pool.usablePage >= base + pageSize
      ensures guardHigh ==> pool.End() + pageSize <= base + pool.totalSize
    {
      hide RoundPage, RoundUp;
      var usableSize: nat := RoundPage(size + HEADER_SIZE, pageSize);
      var totalSize: nat := usableSize;
      if guardLow {
        totalSize := totalSize + pageSize;
      }
      if guardHigh {
        totalSize := totalSize + pageSize;
      }
      var next, usable: nat := base, base;
      if guardLow {
        next := next + pageSize;
        usable := usable + pageSize;
      }
      SumAligned(base, pageSize);
      Layout(usable, size, pageSize);
      pool := Pool(base, totalSize, usable, usableSize, pageSize);
      nextAddr := RoundUp(next + HEADER_SIZE);
    }

    /**
     * `alloc` without other threads: fails exactly when the rest of the pool is too small, and otherwise takes the next
     * aligned block.
     */
    method Alloc(size: nat, noAssert: bool) returns (r: Outcome)
      requires Valid() && size < TWO_TO_64
      modifies this`nextAddr
      ensures Valid()
      ensures size > old(Available()) ==> r == (if noAssert then Null else Trap) && nextAddr == old(nextAddr)
      ensures size <= old(Available()) ==>
        r == Allocated(old(nextAddr)) && old(nextAddr) + size <= nextAddr < old(nextAddr) + size + ALIGNMENT
    {
      hide HasSpace, RoundUp;
      var swapped, oldValue := false, nextAddr;
      SpaceInside(pool, nextAddr, size);
      while !swapped
        invariant nextAddr == old(nextAddr) || swapped
        invariant swapped ==>
          nextAddr == RoundUp(old(nextAddr) + size) && oldValue == old(nextAddr) && size <= old(Available())
        invariant Valid()
        decreases !swapped
      {
        if !HasSpace(pool, nextAddr, size) {
          return if noAssert then Null else Trap;
        }
        oldValue := nextAddr;
        var newValue := RoundUp(nextAddr + size);
        RoundsInside(pool, nextAddr + size);
        if nextAddr == oldValue {
          nextAddr := newValue;
          swapped := true;
        }
      }
      return Allocated(oldValue);
    }
  }
}

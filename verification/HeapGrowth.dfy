/** pool_grow of kernel/ex/pool.c on the frame allocator and the page tables: what a growth
    commits, what one that fails midway leaves behind, and what the next one then loses. */
module HeapGrowth {
  import opened FrameAllocator
  import opened PageTables
  import opened AddressSpace
  import opened HeapPages
  import PoolBlocks
  import Pool
  import opened Prelude

  /** One round of the loop: a frame and its mapping. With its page table in place a page
      costs one frame and cannot fail for anything but that frame. */
  method CommitPage(space: KernelSpace, virt: nat) returns (result: Growth, frame: nat)
    requires space.Valid()
    modifies space`tables, space`level, space`parent, space.pmm, space.pmm.bitmap
    ensures space.Valid() && (result == OutOfFrames <==> old(space.pmm.freePages) == 0)
    ensures result == OutOfFrames ==> space.tables == old(space.tables) && space.pmm.used == old(space.pmm.used)
    ensures result != OutOfFrames ==>
      PageTaken(old(space.tables), old(space.pmm.used), space.tables, space.pmm.used, frame)
    ensures result != OutOfFrames ==>
      && Attempted(result, space.root, old(space.tables), space.tables, PageOf(virt), frame)
      && Cheap(result, space.root, old(space.tables), space.tables, PageOf(virt), old(space.pmm.freePages) - 1,
               space.pmm.freePages)
    ensures result == Stopped ==> space.pmm.freePages == 0
  {
    var phys := space.AllocateFrame();
    if phys == INVALID_PHYS {
      return OutOfFrames, 0;
    }
    frame := phys / PAGE_SIZE;
    result := MapFrame(space, virt, phys);
  }

  /** The mapping of a frame in use: the frame does not become a table. */
  method MapFrame(space: KernelSpace, virt: nat, phys: nat) returns (result: Growth)
    requires space.Valid() && phys / PAGE_SIZE < space.pmm.totalPages && space.pmm.used[phys / PAGE_SIZE]
    requires phys / PAGE_SIZE !in space.tables
    modifies space`tables, space`level, space`parent, space.pmm, space.pmm.bitmap
    ensures space.Valid() && TablesTaken(old(space.tables), old(space.pmm.used), space.tables, space.pmm.used)
    ensures phys / PAGE_SIZE !in space.tables && result != OutOfFrames
    ensures Attempted(result, space.root, old(space.tables), space.tables, PageOf(virt), phys / PAGE_SIZE)
    ensures Cheap(result, space.root, old(space.tables), space.tables, PageOf(virt), old(space.pmm.freePages),
                  space.pmm.freePages)
    ensures result == Stopped ==> space.pmm.freePages == 0
  {
    HeapEntry(phys);
    var outcome := space.MapPage(virt, phys, NONE.(write := true));
    match outcome
    case Mapped => result := Committed;
    case Refused => result := MapRefused;
    case BugCheck => result := Stopped;
  }

  /** The round after `done` pages are committed. */
  method CommitNext(space: KernelSpace, start: nat, pages: nat, done: nat, ghost t0: Tables, ghost u0: seq<bool>,
                    ghost free: nat, ghost taken: seq<nat>)
    returns (result: Growth, ghost more: seq<nat>)
    requires space.Valid() && HeapRange(start, pages) && |taken| == done < pages
    requires Grew(space.root, t0, u0, space.tables, space.pmm.used, start, done, taken)
    requires OnBudget(space.root, t0, space.tables, start, pages, done, free, space.pmm.freePages)
    modifies space`tables, space`level, space`parent, space.pmm, space.pmm.bitmap
    ensures space.Valid() && |more| == if result == OutOfFrames then done else done + 1
    ensures Grew(space.root, t0, u0, space.tables, space.pmm.used, start,
                 if result == Committed then done + 1 else done, more)
    ensures if result == Committed
            then OnBudget(space.root, t0, space.tables, start, pages, done + 1, free, space.pmm.freePages)
            else Affordable(result, space.root, t0, space.tables, start, pages, done, free, space.pmm.freePages)
    ensures result == OutOfFrames || result == Stopped ==> space.pmm.freePages == 0
    ensures result == MapRefused ==> LeafOf(space.root, t0, HeapPage(start, done)).Large?
  {
    ghost var t1, u1, free1 := space.tables, space.pmm.used, space.pmm.freePages;
    var frame;
    result, frame := CommitPage(space, start + done * PAGE_SIZE);
    more := taken;
    if result != OutOfFrames {
      Round(result, space.root, t0, u0, t1, u1, space.tables, space.pmm.used, start, pages, done, taken, frame);
      BudgetMore(result, space.root, t0, t1, space.tables, start, pages, done, free, free1, space.pmm.freePages);
      more := taken + [frame];
    }
  }

  /** The loop of pool_grow: `done` pages are committed, all of them or those before the
      first failure; they keep their frames and mappings either way. A refused mapping also
      costs its frame. With page tables in place, the loop commits as many pages as frames
      are free. */
  method CommitPages(space: KernelSpace, start: nat, pages: nat)
    returns (result: Growth, done: nat, ghost taken: seq<nat>)
    requires space.Valid() && HeapRange(start, pages)
    modifies space`tables, space`level, space`parent, space.pmm, space.pmm.bitmap
    ensures space.Valid() && done <= pages && (result == Committed <==> done == pages)
    ensures |taken| == done + if result == MapRefused || result == Stopped then 1 else 0
    ensures Grew(space.root, old(space.tables), old(space.pmm.used), space.tables, space.pmm.used, start, done, taken)
    ensures result == OutOfFrames || result == Stopped ==> space.pmm.freePages == 0
    ensures result == MapRefused ==> LeafOf(space.root, old(space.tables), HeapPage(start, done)).Large?
    ensures Affordable(result, space.root, old(space.tables), space.tables, start, pages, done,
                       old(space.pmm.freePages), space.pmm.freePages)
  {
    ghost var t0, u0, root, free := space.tables, space.pmm.used, space.root, space.pmm.freePages;
    done, taken := 0, [];
    while done < pages
      invariant |taken| == done <= pages && space.Valid()
      invariant Grew(root, t0, u0, space.tables, space.pmm.used, start, done, taken)
      invariant OnBudget(root, t0, space.tables, start, pages, done, free, space.pmm.freePages)
    {
      result, taken := CommitNext(space, start, pages, done, t0, u0, free, taken);
      if result != Committed {
        return;
      }
      done := done + 1;
    }
    result := Committed;
  }

  /** A growth where an earlier one failed: however it ends, the earlier one's frames that
      lose their mapping are exactly as many as it commits pages, the first ones. */
  method CommitAgain(space: KernelSpace, start: nat, pages: nat, ghost left: seq<nat>)
    returns (result: Growth, done: nat, ghost taken: seq<nat>)
    requires space.Valid() && HeapRange(start, pages) && HeapRange(start, |left|) && NoDup(left)
    requires Owned(space.tables, space.pmm.used, left) && Backed(space.root, space.tables, start, left)
    modifies space`tables, space`level, space`parent, space.pmm, space.pmm.bitmap
    ensures space.Valid() && done <= pages && (result == Committed <==> done == pages)
    ensures Grew(space.root, old(space.tables), old(space.pmm.used), space.tables, space.pmm.used, start, done, taken)
    ensures FirstLost(space.root, space.tables, space.pmm.used, start, left, done)
  {
    ghost var t0, u0 := space.tables, space.pmm.used;
    result, done, taken := CommitPages(space, start, pages);
    LostExactly(space.root, t0, u0, space.tables, space.pmm.used, start, done, taken, left);
  }

  /** The arena's end is page aligned, in the upper half of the address space. */
  lemma EndInRange(pool: Pool.KernelPool, want: nat)
    requires pool.Valid() && pool.heapEnd + want <= TWO_64 && want % PoolBlocks.GROW_CHUNK == 0
    ensures HeapRange(pool.heapEnd, want / PAGE_SIZE) && want / PAGE_SIZE * PAGE_SIZE == want
  {
    if pool.blocks != [] {
      PoolBlocks.WithinArena(pool.blocks, PoolBlocks.HEAP_BASE, pool.heapEnd, 0);
    }
    assert pool.heapEnd % PoolBlocks.GROW_CHUNK == 0 && pool.heapEnd >= PoolBlocks.HEAP_BASE;
  }

  /** pool_grow, whole: the pool grows exactly when every page was committed; otherwise it is
      as it was, and the pages committed so far keep their frames. */
  method GrowPool(pool: Pool.KernelPool, space: KernelSpace, need: nat)
    returns (ok: bool, result: Growth, done: nat, ghost taken: seq<nat>)
    requires pool.Valid() && space.Valid() && need > 0 && pool.heapEnd + PoolBlocks.Want(need) <= TWO_64
    modifies pool, space`tables, space`level, space`parent, space.pmm, space.pmm.bitmap
    ensures pool.Valid() && space.Valid() && (ok <==> result == Committed)
    ensures HeapRange(old(pool.heapEnd), PoolBlocks.Want(need) / PAGE_SIZE)
    ensures done <= PoolBlocks.Want(need) / PAGE_SIZE && (ok <==> done == PoolBlocks.Want(need) / PAGE_SIZE)
    ensures |taken| == done + if result == MapRefused || result == Stopped then 1 else 0
    ensures Grew(space.root, old(space.tables), old(space.pmm.used), space.tables, space.pmm.used, old(pool.heapEnd),
                 done, taken)
    ensures result == OutOfFrames || result == Stopped ==> space.pmm.freePages == 0
    ensures ok ==> pool.blocks == PoolBlocks.Grown(old(pool.blocks), old(pool.heapEnd), PoolBlocks.Want(need))
    ensures ok ==> pool.heapEnd == old(pool.heapEnd) + PoolBlocks.Want(need)
    ensures !ok ==> pool.blocks == old(pool.blocks) && pool.heapEnd == old(pool.heapEnd)
    ensures Affordable(result, space.root, old(space.tables), space.tables, old(pool.heapEnd),
                       PoolBlocks.Want(need) / PAGE_SIZE, done, old(space.pmm.freePages), space.pmm.freePages)
  {
    EndInRange(pool, PoolBlocks.Want(need));
    result, done, taken := CommitPages(space, pool.heapEnd, PoolBlocks.Want(need) / PAGE_SIZE);
    ok := pool.Grow(need, done);
  }

  /** ExInitializePool: the first chunk is committed and the pool covers it, or the machine
      stops. The page table of the first chunk serves the next 496 pages too. */
  method BootPool(space: KernelSpace) returns (pool: Pool.KernelPool?, ghost taken: seq<nat>)
    requires space.Valid()
    modifies space`tables, space`level, space`parent, space.pmm, space.pmm.bitmap
    ensures space.Valid() && |taken| <= 17
    ensures pool != null ==> pool.Valid() && fresh(pool) && pool.heapEnd == PoolBlocks.HEAP_BASE + 0x1_0000
    ensures pool != null ==> Grew(space.root, old(space.tables), old(space.pmm.used), space.tables, space.pmm.used,
                                  PoolBlocks.HEAP_BASE, 16, taken)
    ensures pool != null ==> Tabled(space.root, space.tables, PoolBlocks.HEAP_BASE + 0x1_0000, 496)
    ensures pool == null ==>
      space.pmm.freePages == 0 || exists i: nat :: i < 16 && LeafOf(space.root, old(space.tables),
                                                                   HeapPage(PoolBlocks.HEAP_BASE, i)).Large?
  {
    var result, done;
    result, done, taken := CommitPages(space, PoolBlocks.HEAP_BASE, 16);
    if result != Committed {
      return null, taken;
    }
    SameDirectory(space.root, space.tables, taken);
    pool := new Pool.KernelPool();
  }

  /** Other callers take n frames, one at a time. */
  method TakeFrames(space: KernelSpace, n: nat) returns (others: seq<nat>)
    requires space.Valid() && n <= space.pmm.freePages
    modifies space.pmm, space.pmm.bitmap
    ensures space.Valid() && |others| == n && NoDup(others) && Owned(space.tables, space.pmm.used, others)
    ensures space.pmm.freePages == old(space.pmm.freePages) - n
  {
    others := [];
    while |others| < n
      invariant space.Valid() && |others| <= n && NoDup(others) && Owned(space.tables, space.pmm.used, others)
      invariant space.pmm.freePages == old(space.pmm.freePages) - |others|
    {
      var phys := space.AllocateFrame();
      others := others + [phys / PAGE_SIZE];
    }
  }

  /** They give frames back. */
  method GiveBack(space: KernelSpace, others: seq<nat>)
    requires space.Valid() && NoDup(others) && Owned(space.tables, space.pmm.used, others)
    modifies space.pmm, space.pmm.bitmap
    ensures space.Valid() && space.pmm.freePages == old(space.pmm.freePages) + |others|
    ensures Returned(old(space.pmm.used), space.pmm.used, others)
  {
    ghost var u0 := space.pmm.used;
    var i := 0;
    while i < |others|
      invariant i <= |others| && space.Valid() && space.pmm.freePages == old(space.pmm.freePages) + i
      invariant Returned(u0, space.pmm.used, others[..i])
    {
      ghost var used := space.pmm.used;
      space.FreeFrames(others[i] * PAGE_SIZE, 1);
      ReturnedMore(u0, used, space.pmm.used, others, i);
      i := i + 1;
    }
    assert others[..i] == others;
  }

  /** The first half of a run that loses frames: 20 frames are free when the pool grows by 32
      pages, and it fails with 20 pages committed. */
  method FailMidway(pool: Pool.KernelPool, space: KernelSpace) returns (others: seq<nat>, ghost left: seq<nat>)
    requires pool.Valid() && space.Valid() && pool.heapEnd + 32 * PAGE_SIZE <= TWO_64
    requires Tabled(space.root, space.tables, pool.heapEnd, 32) && space.pmm.freePages >= 36
    modifies pool, space`tables, space`level, space`parent, space.pmm, space.pmm.bitmap
    ensures pool.Valid() && space.Valid() && pool.heapEnd == old(pool.heapEnd) && pool.blocks == old(pool.blocks)
    ensures HeapRange(pool.heapEnd, 32) && Tabled(space.root, space.tables, pool.heapEnd, 32)
    ensures |left| == 20 && NoDup(left) && Owned(space.tables, space.pmm.used, left)
    ensures Backed(space.root, space.tables, pool.heapEnd, left) && space.pmm.freePages == 0
    ensures |others| >= 16 && NoDup(others) && Owned(space.tables, space.pmm.used, others)
    ensures forall i :: 0 <= i < |left| ==> left[i] !in others
  {
    others := TakeFrames(space, space.pmm.freePages - 20);
    ghost var t0, u0 := space.tables, space.pmm.used;
    assert PoolBlocks.Want(0x1_F000) == 32 * PAGE_SIZE;
    var ok, result, done;
    ok, result, done, left := GrowPool(pool, space, 0x1_F000);
    assert left[..20] == left;
    OthersStay(t0, u0, space.tables, space.pmm.used, left, others);
  }

  /** Others give 16 frames back, and the pool grows by 16 pages: the first 16 frames of the
      failed growth are lost, the other 4 stay mapped just above the new end. */
  method LoseFrames(pool: Pool.KernelPool, space: KernelSpace) returns (ok: bool, ghost left: seq<nat>)
    requires pool.Valid() && space.Valid() && pool.heapEnd + 32 * PAGE_SIZE <= TWO_64
    requires Tabled(space.root, space.tables, pool.heapEnd, 32) && space.pmm.freePages >= 36
    modifies pool, space`tables, space`level, space`parent, space.pmm, space.pmm.bitmap
    ensures pool.Valid() && space.Valid() && ok && |left| == 20
    ensures pool.heapEnd == old(pool.heapEnd) + 16 * PAGE_SIZE
    ensures FirstLost(space.root, space.tables, space.pmm.used, old(pool.heapEnd), left, 16)
  {
    ghost var start := pool.heapEnd;
    var others;
    others, left := FailMidway(pool, space);
    GiveBack(space, others[..16]);
    ghost var t0, u0 := space.tables, space.pmm.used;
    assert PoolBlocks.Want(1) == 16 * PAGE_SIZE;
    ghost var taken;
    var result, done;
    ok, result, done, taken := GrowPool(pool, space, 1);
    LostExactly(space.root, t0, u0, space.tables, space.pmm.used, start, done, taken, left);
  }
}

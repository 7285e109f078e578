/** The operations of kernel/mm/vmm.c on live page tables. Every contract is stated
    on the flat map: which page numbers' leaves change, and to what. */
module AddressSpace {
  import opened FrameAllocator
  import opened PageTables
  import opened Prelude

  /** KeBugCheck stops the machine when no frame is left for a table. */
  datatype MapOutcome = Mapped | Refused | BugCheck

  class KernelSpace {
    const pmm: Pmm
    const root: nat
    var tables: Tables
    ghost var level: map<nat, nat>
    ghost var parent: map<nat, (nat, nat)>

    ghost predicate Valid()
      reads this, pmm, pmm.bitmap
    {
      && pmm.Valid() && pmm.totalPages <= FRAMES
      && Tree(root, tables, level, parent)
      && TablesUsed()
    }

    /** Every live table is a frame the bitmap calls used, so no fresh frame is a table. */
    ghost predicate TablesUsed()
      reads this, pmm
      requires |pmm.used| == pmm.totalPages
    {
      forall t :: t in tables ==> t < pmm.totalPages && pmm.used[t]
    }

    /** As while only large pages are mapped. */
    ghost predicate NoPageTables()
      reads this
    {
      forall t :: t in tables ==> t in level && level[t] >= 2
    }

    ghost function Leaf(v: Page): Leaf
      reads this
    {
      LeafOf(root, tables, v)
    }

    /** Nothing translates differently from `was`. */
    ghost predicate SameLeaves(was: Tables)
      reads this
    {
      SameTranslation(root, was, tables)
    }

    /** Frames in use stay in use, and new tables come from frames that were free. */
    ghost predicate OnlyFreeTaken(wasTables: Tables, wasUsed: seq<bool>)
      reads this, pmm
    {
      FreeTaken(wasTables, wasUsed, tables, pmm.used)
    }

    /** The frames taken were free and are the new tables, no others. */
    ghost predicate OnlyTablesTaken(wasTables: Tables, wasUsed: seq<bool>)
      reads this, pmm
    {
      TablesTaken(wasTables, wasUsed, tables, pmm.used)
    }

    /** alloc_zeroed_table for the top-level table. */
    constructor (pmm: Pmm)
      requires pmm.Valid() && pmm.freePages > 0 && pmm.totalPages <= FRAMES
      modifies pmm, pmm.bitmap
      ensures Valid() && this.pmm == pmm
      ensures forall w :: LeafOf(root, tables, w) == Unmapped
      ensures NoPageTables()
    {
      var phys := pmm.AllocatePage();
      this.pmm := pmm;
      root := phys / PAGE_SIZE;
      tables := map[phys / PAGE_SIZE := EmptyTable()];
      level := map[phys / PAGE_SIZE := 4];
      parent := map[];
      new;
      forall w: Page ensures LeafOf(root, tables, w) == Unmapped {
        NoneBelow(root, tables, 2, 3, w);
        NoneBelow(root, tables, 1, 3, w);
      }
    }

    /** The frame that alloc_zeroed_table takes is none of the live tables. */
    method AllocateTable() returns (t: nat, ok: bool)
      requires Valid()
      modifies pmm, pmm.bitmap
      ensures Valid()
      ensures ok ==> t !in tables && t < pmm.totalPages && !old(pmm.used)[t] && pmm.used == old(pmm.used)[t := true]
      ensures !ok ==> pmm.freePages == 0 && pmm.used == old(pmm.used)
    {
      var phys := pmm.AllocatePage();
      return phys / PAGE_SIZE, phys != INVALID_PHYS;
    }

    /** next_table on an absent entry: a fresh zeroed table is linked. */
    method LinkFresh(f: nat, i: nat, ghost k: nat, ghost v: Page) returns (t: nat, ok: bool)
      requires Valid() && f in tables && level[f] == k >= 2 && i == Index(k, v)
      requires !tables[f][i].flags.present
      requires TableAt(root, tables, k, v) == Some(f)
      modifies `tables, `level, `parent, pmm, pmm.bitmap
      ensures Valid() && SameLeaves(old(tables))
      ensures OnlyTablesTaken(old(tables), old(pmm.used))
      ensures ok ==> TableAt(root, tables, k - 1, v) == Some(t)
      ensures !ok ==> pmm.freePages == 0 && tables == old(tables)
      ensures forall u :: u in tables ==> (u in old(tables) && level[u] == old(level)[u]) || level[u] == k - 1
    {
      t, ok := AllocateTable();
      if ok {
        LinkTable(f, i, t, k, v);
      }
    }

    /** The link to a new table. */
    method LinkTable(f: nat, i: nat, t: nat, ghost k: nat, ghost v: Page)
      requires Tree(root, tables, level, parent) && f in tables && level[f] == k >= 2 && i == Index(k, v)
      requires !tables[f][i].flags.present && TableAt(root, tables, k, v) == Some(f)
      requires t !in tables && t < FRAMES
      modifies `tables, `level, `parent
      ensures Tree(root, tables, level, parent) && SameLeaves(old(tables))
      ensures TableAt(root, tables, k - 1, v) == Some(t)
      ensures level == old(level)[t := k - 1] && forall u :: u in tables ==> u in old(tables) || u == t
    {
      LinkEffect(root, tables, level, parent, f, i, t, v);
      tables := tables[t := EmptyTable()][f := tables[f][i := Entry(t, LINK)]];
      level, parent := level[t := level[f] - 1], parent[t := (f, i)];
    }

    /** next_table: the table under slot (f, i), allocated if the entry is absent.
        `v` is the page whose path is being followed. */
    method NextTable(f: nat, i: nat, ghost k: nat, ghost v: Page) returns (t: nat, ok: bool)
      requires Valid() && f in tables && level[f] == k >= 2 && i == Index(k, v)
      requires k == 2 ==> !tables[f][i].flags.large
      requires TableAt(root, tables, k, v) == Some(f)
      modifies `tables, `level, `parent, pmm, pmm.bitmap
      ensures Valid() && SameLeaves(old(tables))
      ensures OnlyTablesTaken(old(tables), old(pmm.used))
      ensures ok ==> TableAt(root, tables, k - 1, v) == Some(t)
      ensures old(tables[f][i]).flags.present ==> ok && tables == old(tables)
      ensures !ok ==> pmm.freePages == 0 && tables == old(tables)
      ensures forall u :: u in tables ==> (u in old(tables) && level[u] == old(level)[u]) || level[u] == k - 1
    {
      var e := tables[f][i];
      if !e.flags.present {
        t, ok := LinkFresh(f, i, k, v);
      } else {
        assert EntryOk(tables, level, parent, f, i);
        var entry := Entry(e.frame, Or(e.flags, NONE.(user := true)));
        RewriteSame(f, i, entry);
        tables := tables[f := tables[f][i := entry]];
        t, ok := e.frame, true;
      }
    }

    /** Inner entries already carry the user bit, so setting it again changes nothing. */
    lemma RewriteSame(f: nat, i: nat, e: Entry)
      requires f in tables && i < |tables[f]| && e == tables[f][i]
      ensures tables[f := tables[f][i := e]] == tables
    {
      assert tables[f][i := e] == tables[f];
    }

    /** The first two steps of every mapping: down to the page directory. */
    method WalkToDirectory(virt: nat) returns (pd: nat, ok: bool)
      requires Valid()
      modifies `tables, `level, `parent, pmm, pmm.bitmap
      ensures Valid() && SameLeaves(old(tables))
      ensures OnlyTablesTaken(old(tables), old(pmm.used))
      ensures ok ==> TableAt(root, tables, 2, PageOf(virt)) == Some(pd)
      ensures !ok ==> pmm.freePages == 0
      ensures TableAt(root, old(tables), 2, PageOf(virt)).Some? ==> ok && tables == old(tables)
      ensures forall t :: t in tables ==> (t in old(tables) && level[t] == old(level)[t]) || level[t] >= 2
    {
      pd, ok := NextTable(root, virt / 0x80_0000_0000 % 512, 4, PageOf(virt));
      if ok {
        ghost var mid, used := tables, pmm.used;
        TableAtLevel(root, tables, level, parent, 3, PageOf(virt));
        pd, ok := NextTable(pd, virt / 0x4000_0000 % 512, 3, PageOf(virt));
        TakenChain(old(tables), old(pmm.used), mid, used, tables, pmm.used);
      }
    }

    /** map_large, used only while no page table exists yet. */
    method MapLarge(virt: nat, pa: nat, flags: Flags) returns (ok: bool)
      requires Valid() && NoPageTables()
      requires flags.present && pa / LARGE_PAGE_SIZE * 512 < FRAMES
      modifies `tables, `level, `parent, pmm, pmm.bitmap
      ensures Valid() && NoPageTables()
      ensures ok ==> LargeMapped(root, old(tables), tables, PageOf(virt),
                                 Entry(pa / LARGE_PAGE_SIZE * 512, Or(flags, NONE.(large := true))))
      ensures !ok ==> pmm.freePages == 0
    {
      var pd;
      pd, ok := WalkToDirectory(virt);
      if ok {
        ghost var was := tables;
        PutLargeEntry(pd, virt, Entry(pa / LARGE_PAGE_SIZE * 512, Or(flags, NONE.(large := true))));
        assert SameTranslation(root, old(tables), was);
      }
    }

    /** The write of a 2 MiB entry, while no page table exists. */
    method PutLargeEntry(pd: nat, virt: nat, e: Entry)
      requires Valid() && NoPageTables() && TableAt(root, tables, 2, PageOf(virt)) == Some(pd)
      requires e.flags.large && e.flags.present && e.frame < FRAMES
      modifies `tables
      ensures Valid() && NoPageTables()
      ensures LargeMapped(root, old(tables), tables, PageOf(virt), e)
    {
      ghost var v := PageOf(virt);
      if TableAt(root, tables, 1, v).Some? {
        TableAtLevel(root, tables, level, parent, 1, v);
      }
      LargePutEffect(root, tables, level, parent, pd, e, v);
      tables := tables[pd := tables[pd][virt / 0x20_0000 % 512 := e]];
    }

    /** One slot of the kernel window. */
    method AddKernelSlot(n: nat) returns (ok: bool)
      requires Valid() && n < 512
      requires Windows(root, tables, n, 0) && NoPageTables()
      modifies `tables, `level, `parent, pmm, pmm.bitmap
      ensures Valid() && NoPageTables()
      ensures if ok then Windows(root, tables, n + 1, 0) else pmm.freePages == 0
    {
      SlotFits(n);
      ok := MapLarge(KERNEL_VIRT_BASE + n * LARGE_PAGE_SIZE, n * LARGE_PAGE_SIZE, WINDOW_FLAGS);
      if ok {
        KernelSlotAdded(root, old(tables), tables, n);
      }
    }

    /** One slot of the direct map. */
    method AddDirectSlot(n: nat) returns (ok: bool)
      requires Valid() && (n + 1) * LARGE_PAGE_SIZE <= KERNEL_VIRT_BASE - MM_DIRECT_MAP_BASE
      requires Windows(root, tables, 512, n) && NoPageTables()
      modifies `tables, `level, `parent, pmm, pmm.bitmap
      ensures Valid() && NoPageTables()
      ensures if ok then Windows(root, tables, 512, n + 1) else pmm.freePages == 0
    {
      SlotFits(n);
      ok := MapLarge(MM_DIRECT_MAP_BASE + n * LARGE_PAGE_SIZE, n * LARGE_PAGE_SIZE, WINDOW_FLAGS);
      if ok {
        DirectSlotAdded(root, old(tables), tables, n);
      }
    }

    /** MmInitializeVirtualMemory: on success exactly two windows translate, the kernel
        image window and the direct map of all memory, each to the physical address
        it stands for. The direct map stays below the kernel window. */
    method Initialize(highest: nat) returns (ok: bool)
      requires Valid() && (forall w :: LeafOf(root, tables, w) == Unmapped) && NoPageTables()
      requires highest + LARGE_PAGE_SIZE <= KERNEL_VIRT_BASE - MM_DIRECT_MAP_BASE
      modifies `tables, `level, `parent, pmm, pmm.bitmap
      ensures Valid()
      ensures ok ==> Booted(root, tables, TopOf(highest)) && TranslatesAll(root, tables, highest)
      ensures !ok ==> pmm.freePages == 0
    {
      var n := 0;
      while n < 512
        invariant n <= 512 && Valid() && Windows(root, tables, n, 0) && NoPageTables()
      {
        ok := AddKernelSlot(n);
        if !ok {
          return;
        }
        n := n + 1;
      }
      n := 0;
      var slots := TopOf(highest) / LARGE_PAGE_SIZE;
      while n < slots
        invariant n <= slots && Valid() && Windows(root, tables, 512, n) && NoPageTables()
      {
        ok := AddDirectSlot(n);
        if !ok {
          return;
        }
        n := n + 1;
      }
      BootTranslatesAll(root, tables, highest);
      ok := true;
    }

    /** The steps of MmMapPage above the leaf: down to the page table. */
    method WalkToTable(virt: nat) returns (pt: nat, outcome: MapOutcome)
      requires Valid()
      modifies `tables, `level, `parent, pmm, pmm.bitmap
      ensures Valid() && SameLeaves(old(tables))
      ensures OnlyTablesTaken(old(tables), old(pmm.used))
      ensures outcome == Mapped ==> TableAt(root, tables, 1, PageOf(virt)) == Some(pt)
      ensures outcome == Refused <==> LeafOf(root, old(tables), PageOf(virt)).Large?
      ensures outcome == BugCheck ==> pmm.freePages == 0
      ensures TableAt(root, old(tables), 1, PageOf(virt)).Some? ==> outcome == Mapped && tables == old(tables)
    {
      ghost var v := PageOf(virt);
      var pd, ok := WalkToDirectory(virt);
      if !ok {
        return 0, BugCheck;
      }
      ghost var mid, used := tables, pmm.used;
      assert LeafOf(root, tables, v) == LeafOf(root, old(tables), v);
      TableAtLevel(root, tables, level, parent, 2, v);
      assert EntryOk(tables, level, parent, pd, Index(2, v));
      if tables[pd][virt / 0x20_0000 % 512].flags.large {
        return 0, Refused;
      }
      pt, ok := NextTable(pd, virt / 0x20_0000 % 512, 2, v);
      TakenChain(old(tables), old(pmm.used), mid, used, tables, pmm.used);
      if !ok {
        return 0, BugCheck;
      }
      return pt, Mapped;
    }

    /** The write of a page-table entry. */
    method PutEntry(pt: nat, virt: nat, e: Entry)
      requires Valid() && e.frame < FRAMES && TableAt(root, tables, 1, PageOf(virt)) == Some(pt)
      modifies `tables
      ensures Valid() && tables.Keys == old(tables.Keys)
      ensures OnlyPageChanged(root, old(tables), tables, PageOf(virt), if e.flags.present then Small(e) else Unmapped)
      ensures SameTables(root, old(tables), tables)
    {
      SmallPutEffect(root, tables, level, parent, pt, e, PageOf(virt));
      SmallPutTables(root, tables, level, parent, pt, e, PageOf(virt));
      tables := tables[pt := tables[pt][virt / PAGE_SIZE % 512 := e]];
    }

    /** MmMapPage. */
    method MapPage(virt: nat, phys: nat, flags: Flags) returns (outcome: MapOutcome)
      requires Valid()
      modifies `tables, `level, `parent, pmm, pmm.bitmap
      ensures Valid()
      ensures OnlyTablesTaken(old(tables), old(pmm.used))
      ensures outcome == Mapped ==>
                OnlyPageChanged(root, old(tables), tables, PageOf(virt),
                                Small(Entry(phys / PAGE_SIZE % FRAMES, Or(flags, NONE.(present := true)))))
      ensures outcome != Mapped ==> SameLeaves(old(tables))
      ensures outcome == Refused <==> LeafOf(root, old(tables), PageOf(virt)).Large?
      ensures outcome == BugCheck ==> pmm.freePages == 0
      ensures LeafOf(root, old(tables), PageOf(virt)).Small? ==> outcome == Mapped
      ensures TableAt(root, old(tables), 1, PageOf(virt)).Some? ==>
                outcome == Mapped && pmm.used == old(pmm.used) && SameTables(root, old(tables), tables)
    {
      var pt;
      pt, outcome := WalkToTable(virt);
      if outcome != Mapped {
        return;
      }
      PutEntry(pt, virt, Entry(phys / PAGE_SIZE % FRAMES, Or(flags, NONE.(present := true))));
    }

    /** MmUnmapPage. TRUE means a page table covers the page, mapped or not. */
    method UnmapPage(virt: nat) returns (ok: bool)
      requires Valid()
      modifies `tables
      ensures Valid()
      ensures ok ==> OnlyPageChanged(root, old(tables), tables, PageOf(virt), Unmapped)
      ensures !ok ==> tables == old(tables) && !Leaf(PageOf(virt)).Small?
      ensures LeafOf(root, old(tables), PageOf(virt)).Large? ==> !ok
    {
      ghost var v := PageOf(virt);
      if !tables[root][virt / 0x80_0000_0000 % 512].flags.present {
        NoneBelow(root, tables, 1, 3, v);
        return false;
      }
      assert EntryOk(tables, level, parent, root, Index(4, v));
      var pdpt := tables[root][virt / 0x80_0000_0000 % 512].frame;
      if !tables[pdpt][virt / 0x4000_0000 % 512].flags.present {
        return false;
      }
      assert EntryOk(tables, level, parent, pdpt, Index(3, v));
      var pd := tables[pdpt][virt / 0x4000_0000 % 512].frame;
      assert EntryOk(tables, level, parent, pd, Index(2, v));
      if !tables[pd][virt / 0x20_0000 % 512].flags.present || tables[pd][virt / 0x20_0000 % 512].flags.large {
        return false;
      }
      var pt := tables[pd][virt / 0x20_0000 % 512].frame;
      PutEntry(pt, virt, ZERO);
      return true;
    }

    /** MmGetPhysicalAddress: the walk computes what the flat map says. */
    method GetPhysicalAddress(virt: nat) returns (phys: nat)
      requires Valid()
      ensures phys == Phys(Leaf(PageOf(virt)), virt)
    {
      ghost var v := PageOf(virt);
      if !tables[root][virt / 0x80_0000_0000 % 512].flags.present {
        NoneBelow(root, tables, 1, 3, v);
        return INVALID_PHYS;
      }
      assert EntryOk(tables, level, parent, root, Index(4, v));
      var pdpt := tables[root][virt / 0x80_0000_0000 % 512].frame;
      if !tables[pdpt][virt / 0x4000_0000 % 512].flags.present {
        return INVALID_PHYS;
      }
      assert EntryOk(tables, level, parent, pdpt, Index(3, v));
      var pd := tables[pdpt][virt / 0x4000_0000 % 512].frame;
      var pde := tables[pd][virt / 0x20_0000 % 512];
      assert EntryOk(tables, level, parent, pd, Index(2, v));
      if !pde.flags.present {
        return INVALID_PHYS;
      }
      if pde.flags.large {
        return pde.frame * PAGE_SIZE / LARGE_PAGE_SIZE * LARGE_PAGE_SIZE + virt % LARGE_PAGE_SIZE;
      }
      var pte := tables[pde.frame][virt / PAGE_SIZE % 512];
      if !pte.flags.present {
        return INVALID_PHYS;
      }
      return pte.frame * PAGE_SIZE + virt % PAGE_SIZE;
    }

    /** An address counts as mapped exactly when the walk gives a physical address. */
    lemma MappedMeansPhys(virt: nat)
      requires Valid()
      ensures Phys(Leaf(PageOf(virt)), virt) == INVALID_PHYS <==> Leaf(PageOf(virt)) == Unmapped
      ensures Leaf(PageOf(virt)).Small? ==> Leaf(PageOf(virt)).entry.frame < FRAMES
    {
      var v := PageOf(virt);
      TableAtLevel(root, tables, level, parent, 1, v);
      TableAtLevel(root, tables, level, parent, 2, v);
      var pt, pd := TableAt(root, tables, 1, v), TableAt(root, tables, 2, v);
      if pt.Some? {
        assert EntryOk(tables, level, parent, pt.value, Index(1, v));
      } else if pd.Some? {
        assert EntryOk(tables, level, parent, pd.value, Index(2, v));
      }
    }

    ghost predicate UserMapped(b: nat)
      reads this
    {
      b < MM_USER_MAX && Leaf(PageOf(b)) != Unmapped
    }

    /** One page of a probe: all of its addresses are mapped, or none. */
    method ProbePage(p: nat) returns (mapped: bool)
      requires Valid() && p % PAGE_SIZE == 0 && p < MM_USER_MAX
      ensures forall b :: p <= b < p + PAGE_SIZE ==> (UserMapped(b) <==> mapped)
    {
      var phys := GetPhysicalAddress(p);
      MappedMeansPhys(p);
      forall b | p <= b < p + PAGE_SIZE ensures UserMapped(b) <==> phys != INVALID_PHYS {
        SamePageNumber(b, p);
      }
      mapped := phys != INVALID_PHYS;
    }

    /** MmProbeForRead: TRUE exactly when every byte of the range is a mapped user address. */
    method ProbeForRead(va: nat, len: nat) returns (ok: bool)
      requires Valid() && va < TWO_64 && len < TWO_64
      ensures ok <==> forall b :: va <= b < va + len ==> UserMapped(b)
    {
      if len == 0 {
        return true;
      }
      if (va + len) % TWO_64 < va {
        assert va <= TWO_64 - 1 < va + len && !UserMapped(TWO_64 - 1);
        return false;
      }
      if va >= MM_USER_MAX || va + len - 1 >= MM_USER_MAX {
        assert !UserMapped(va + len - 1);
        return false;
      }
      var p := va / PAGE_SIZE * PAGE_SIZE;
      while p < va + len
        invariant p % PAGE_SIZE == 0 && va / PAGE_SIZE * PAGE_SIZE <= p
        invariant forall b :: va <= b < va + len && b < p ==> UserMapped(b)
        decreases va + len - p
      {
        var mapped := ProbePage(p);
        if !mapped {
          assert !UserMapped(if p < va then va else p);
          return false;
        }
        p := p + PAGE_SIZE;
      }
      return true;
    }

    /** One round of the MmProtectRange loop. */
    method ProtectPage(p: nat, flags: Flags, ghost writable: bool)
      requires Valid() && flags == NONE.(user := true, write := writable)
      modifies `tables, `level, `parent, pmm, pmm.bitmap
      ensures Valid()
      ensures PageProtected(root, old(tables), tables, PageOf(p), writable)
    {
      ghost var leaf, was := Leaf(PageOf(p)), tables;
      var pa := GetPhysicalAddress(p);
      MappedMeansPhys(p);
      if pa != INVALID_PHYS {
        var frameBase := pa / PAGE_SIZE * PAGE_SIZE;
        if leaf.Small? {
          FrameOfAddress(leaf.entry.frame, p, pa);
        }
        var outcome := MapPage(p, frameBase, flags);
        if leaf.Small? {
          RemapProtects(root, was, tables, PageOf(p), frameBase, writable);
        }
      }
    }

    /** MmProtectRange: small pages of the range get exactly the new protection;
        no address anywhere translates differently. */
    method ProtectRange(va: nat, size: nat, writable: bool)
      requires Valid() && va < TWO_64 && size < TWO_64
      modifies `tables, `level, `parent, pmm, pmm.bitmap
      ensures Valid()
      ensures ProtectedBetween(root, old(tables), tables, va / PAGE_SIZE,
                               AlignUp((va + size) % TWO_64) % TWO_64 / PAGE_SIZE, writable)
      ensures SameAddresses(root, old(tables), tables)
    {
      var flags := NONE.(user := true, write := writable);
      var first := va / PAGE_SIZE;
      var last := AlignUp((va + size) % TWO_64) % TWO_64 / PAGE_SIZE;
      var n := first;
      while n < last
        invariant first <= n && (n == first || n <= last)
        invariant Valid()
        invariant ProtectedBetween(root, old(tables), tables, first, n, writable)
      {
        ghost var was := tables;
        ProtectPage(n * PAGE_SIZE, flags, writable);
        ProtectOneMore(root, old(tables), was, tables, first, n, writable);
        n := n + 1;
      }
      ProtectionMovesNothing(root, old(tables), tables, first, n, writable);
    }

    /** MmAllocatePage by any other part of the kernel: no table is handed out, and no
        translation changes. */
    method AllocateFrame() returns (phys: nat)
      requires Valid()
      modifies pmm, pmm.bitmap
      ensures Valid() && OnlyFreeTaken(old(tables), old(pmm.used))
      ensures phys == INVALID_PHYS <==> old(pmm.freePages) == 0
      ensures phys == INVALID_PHYS ==> pmm.used == old(pmm.used)
      ensures phys != INVALID_PHYS ==> pmm.freePages == old(pmm.freePages) - 1
      ensures phys != INVALID_PHYS ==> phys / PAGE_SIZE < pmm.totalPages && phys / PAGE_SIZE !in tables
      ensures phys != INVALID_PHYS ==> !old(pmm.used)[phys / PAGE_SIZE]
      ensures phys != INVALID_PHYS ==> pmm.used == old(pmm.used)[phys / PAGE_SIZE := true]
    {
      phys := pmm.AllocatePage();
      if phys != INVALID_PHYS {
        CountBounds(old(pmm.used));
        CountAfterUpdate(old(pmm.used), phys / PAGE_SIZE, true);
        CountBounds(pmm.used);
      }
    }

    /** MmAllocatePages likewise. */
    method AllocateFrames(count: nat) returns (phys: nat)
      requires Valid()
      modifies pmm, pmm.bitmap
      ensures Valid() && OnlyFreeTaken(old(tables), old(pmm.used))
      ensures phys != INVALID_PHYS ==>
        forall t :: t in tables ==> !(phys / PAGE_SIZE <= t < phys / PAGE_SIZE + count)
    {
      phys := pmm.AllocatePages(count);
    }

    /** MmFreePages of frames that are no tables. */
    method FreeFrames(phys: nat, count: nat)
      requires Valid() && phys / PAGE_SIZE + count < TWO_64
      requires forall t :: t in tables ==> !(phys / PAGE_SIZE <= t < phys / PAGE_SIZE + count)
      modifies pmm, pmm.bitmap
      ensures Valid()
      ensures pmm.used == Painted(old(pmm.used), phys / PAGE_SIZE, phys / PAGE_SIZE + count, false)
    {
      pmm.FreePages(phys, count);
    }
  }

  /** The end of the direct map: the highest address rounded up, at least 1 GiB. */
  function TopOf(highest: nat): nat
  {
    var top := (highest + LARGE_PAGE_SIZE - 1) / LARGE_PAGE_SIZE * LARGE_PAGE_SIZE;
    if top < KERNEL_WINDOW then KERNEL_WINDOW else top
  }

  const WINDOW_FLAGS := NONE.(present := true, write := true, global := true)

  const BOOT_FLAGS := NONE.(present := true, write := true, global := true, large := true)

  /** The 2 MiB slot of the direct map that page `w` falls in. */
  function DirectSlot(w: Page): int
  {
    ((w.i4 - 256) * 512 + w.i3) * 512 + w.i2
  }

  /** The leaf of `w` once `kernel` slots of the kernel window and `direct` slots of
      the direct map are built. */
  ghost function WindowLeaf(w: Page, kernel: nat, direct: nat): Leaf
  {
    if w.i4 == 511 && w.i3 == 510 && w.i2 < kernel then Large(Entry(w.i2 * 512, BOOT_FLAGS))
    else if 0 <= DirectSlot(w) < direct then Large(Entry(DirectSlot(w) * 512, BOOT_FLAGS))
    else Unmapped
  }

  /** The translation is that of the boot windows as far as they are built. */
  ghost predicate Windows(root: nat, tables: Tables, kernel: nat, direct: nat)
  {
    forall w {:trigger LeafOf(root, tables, w)} :: LeafOf(root, tables, w) == WindowLeaf(w, kernel, direct)
  }

  ghost predicate Booted(root: nat, tables: Tables, top: nat)
  {
    forall w {:trigger LeafOf(root, tables, w)} ::
      LeafOf(root, tables, w) == WindowLeaf(w, 512, top / LARGE_PAGE_SIZE)
  }

  /** The 2 MiB slot number of an address, in the 27 bits the tables see. */
  lemma SlotNumber(va: nat)
    ensures DirectSlot(PageOf(va)) == va / LARGE_PAGE_SIZE % 0x800_0000 - 0x400_0000
  {
    var a, b, c := va / LARGE_PAGE_SIZE, va / 0x4000_0000, va / 0x80_0000_0000;
    Shifts(va);
    Digit(a, b);
    Digit(b, c);
    Digit(c, c / 512);
    SlotPart(a, c / 512, a % 512 + 512 * (b % 512 + 512 * (c % 512)));
  }

  lemma SlotPart(x: nat, d: nat, low: nat)
    requires x == 0x800_0000 * d + low && low < 0x800_0000
    ensures x % 0x800_0000 == low
  {
  }

  lemma SlotDecides(v: Page, w: Page)
    ensures SameLargePage(v, w) <==> DirectSlot(v) == DirectSlot(w)
    ensures v.i4 == 511 && v.i3 == 510 <==> 0x3FF_FC00 <= DirectSlot(v) < 0x3FF_FE00
    ensures v.i4 == 511 && v.i3 == 510 ==> DirectSlot(v) == 0x3FF_FC00 + v.i2
  {
  }

  lemma WindowStep(n: nat)
    requires n < 512
    ensures forall w :: SameLargePage(w, PageOf(KERNEL_VIRT_BASE + n * LARGE_PAGE_SIZE))
                     <==> w.i4 == 511 && w.i3 == 510 && w.i2 == n
    ensures n * LARGE_PAGE_SIZE / LARGE_PAGE_SIZE == n
  {
    var va := KERNEL_VIRT_BASE + n * LARGE_PAGE_SIZE;
    SlotNumber(va);
    SlotPart(va / LARGE_PAGE_SIZE, 0xFFFF, 0x7FF_FC00 + n);
    forall w: Page
      ensures SameLargePage(w, PageOf(va)) <==> w.i4 == 511 && w.i3 == 510 && w.i2 == n
    {
      SlotDecides(w, PageOf(va));
    }
  }

  lemma DirectStep(n: nat)
    requires n * LARGE_PAGE_SIZE < KERNEL_VIRT_BASE - MM_DIRECT_MAP_BASE
    ensures forall w :: SameLargePage(w, PageOf(MM_DIRECT_MAP_BASE + n * LARGE_PAGE_SIZE)) <==> DirectSlot(w) == n
    ensures forall w :: DirectSlot(w) == n ==> !(w.i4 == 511 && w.i3 == 510)
    ensures n * LARGE_PAGE_SIZE / LARGE_PAGE_SIZE == n
  {
    var va := MM_DIRECT_MAP_BASE + n * LARGE_PAGE_SIZE;
    SlotNumber(va);
    SlotPart(va / LARGE_PAGE_SIZE, 0xFFFF, 0x400_0000 + n);
    forall w: Page
      ensures SameLargePage(w, PageOf(va)) <==> DirectSlot(w) == n
      ensures DirectSlot(w) == n ==> !(w.i4 == 511 && w.i3 == 510)
    {
      SlotDecides(w, PageOf(va));
    }
  }

  lemma SlotBase(n: nat)
    ensures n * LARGE_PAGE_SIZE / LARGE_PAGE_SIZE == n
  {
  }

  lemma SlotFits(n: nat)
    requires n * LARGE_PAGE_SIZE < KERNEL_VIRT_BASE - MM_DIRECT_MAP_BASE
    ensures n * LARGE_PAGE_SIZE / LARGE_PAGE_SIZE * 512 < FRAMES
  {
    SlotBase(n);
  }

  lemma KernelSlotAdded(root: nat, was: Tables, now: Tables, n: nat)
    requires n < 512 && Windows(root, was, n, 0)
    requires LargeMapped(root, was, now, PageOf(KERNEL_VIRT_BASE + n * LARGE_PAGE_SIZE),
                         Entry(n * LARGE_PAGE_SIZE / LARGE_PAGE_SIZE * 512, Or(WINDOW_FLAGS, NONE.(large := true))))
    ensures Windows(root, now, n + 1, 0)
  {
    SlotBase(n);
    WindowStep(n);
    forall w ensures LeafOf(root, now, w) == WindowLeaf(w, n + 1, 0) {
      assert LeafOf(root, was, w) == WindowLeaf(w, n, 0);
    }
  }

  lemma DirectSlotAdded(root: nat, was: Tables, now: Tables, n: nat)
    requires n * LARGE_PAGE_SIZE < KERNEL_VIRT_BASE - MM_DIRECT_MAP_BASE && Windows(root, was, 512, n)
    requires LargeMapped(root, was, now, PageOf(MM_DIRECT_MAP_BASE + n * LARGE_PAGE_SIZE),
                         Entry(n * LARGE_PAGE_SIZE / LARGE_PAGE_SIZE * 512, Or(WINDOW_FLAGS, NONE.(large := true))))
    ensures Windows(root, now, 512, n + 1)
  {
    SlotBase(n);
    DirectStep(n);
    forall w ensures LeafOf(root, now, w) == WindowLeaf(w, 512, n + 1) {
      assert LeafOf(root, was, w) == WindowLeaf(w, 512, n);
    }
  }

  lemma CanonicalSlot(va: nat)
    requires Canonical(va)
    ensures va < MM_USER_MAX ==> DirectSlot(PageOf(va)) < 0
    ensures va >= MM_DIRECT_MAP_BASE ==> DirectSlot(PageOf(va)) == (va - MM_DIRECT_MAP_BASE) / LARGE_PAGE_SIZE
  {
    SlotNumber(va);
    var s := va / LARGE_PAGE_SIZE;
    if va < MM_USER_MAX {
      SlotPart(s, 0, s);
    } else {
      SlotPart(s, 0xFFFF, s - 0x800_0000 * 0xFFFF);
    }
  }

  /** What the boot tables mean: each window maps an offset to itself, nothing else is mapped. */
  lemma BootTranslation(root: nat, tables: Tables, top: nat, va: nat)
    requires Booted(root, tables, top) && top % LARGE_PAGE_SIZE == 0
    requires top <= KERNEL_VIRT_BASE - MM_DIRECT_MAP_BASE && Canonical(va)
    ensures Phys(LeafOf(root, tables, PageOf(va)), va)
         == if MM_DIRECT_MAP_BASE <= va < MM_DIRECT_MAP_BASE + top then va - MM_DIRECT_MAP_BASE
            else if KERNEL_VIRT_BASE <= va < KERNEL_VIRT_BASE + KERNEL_WINDOW then va - KERNEL_VIRT_BASE
            else INVALID_PHYS
  {
    var w := PageOf(va);
    assert LeafOf(root, tables, w) == WindowLeaf(w, 512, top / LARGE_PAGE_SIZE);
    CanonicalSlot(va);
    SlotDecides(w, w);
    if va >= MM_DIRECT_MAP_BASE {
      SlotOffset(va - MM_DIRECT_MAP_BASE, va, top);
    }
  }

  /** Every address of memory and of the first GiB, the whole 2 MiB around it, is reached at
      its place in the direct map, the kernel window reaches the first GiB, and no other
      address is translated. */
  ghost predicate TranslatesAll(root: nat, tables: Tables, highest: nat)
  {
    forall va: nat {:trigger PageOf(va)} :: Canonical(va) ==>
      Phys(LeafOf(root, tables, PageOf(va)), va)
      == if InDirectMap(va, highest) then va - MM_DIRECT_MAP_BASE
         else if KERNEL_VIRT_BASE <= va < KERNEL_VIRT_BASE + KERNEL_WINDOW then va - KERNEL_VIRT_BASE
         else INVALID_PHYS
  }

  /** The 2 MiB of va's offset begin below the end of memory, or below 1 GiB. */
  predicate InDirectMap(va: nat, highest: nat)
  {
    MM_DIRECT_MAP_BASE <= va < KERNEL_VIRT_BASE &&
    var start := va - MM_DIRECT_MAP_BASE - (va - MM_DIRECT_MAP_BASE) % LARGE_PAGE_SIZE;
    start < highest || start < KERNEL_WINDOW
  }

  lemma TopCovers(highest: nat, va: nat)
    requires highest + LARGE_PAGE_SIZE <= KERNEL_VIRT_BASE - MM_DIRECT_MAP_BASE
    ensures InDirectMap(va, highest) <==> MM_DIRECT_MAP_BASE <= va < MM_DIRECT_MAP_BASE + TopOf(highest)
    ensures TopOf(highest) % LARGE_PAGE_SIZE == 0 && TopOf(highest) <= KERNEL_VIRT_BASE - MM_DIRECT_MAP_BASE
  {
  }

  lemma BootTranslatesAll(root: nat, tables: Tables, highest: nat)
    requires Booted(root, tables, TopOf(highest))
    requires highest + LARGE_PAGE_SIZE <= KERNEL_VIRT_BASE - MM_DIRECT_MAP_BASE
    ensures TranslatesAll(root, tables, highest)
  {
    forall va: nat | Canonical(va)
      ensures Phys(LeafOf(root, tables, PageOf(va)), va)
           == if InDirectMap(va, highest) then va - MM_DIRECT_MAP_BASE
              else if KERNEL_VIRT_BASE <= va < KERNEL_VIRT_BASE + KERNEL_WINDOW then va - KERNEL_VIRT_BASE
              else INVALID_PHYS
    {
      TopCovers(highest, va);
      BootTranslation(root, tables, TopOf(highest), va);
    }
  }

  /** All memory there is, and the first GiB, is reached through the direct map. */
  lemma MemoryReached(root: nat, tables: Tables, highest: nat, a: nat)
    requires TranslatesAll(root, tables, highest) && (a < highest || a < KERNEL_WINDOW)
    requires a < KERNEL_VIRT_BASE - MM_DIRECT_MAP_BASE
    ensures Phys(LeafOf(root, tables, PageOf(MM_DIRECT_MAP_BASE + a)), MM_DIRECT_MAP_BASE + a) == a
  {
    assert InDirectMap(MM_DIRECT_MAP_BASE + a, highest);
  }

  /** Nothing beyond it is, up to the kernel window. */
  lemma NothingBeyond(root: nat, tables: Tables, highest: nat, va: nat)
    requires TranslatesAll(root, tables, highest) && Canonical(va) && va < KERNEL_VIRT_BASE
    requires va >= MM_DIRECT_MAP_BASE + highest + LARGE_PAGE_SIZE
    requires va >= MM_DIRECT_MAP_BASE + KERNEL_WINDOW + LARGE_PAGE_SIZE
    ensures Phys(LeafOf(root, tables, PageOf(va)), va) == INVALID_PHYS
  {
    assert !InDirectMap(va, highest);
  }

  lemma SlotOffset(offset: nat, va: nat, top: nat)
    requires va == MM_DIRECT_MAP_BASE + offset && top % LARGE_PAGE_SIZE == 0
    ensures offset
         == offset / LARGE_PAGE_SIZE * 512 * PAGE_SIZE / LARGE_PAGE_SIZE * LARGE_PAGE_SIZE + va % LARGE_PAGE_SIZE
    ensures offset / LARGE_PAGE_SIZE < top / LARGE_PAGE_SIZE <==> offset < top
    ensures 0x3FF_FC00 <= offset / LARGE_PAGE_SIZE < 0x3FF_FE00 <==>
            KERNEL_VIRT_BASE <= va < KERNEL_VIRT_BASE + KERNEL_WINDOW
    ensures KERNEL_VIRT_BASE <= va < KERNEL_VIRT_BASE + KERNEL_WINDOW ==>
              (offset / LARGE_PAGE_SIZE - 0x3FF_FC00) * 512 * PAGE_SIZE / LARGE_PAGE_SIZE * LARGE_PAGE_SIZE
              + va % LARGE_PAGE_SIZE == va - KERNEL_VIRT_BASE
  {
  }

  lemma FrameOfAddress(frame: nat, p: nat, pa: nat)
    requires frame < FRAMES && pa == frame * PAGE_SIZE + p % PAGE_SIZE
    ensures pa / PAGE_SIZE * PAGE_SIZE == frame * PAGE_SIZE
    ensures frame * PAGE_SIZE / PAGE_SIZE % FRAMES == frame
  {
  }

  /** Page `w` holds one of the addresses numbered first, ..., last - 1 in pages. */
  ghost predicate InRange(w: Page, first: nat, last: nat)
  {
    exists n :: first <= n < last && PageOf(n * PAGE_SIZE) == w
  }

  ghost function Protected(leaf: Leaf, inRange: bool, writable: bool): Leaf
  {
    if inRange && leaf.Small?
    then Small(Entry(leaf.entry.frame, NONE.(present := true, user := true, write := writable)))
    else leaf
  }

  ghost predicate ProtectedBetween(root: nat, before: Tables, after: Tables, first: nat, last: nat, writable: bool)
  {
    forall w {:trigger LeafOf(root, after, w)} ::
      LeafOf(root, after, w) == Protected(LeafOf(root, before, w), InRange(w, first, last), writable)
  }

  ghost predicate PageProtected(root: nat, before: Tables, after: Tables, v: Page, writable: bool)
  {
    forall w {:trigger LeafOf(root, after, w)} ::
      LeafOf(root, after, w) == Protected(LeafOf(root, before, w), w == v, writable)
  }

  /** Mapping a page to its own frame with new flags is protecting it. */
  lemma RemapProtects(root: nat, before: Tables, after: Tables, v: Page, frameBase: nat, writable: bool)
    requires LeafOf(root, before, v).Small? && LeafOf(root, before, v).entry.frame == frameBase / PAGE_SIZE % FRAMES
    requires OnlyPageChanged(root, before, after, v,
                             Small(Entry(frameBase / PAGE_SIZE % FRAMES,
                                         Or(NONE.(user := true, write := writable), NONE.(present := true)))))
    ensures PageProtected(root, before, after, v, writable)
  {
  }

  /** The pages of a change of protection are those that hold a byte of the range. */
  lemma RangePages(va: nat, size: nat, n: nat)
    requires size > 0 && va + size + PAGE_SIZE <= TWO_64
    ensures va / PAGE_SIZE <= n < AlignUp((va + size) % TWO_64) % TWO_64 / PAGE_SIZE
       <==> exists b :: va <= b < va + size && b / PAGE_SIZE == n
  {
    AlignUpMeaning(va + size);
    if va / PAGE_SIZE <= n < AlignUp(va + size) / PAGE_SIZE {
      var b := if va <= n * PAGE_SIZE then n * PAGE_SIZE else va;
      assert va <= b < va + size && b / PAGE_SIZE == n;
    }
  }

  /** A page that is mapped is reached at its frame, byte for byte. */
  lemma MappedReads(root: nat, before: Tables, after: Tables, virt: nat, phys: nat, flags: Flags, va: nat)
    requires phys / PAGE_SIZE < FRAMES && va / PAGE_SIZE == virt / PAGE_SIZE && flags.present
    requires OnlyPageChanged(root, before, after, PageOf(virt), Small(Entry(phys / PAGE_SIZE % FRAMES, flags)))
    ensures Phys(LeafOf(root, after, PageOf(va)), va) == phys - phys % PAGE_SIZE + va % PAGE_SIZE
  {
    SamePageNumber(va, virt);
  }

  lemma ProtectOneMore(root: nat, before: Tables, mid: Tables, after: Tables, first: nat, n: nat, writable: bool)
    requires first <= n && ProtectedBetween(root, before, mid, first, n, writable)
    requires PageProtected(root, mid, after, PageOf(n * PAGE_SIZE), writable)
    ensures ProtectedBetween(root, before, after, first, n + 1, writable)
  {
    forall w: Page
      ensures LeafOf(root, after, w) == Protected(LeafOf(root, before, w), InRange(w, first, n + 1), writable)
    {
      assert LeafOf(root, mid, w) == Protected(LeafOf(root, before, w), InRange(w, first, n), writable);
      assert InRange(w, first, n + 1) <==> InRange(w, first, n) || w == PageOf(n * PAGE_SIZE);
    }
  }

  /** Every address has the physical address it had. */
  ghost predicate SameAddresses(root: nat, before: Tables, after: Tables)
  {
    forall a: nat {:trigger PageOf(a)} ::
      Phys(LeafOf(root, after, PageOf(a)), a) == Phys(LeafOf(root, before, PageOf(a)), a)
  }

  lemma ProtectionMovesNothing(root: nat, before: Tables, after: Tables, first: nat, last: nat, writable: bool)
    requires ProtectedBetween(root, before, after, first, last, writable)
    ensures SameAddresses(root, before, after)
  {
    forall a: nat
      ensures Phys(LeafOf(root, after, PageOf(a)), a) == Phys(LeafOf(root, before, PageOf(a)), a)
    {
      var w := PageOf(a);
      assert LeafOf(root, after, w) == Protected(LeafOf(root, before, w), InRange(w, first, last), writable);
    }
  }

  /** What a change of protection means: the small pages of the range are user pages of the
      asked kind on the frames they had, and no other page changes. */
  lemma ProtectionMeaning(root: nat, before: Tables, after: Tables, first: nat, last: nat, writable: bool, w: Page)
    requires ProtectedBetween(root, before, after, first, last, writable)
    ensures var was, now := LeafOf(root, before, w), LeafOf(root, after, w);
      if InRange(w, first, last) && was.Small? then
        now.Small? && now.entry.frame == was.entry.frame && now.entry.flags.user
        && (now.entry.flags.write <==> writable)
      else now == was
  {
    assert LeafOf(root, after, w) == Protected(LeafOf(root, before, w), InRange(w, first, last), writable);
  }

  /** The boot windows are for the kernel alone, which may write to all of them. */
  lemma BootIsPrivate(root: nat, tables: Tables, top: nat, w: Page)
    requires Booted(root, tables, top) && LeafOf(root, tables, w) != Unmapped
    ensures var flags := LeafOf(root, tables, w).entry.flags;
      flags.present && flags.write && !flags.user && flags.global
  {
    assert LeafOf(root, tables, w) == WindowLeaf(w, 512, top / LARGE_PAGE_SIZE);
  }
}

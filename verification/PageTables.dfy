/** The four-level page tables of kernel/mm/vmm.c (Intel SDM Volume 3A, section 4.5),
    proved to refine a flat map from page numbers to leaf mappings. */
module PageTables {
  import opened FrameAllocator
  import opened Prelude

  const FRAMES := 0x100_0000_0000          // 2^40 page frames (PTE_ADDR_MASK)
  const LARGE_PAGE_SIZE := 0x20_0000
  const KERNEL_VIRT_BASE := 0xFFFF_FFFF_8000_0000
  const MM_DIRECT_MAP_BASE := 0xFFFF_8000_0000_0000
  const MM_USER_MAX := 0x8000_0000_0000
  const KERNEL_WINDOW := 0x4000_0000

  // ------------------------------------------------------------- entries

  /** The flag bits of an entry that the kernel ever sets. */
  datatype Flags = Flags(present: bool, write: bool, user: bool, pwt: bool, pcd: bool, large: bool, global: bool)

  const NONE := Flags(false, false, false, false, false, false, false)
  const LINK := NONE.(present := true, write := true, user := true)

  function Or(a: Flags, b: Flags): Flags
  {
    Flags(a.present || b.present, a.write || b.write, a.user || b.user, a.pwt || b.pwt, a.pcd || b.pcd,
          a.large || b.large, a.global || b.global)
  }

  /** The low twelve bits the flags stand for. */
  function Word(f: Flags): bv12
  {
    (if f.present then 0x001 else 0) | (if f.write then 0x002 else 0) | (if f.user then 0x004 else 0)
    | (if f.pwt then 0x008 else 0) | (if f.pcd then 0x010 else 0) | (if f.large then 0x080 else 0)
    | (if f.global then 0x100 else 0)
  }

  /** Masking and or-ing entry words is masking and or-ing flags. */
  lemma WordsAreFlags(a: Flags, b: Flags)
    ensures Word(Or(a, b)) == Word(a) | Word(b)
    ensures a.present <==> Word(a) & 0x001 != 0
    ensures a.user <==> Word(a) & 0x004 != 0
    ensures a.large <==> Word(a) & 0x080 != 0
    ensures Word(a) == Word(b) <==> a == b
  {
  }

  /** An entry: its address field (bits 12 to 51) and its flags. */
  datatype Entry = Entry(frame: nat, flags: Flags)

  const ZERO := Entry(0, NONE)

  type Tables = map<nat, seq<Entry>>

  /** What one page number translates to. */
  datatype Leaf = Unmapped | Small(entry: Entry) | Large(entry: Entry)

  // ------------------------------------------------------------- the walk

  type Slot = i: nat | i < 512

  /** A virtual page, as the four table indices its addresses share. */
  datatype Page = Page(i4: Slot, i3: Slot, i2: Slot, i1: Slot)

  /** PML4_INDEX, PDPT_INDEX, PD_INDEX and PT_INDEX. */
  function PageOf(va: nat): Page
  {
    Page(va / 0x80_0000_0000 % 512, va / 0x4000_0000 % 512, va / 0x20_0000 % 512, va / PAGE_SIZE % 512)
  }

  /** The index that page `v` uses in a table of level `k` (4 is the PML4). */
  function Index(k: nat, v: Page): Slot
    requires 1 <= k <= 4
  {
    if k == 4 then v.i4 else if k == 3 then v.i3 else if k == 2 then v.i2 else v.i1
  }

  function Number(v: Page): nat
  {
    v.i1 + 512 * (v.i2 + 512 * (v.i3 + 512 * v.i4))
  }

  /** Each index is a base-512 digit of the address. */
  lemma Digit(x: nat, a: nat)
    requires a == x / 512
    ensures x == 512 * a + x % 512 && x % 512 < 512
  {
  }

  lemma LowPart(x: nat, d: nat, low: nat)
    requires x == 0x10_0000_0000 * d + low && low < 0x10_0000_0000
    ensures x % 0x10_0000_0000 == low
  {
  }

  lemma Shifts(va: nat)
    ensures va / 0x20_0000 == va / PAGE_SIZE / 512
    ensures va / 0x4000_0000 == va / 0x20_0000 / 512
    ensures va / 0x80_0000_0000 == va / 0x4000_0000 / 512
  {
  }

  /** Bits 12 to 47 of an address make its page. */
  lemma PageNumber(va: nat)
    ensures Number(PageOf(va)) == va / PAGE_SIZE % 0x10_0000_0000
  {
    var x, a, b, c := va / PAGE_SIZE, va / 0x20_0000, va / 0x4000_0000, va / 0x80_0000_0000;
    Shifts(va);
    Digit(x, a);
    Digit(a, b);
    Digit(b, c);
    Digit(c, c / 512);
    LowPart(x, c / 512, Number(PageOf(va)));
  }

  predicate Canonical(va: nat)
  {
    va < 0x8000_0000_0000 || 0xFFFF_8000_0000_0000 <= va < TWO_64
  }

  lemma CanonicalNumber(va: nat)
    requires Canonical(va)
    ensures var n := va / PAGE_SIZE % 0x10_0000_0000;
            va / PAGE_SIZE == if n < 0x8_0000_0000 then n else n + 0x10_0000_0000 * 0xFFFF
  {
    var x := va / PAGE_SIZE;
    if va < 0x8000_0000_0000 {
      LowPart(x, 0, x);
    } else {
      LowPart(x, 0xFFFF, x - 0x10_0000_0000 * 0xFFFF);
    }
  }

  /** Canonical addresses share a page exactly when they differ in the low bits only. */
  lemma CanonicalPages(a: nat, b: nat)
    requires Canonical(a) && Canonical(b)
    ensures PageOf(a) == PageOf(b) <==> a / PAGE_SIZE == b / PAGE_SIZE
  {
    if PageOf(a) == PageOf(b) {
      PageNumber(a);
      PageNumber(b);
      CanonicalNumber(a);
      CanonicalNumber(b);
    }
    if a / PAGE_SIZE == b / PAGE_SIZE {
      SamePageNumber(a, b);
    }
  }

  lemma SamePageNumber(a: nat, b: nat)
    requires a / PAGE_SIZE == b / PAGE_SIZE
    ensures PageOf(a) == PageOf(b)
  {
    Shifts(a);
    Shifts(b);
  }

  /** Whether an entry of a level-k table leads to a table of level k - 1. */
  predicate Points(k: nat, e: Entry)
  {
    k >= 2 && e.flags.present && !(k == 2 && e.flags.large)
  }

  function EntryAt(tables: Tables, f: nat, i: nat): Entry
  {
    if f in tables && i < |tables[f]| then tables[f][i] else ZERO
  }

  /** The level-k table on the path of page `v`, if the path gets that far. */
  function TableAt(root: nat, tables: Tables, k: nat, v: Page): Option<nat>
    requires 1 <= k <= 4
    decreases 4 - k
  {
    if k == 4 then Some(root)
    else match TableAt(root, tables, k + 1, v)
      case None => None
      case Some(f) =>
        var e := EntryAt(tables, f, Index(k + 1, v));
        if Points(k + 1, e) then Some(e.frame) else None
  }

  function LeafOf(root: nat, tables: Tables, v: Page): Leaf
  {
    match TableAt(root, tables, 1, v)
    case Some(pt) =>
      var e := EntryAt(tables, pt, Index(1, v));
      if e.flags.present then Small(e) else Unmapped
    case None =>
      match TableAt(root, tables, 2, v)
      case None => Unmapped
      case Some(pd) =>
        var e := EntryAt(tables, pd, Index(2, v));
        if e.flags.present && e.flags.large then Large(e) else Unmapped
  }

  /** No page translates differently. */
  ghost predicate SameTranslation(root: nat, before: Tables, after: Tables)
  {
    forall w {:trigger LeafOf(root, after, w)} :: LeafOf(root, after, w) == LeafOf(root, before, w)
  }

  /** The physical address of `va` under its page's leaf. */
  function Phys(leaf: Leaf, va: nat): nat
  {
    match leaf
    case Unmapped => INVALID_PHYS
    case Small(e) => e.frame * PAGE_SIZE + va % PAGE_SIZE
    case Large(e) => e.frame * PAGE_SIZE / LARGE_PAGE_SIZE * LARGE_PAGE_SIZE + va % LARGE_PAGE_SIZE
  }

  // ------------------------------------------------------------ the tree

  ghost predicate EntryOk(tables: Tables, level: map<nat, nat>, parent: map<nat, (nat, nat)>, f: nat, i: nat)
    requires f in tables && f in level && i < |tables[f]|
  {
    var e, k := tables[f][i], level[f];
    && e.frame < FRAMES
    && (k >= 3 ==> !e.flags.large)
    && (k == 2 && e.flags.large ==> e.flags.present)
    && (Points(k, e) ==>
          && e.frame in tables && e.frame in level && e.frame in parent
          && level[e.frame] == k - 1 && parent[e.frame] == (f, i)
          && e.flags.write && e.flags.user)
  }

  ghost predicate Linked(tables: Tables, level: map<nat, nat>, parent: map<nat, (nat, nat)>, t: nat)
    requires t in parent
  {
    var f, i := parent[t].0, parent[t].1;
    f in tables && f in level && i < |tables[f]| && Points(level[f], tables[f][i]) && tables[f][i].frame == t
  }

  /** The live tables form a tree: levels decrease along entries, no two entries lead
      to one table, nothing leads to the root, and every other table is led to. The
      write and user bits of inner entries are set, so leaves alone decide access. */
  ghost predicate Tree(root: nat, tables: Tables, level: map<nat, nat>, parent: map<nat, (nat, nat)>)
  {
    && root in tables && level.Keys == tables.Keys && parent.Keys == tables.Keys - {root}
    && level[root] == 4
    && (forall f :: f in tables ==> |tables[f]| == 512 && 1 <= level[f] <= 4 && (level[f] == 4 ==> f == root))
    && (forall f, i :: f in tables && 0 <= i < 512 ==> EntryOk(tables, level, parent, f, i))
    && (forall t :: t in parent ==> Linked(tables, level, parent, t))
  }

  lemma {:induction false} TableAtLevel(root: nat, tables: Tables, level: map<nat, nat>, parent: map<nat, (nat, nat)>,
                                        k: nat, v: Page)
    requires 1 <= k <= 4 && Tree(root, tables, level, parent)
    ensures var t := TableAt(root, tables, k, v); t.Some? ==> t.value in tables && level[t.value] == k
    decreases 4 - k
  {
    if k < 4 {
      TableAtLevel(root, tables, level, parent, k + 1, v);
      var t := TableAt(root, tables, k + 1, v);
      if t.Some? {
        assert EntryOk(tables, level, parent, t.value, Index(k + 1, v));
      }
    }
  }

  /** Separation: two pages that meet in one table came there by the same indices. */
  lemma {:induction false} SamePath(root: nat, tables: Tables, level: map<nat, nat>, parent: map<nat, (nat, nat)>,
                                    k: nat, v: Page, w: Page)
    requires 1 <= k <= 4 && Tree(root, tables, level, parent)
    requires TableAt(root, tables, k, v).Some? && TableAt(root, tables, k, v) == TableAt(root, tables, k, w)
    ensures forall j :: k < j <= 4 ==> Index(j, v) == Index(j, w)
    decreases 4 - k
  {
    if k < 4 {
      TableAtLevel(root, tables, level, parent, k + 1, v);
      TableAtLevel(root, tables, level, parent, k + 1, w);
      var f, g := TableAt(root, tables, k + 1, v).value, TableAt(root, tables, k + 1, w).value;
      assert EntryOk(tables, level, parent, f, Index(k + 1, v));
      assert EntryOk(tables, level, parent, g, Index(k + 1, w));
      SamePath(root, tables, level, parent, k + 1, v, w);
    }
  }

  lemma {:induction false} NoneBelow(root: nat, tables: Tables, j: nat, k: nat, v: Page)
    requires 1 <= j <= k <= 4 && TableAt(root, tables, k, v) == None
    ensures TableAt(root, tables, j, v) == None
    decreases k - j
  {
    if j < k {
      NoneBelow(root, tables, j + 1, k, v);
    }
  }

  /** Whether the path of page `w` runs through slot (f, i) of a table. */
  ghost predicate Through(root: nat, tables: Tables, k: nat, f: nat, i: nat, w: Page)
    requires 1 <= k <= 4
  {
    TableAt(root, tables, k, w) == Some(f) && Index(k, w) == i
  }

  /** `after` has the tables of `before`, possibly more, and differs in slot (f, i) at most. */
  ghost predicate SameExcept(before: Tables, after: Tables, f: nat, i: nat)
  {
    forall g :: g in before ==>
      && g in after && |after[g]| == |before[g]|
      && forall x :: 0 <= x < |before[g]| && (g != f || x != i) ==> after[g][x] == before[g][x]
  }

  /** Frame rule: a write to one slot leaves every path that avoids the slot alone,
      and every path down to the level of the slot. */
  lemma {:induction false} PathUnchanged(root: nat, before: Tables, level: map<nat, nat>, parent: map<nat, (nat, nat)>,
                                         after: Tables, f: nat, i: nat, k: nat, w: Page)
    requires 1 <= k <= 4 && Tree(root, before, level, parent) && f in before
    requires SameExcept(before, after, f, i)
    requires k >= level[f] || !Through(root, before, level[f], f, i, w)
    ensures TableAt(root, after, k, w) == TableAt(root, before, k, w)
    decreases 4 - k
  {
    if k < 4 {
      PathUnchanged(root, before, level, parent, after, f, i, k + 1, w);
      TableAtLevel(root, before, level, parent, k + 1, w);
    }
  }

  lemma LeafUnchanged(root: nat, before: Tables, level: map<nat, nat>, parent: map<nat, (nat, nat)>,
                      after: Tables, f: nat, i: nat, w: Page)
    requires Tree(root, before, level, parent) && f in before
    requires SameExcept(before, after, f, i)
    requires !Through(root, before, level[f], f, i, w)
    ensures LeafOf(root, after, w) == LeafOf(root, before, w)
  {
    PathUnchanged(root, before, level, parent, after, f, i, 1, w);
    PathUnchanged(root, before, level, parent, after, f, i, 2, w);
    TableAtLevel(root, before, level, parent, 1, w);
    TableAtLevel(root, before, level, parent, 2, w);
  }

  // ------------------------------------------------ linking a fresh table

  function EmptyTable(): (t: seq<Entry>)
    ensures |t| == 512 && forall i :: 0 <= i < 512 ==> t[i] == ZERO
  {
    seq(512, _ => ZERO)
  }

  ghost function Link(tables: Tables, f: nat, i: nat, t: nat): Tables
    requires f in tables && i < |tables[f]|
  {
    tables[t := EmptyTable()][f := tables[f][i := Entry(t, LINK)]]
  }

  lemma LinkKeepsTree(root: nat, tables: Tables, level: map<nat, nat>, parent: map<nat, (nat, nat)>,
                      f: nat, i: nat, t: nat)
    requires Tree(root, tables, level, parent)
    requires f in tables && i < 512 && level[f] >= 2 && !tables[f][i].flags.present
    requires t !in tables && t < FRAMES
    ensures Tree(root, Link(tables, f, i, t), level[t := level[f] - 1], parent[t := (f, i)])
  {
    var tables', level', parent' := Link(tables, f, i, t), level[t := level[f] - 1], parent[t := (f, i)];
    forall g, x | g in tables' && 0 <= x < 512
      ensures EntryOk(tables', level', parent', g, x)
    {
      if g != t && (g != f || x != i) {
        assert EntryOk(tables, level, parent, g, x);
      }
    }
    forall u | u in parent'
      ensures Linked(tables', level', parent', u)
    {
      if u != t {
        assert Linked(tables, level, parent, u);
      }
    }
  }

  /** A fresh empty table under an absent entry translates nothing new. */
  lemma LinkKeepsLeaves(root: nat, tables: Tables, level: map<nat, nat>, parent: map<nat, (nat, nat)>,
                        f: nat, i: nat, t: nat, w: Page)
    requires Tree(root, tables, level, parent)
    requires f in tables && i < 512 && level[f] >= 2 && !tables[f][i].flags.present
    requires t !in tables && t < FRAMES
    ensures LeafOf(root, Link(tables, f, i, t), w) == LeafOf(root, tables, w)
  {
    var after, k := Link(tables, f, i, t), level[f];
    if Through(root, tables, k, f, i, w) {
      assert EntryOk(tables, level, parent, f, i);
      assert TableAt(root, tables, k - 1, w) == None;
      NoneBelow(root, tables, 1, k - 1, w);
      PathUnchanged(root, tables, level, parent, after, f, i, k, w);
      assert TableAt(root, after, k - 1, w) == Some(t);
      if k == 3 {
        assert TableAt(root, after, 1, w) == None;
      } else if k == 4 {
        assert TableAt(root, after, 2, w) == None;
        NoneBelow(root, after, 1, 2, w);
        NoneBelow(root, tables, 2, 3, w);
      }
    } else {
      LeafUnchanged(root, tables, level, parent, after, f, i, w);
    }
  }

  /** What linking a fresh table does, in one place. */
  lemma LinkEffect(root: nat, tables: Tables, level: map<nat, nat>, parent: map<nat, (nat, nat)>,
                   f: nat, i: nat, t: nat, v: Page)
    requires Tree(root, tables, level, parent)
    requires f in tables && i < 512 && level[f] >= 2 && !tables[f][i].flags.present
    requires t !in tables && t < FRAMES
    requires Through(root, tables, level[f], f, i, v)
    ensures Tree(root, Link(tables, f, i, t), level[t := level[f] - 1], parent[t := (f, i)])
    ensures SameTranslation(root, tables, Link(tables, f, i, t))
    ensures TableAt(root, Link(tables, f, i, t), level[f] - 1, v) == Some(t)
  {
    LinkKeepsTree(root, tables, level, parent, f, i, t);
    forall w: Page
      ensures LeafOf(root, Link(tables, f, i, t), w) == LeafOf(root, tables, w)
    {
      LinkKeepsLeaves(root, tables, level, parent, f, i, t, w);
    }
    PathUnchanged(root, tables, level, parent, Link(tables, f, i, t), f, i, level[f], v);
  }

  // -------------------------------------------- writing an entry in place

  ghost function Put(tables: Tables, f: nat, i: nat, e: Entry): Tables
    requires f in tables && i < |tables[f]|
  {
    tables[f := tables[f][i := e]]
  }

  lemma PutKeepsTree(root: nat, tables: Tables, level: map<nat, nat>, parent: map<nat, (nat, nat)>,
                     f: nat, i: nat, e: Entry)
    requires Tree(root, tables, level, parent)
    requires f in tables && i < 512 && level[f] <= 2 && e.frame < FRAMES
    requires level[f] == 2 ==> e.flags.large && e.flags.present && !Points(2, tables[f][i])
    ensures Tree(root, Put(tables, f, i, e), level, parent)
  {
    var tables' := Put(tables, f, i, e);
    forall g, x | g in tables' && 0 <= x < 512
      ensures EntryOk(tables', level, parent, g, x)
    {
      assert EntryOk(tables, level, parent, g, x);
    }
    forall u | u in parent
      ensures Linked(tables', level, parent, u)
    {
      assert Linked(tables, level, parent, u);
    }
  }

  /** A level-1 write changes the leaf of exactly one page. */
  lemma SmallPut(root: nat, tables: Tables, level: map<nat, nat>, parent: map<nat, (nat, nat)>,
                 pt: nat, e: Entry, v: Page, w: Page)
    requires Tree(root, tables, level, parent)
    requires TableAt(root, tables, 1, v) == Some(pt) && pt in tables && level[pt] == 1
    ensures LeafOf(root, Put(tables, pt, Index(1, v), e), w)
         == if w == v then (if e.flags.present then Small(e) else Unmapped) else LeafOf(root, tables, w)
  {
    var i := Index(1, v);
    var after := Put(tables, pt, i, e);
    if Through(root, tables, 1, pt, i, w) {
      SamePath(root, tables, level, parent, 1, v, w);
      assert forall j :: 2 <= j <= 4 ==> Index(j, v) == Index(j, w);
      assert Index(4, v) == Index(4, w) && Index(3, v) == Index(3, w) && Index(2, v) == Index(2, w);
      PathUnchanged(root, tables, level, parent, after, pt, i, 1, v);
    } else {
      LeafUnchanged(root, tables, level, parent, after, pt, i, w);
    }
  }

  /** From one state to a later one: frames in use stay in use, new tables were free frames. */
  predicate FreeTaken(wasTables: Tables, wasUsed: seq<bool>, tables: Tables, used: seq<bool>)
  {
    && |used| == |wasUsed| && (forall f :: 0 <= f < |wasUsed| && wasUsed[f] ==> used[f])
    && (forall t :: t in tables && t !in wasTables ==> t < |wasUsed| && !wasUsed[t])
  }

  /** Besides, tables stay and every frame taken since is a new table. */
  predicate TablesTaken(wasTables: Tables, wasUsed: seq<bool>, tables: Tables, used: seq<bool>)
  {
    && FreeTaken(wasTables, wasUsed, tables, used)
    && (forall t :: t in wasTables ==> t in tables)
    && (forall f :: 0 <= f < |used| && used[f] && !wasUsed[f] ==> f in tables)
  }

  lemma TakenChain(t0: Tables, u0: seq<bool>, t1: Tables, u1: seq<bool>, t2: Tables, u2: seq<bool>)
    requires TablesTaken(t0, u0, t1, u1) && TablesTaken(t1, u1, t2, u2)
    ensures TablesTaken(t0, u0, t2, u2)
  {
  }

  /** Every page has the page table it had. */
  ghost predicate SameTables(root: nat, before: Tables, after: Tables)
  {
    forall w {:trigger TableAt(root, after, 1, w)} :: TableAt(root, after, 1, w) == TableAt(root, before, 1, w)
  }

  /** `after` translates page `v` to `leaf` and every other page as `before` does. */
  ghost predicate OnlyPageChanged(root: nat, before: Tables, after: Tables, v: Page, leaf: Leaf)
  {
    forall w {:trigger LeafOf(root, after, w)} ::
      LeafOf(root, after, w) == if w == v then leaf else LeafOf(root, before, w)
  }

  /** A page-table entry leads to no table. */
  lemma SmallPutTables(root: nat, tables: Tables, level: map<nat, nat>, parent: map<nat, (nat, nat)>, pt: nat, e: Entry,
                       v: Page)
    requires Tree(root, tables, level, parent) && TableAt(root, tables, 1, v) == Some(pt)
    ensures pt in tables && |tables[pt]| == 512
    ensures SameTables(root, tables, Put(tables, pt, Index(1, v), e))
  {
    TableAtLevel(root, tables, level, parent, 1, v);
    forall w ensures TableAt(root, Put(tables, pt, Index(1, v), e), 1, w) == TableAt(root, tables, 1, w) {
      PathUnchanged(root, tables, level, parent, Put(tables, pt, Index(1, v), e), pt, Index(1, v), 1, w);
    }
  }

  lemma SmallPutEffect(root: nat, tables: Tables, level: map<nat, nat>, parent: map<nat, (nat, nat)>,
                       pt: nat, e: Entry, v: Page)
    requires Tree(root, tables, level, parent) && e.frame < FRAMES
    requires TableAt(root, tables, 1, v) == Some(pt)
    ensures pt in tables && |tables[pt]| == 512
    ensures Tree(root, Put(tables, pt, Index(1, v), e), level, parent)
    ensures OnlyPageChanged(root, tables, Put(tables, pt, Index(1, v), e), v,
                            if e.flags.present then Small(e) else Unmapped)
  {
    TableAtLevel(root, tables, level, parent, 1, v);
    PutKeepsTree(root, tables, level, parent, pt, Index(1, v), e);
    forall w: Page
      ensures LeafOf(root, Put(tables, pt, Index(1, v), e), w)
           == if w == v then (if e.flags.present then Small(e) else Unmapped) else LeafOf(root, tables, w)
    {
      SmallPut(root, tables, level, parent, pt, e, v, w);
    }
  }

  predicate SameLargePage(v: Page, w: Page)
  {
    v.i4 == w.i4 && v.i3 == w.i3 && v.i2 == w.i2
  }

  /** A 2 MiB write changes the leaves of exactly the 512 pages it covers. */
  lemma LargePut(root: nat, tables: Tables, level: map<nat, nat>, parent: map<nat, (nat, nat)>,
                 pd: nat, e: Entry, v: Page, w: Page)
    requires Tree(root, tables, level, parent)
    requires TableAt(root, tables, 2, v) == Some(pd) && pd in tables && level[pd] == 2
    requires e.flags.large && e.flags.present && e.frame < FRAMES && !Points(2, tables[pd][Index(2, v)])
    ensures LeafOf(root, Put(tables, pd, Index(2, v), e), w)
         == if SameLargePage(v, w) then Large(e) else LeafOf(root, tables, w)
  {
    var i := Index(2, v);
    var after := Put(tables, pd, i, e);
    PutKeepsTree(root, tables, level, parent, pd, i, e);
    if SameLargePage(v, w) {
      SamePathDown(root, tables, 2, v, w);
    }
    if Through(root, tables, 2, pd, i, w) {
      SamePath(root, tables, level, parent, 2, v, w);
      assert forall j :: 2 <= j <= 4 ==> Index(j, v) == Index(j, w);
      assert Index(4, v) == Index(4, w) && Index(3, v) == Index(3, w) && Index(2, v) == Index(2, w);
      PathUnchanged(root, tables, level, parent, after, pd, i, 2, w);
      assert TableAt(root, after, 1, w) == None;
    } else {
      LeafUnchanged(root, tables, level, parent, after, pd, i, w);
    }
  }

  /** `after` maps the 2 MiB around page `v` with `e`, and the rest as `before`. */
  ghost predicate LargeMapped(root: nat, before: Tables, after: Tables, v: Page, e: Entry)
  {
    forall w {:trigger LeafOf(root, after, w)} ::
      LeafOf(root, after, w) == if SameLargePage(w, v) then Large(e) else LeafOf(root, before, w)
  }

  lemma LargePutEffect(root: nat, tables: Tables, level: map<nat, nat>, parent: map<nat, (nat, nat)>,
                       pd: nat, e: Entry, v: Page)
    requires Tree(root, tables, level, parent)
    requires TableAt(root, tables, 2, v) == Some(pd) && TableAt(root, tables, 1, v) == None
    requires e.flags.large && e.flags.present && e.frame < FRAMES
    ensures pd in tables && |tables[pd]| == 512
    ensures Tree(root, Put(tables, pd, Index(2, v), e), level, parent)
    ensures LargeMapped(root, tables, Put(tables, pd, Index(2, v), e), v, e)
  {
    TableAtLevel(root, tables, level, parent, 2, v);
    PutKeepsTree(root, tables, level, parent, pd, Index(2, v), e);
    forall w: Page
      ensures LeafOf(root, Put(tables, pd, Index(2, v), e), w)
           == if SameLargePage(w, v) then Large(e) else LeafOf(root, tables, w)
    {
      LargePut(root, tables, level, parent, pd, e, v, w);
    }
  }

  lemma {:induction false} SamePathDown(root: nat, tables: Tables, k: nat, v: Page, w: Page)
    requires 1 <= k <= 4 && forall j :: k < j <= 4 ==> Index(j, v) == Index(j, w)
    ensures TableAt(root, tables, k, v) == TableAt(root, tables, k, w)
    decreases 4 - k
  {
    if k < 4 {
      SamePathDown(root, tables, k + 1, v, w);
    }
  }
}

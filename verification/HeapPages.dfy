/** Growths of the pool on values: the frames one takes, what it maps, and what it takes away
    from an earlier one that failed midway. */
module HeapPages {
  import opened FrameAllocator
  import opened PageTables
  import PoolBlocks
  import opened Prelude

  /** How the loop of pool_grow ends: with every page, without a frame for the next one, with
      a frame whose mapping is refused, or with the machine stopped for want of a table. */
  datatype Growth = Committed | OutOfFrames | MapRefused | Stopped

  const HEAP_FLAGS := NONE.(present := true, write := true)

  function HeapPage(start: nat, i: nat): Page
  {
    PageOf(start + i * PAGE_SIZE)
  }

  /** Whole pages of the upper half of the address space. */
  predicate HeapRange(start: nat, pages: nat)
  {
    start % PAGE_SIZE == 0 && 0xFFFF_8000_0000_0000 <= start && start + pages * PAGE_SIZE <= TWO_64
  }

  lemma PagesDiffer(start: nat, pages: nat, i: nat, j: nat)
    requires HeapRange(start, pages) && i < pages && j < pages && i != j
    ensures HeapPage(start, i) != HeapPage(start, j)
  {
    var a, b := start + i * PAGE_SIZE, start + j * PAGE_SIZE;
    CanonicalPages(a, b);
    assert a / PAGE_SIZE == start / PAGE_SIZE + i && b / PAGE_SIZE == start / PAGE_SIZE + j;
  }

  /** Page i of the range is mapped to frames[i]. */
  ghost predicate Backed(root: nat, tables: Tables, start: nat, frames: seq<nat>)
  {
    forall i :: 0 <= i < |frames| ==> LeafOf(root, tables, HeapPage(start, i)) == Small(Entry(frames[i], HEAP_FLAGS))
  }

  /** Byte by byte, the range is its frames one after the other. */
  lemma HeapByte(root: nat, tables: Tables, start: nat, frames: seq<nat>, a: nat)
    requires HeapRange(start, |frames|) && Backed(root, tables, start, frames)
    requires start <= a < start + |frames| * PAGE_SIZE
    ensures Phys(LeafOf(root, tables, PageOf(a)), a)
         == frames[(a - start) / PAGE_SIZE] * PAGE_SIZE + (a - start) % PAGE_SIZE
  {
    var i := (a - start) / PAGE_SIZE;
    SamePageNumber(a, start + i * PAGE_SIZE);
  }

  /** Frames in use that are no tables. */
  predicate Owned(tables: Tables, used: seq<bool>, frames: seq<nat>)
  {
    forall i :: 0 <= i < |frames| ==> frames[i] < |used| && used[frames[i]] && frames[i] !in tables
  }

  predicate InRange(start: nat, n: nat, w: Page)
  {
    exists i :: 0 <= i < n && w == HeapPage(start, i)
  }

  lemma RangeGrows(start: nat, n: nat, w: Page)
    ensures InRange(start, n + 1, w) <==> InRange(start, n, w) || w == HeapPage(start, n)
  {
    if InRange(start, n, w) {
      var i :| 0 <= i < n && w == HeapPage(start, i);
      assert 0 <= i < n + 1 && w == HeapPage(start, i);
    }
    if w == HeapPage(start, n) {
      assert 0 <= n < n + 1 && w == HeapPage(start, n);
    }
  }

  /** Page tables are in place for every page of the range. */
  ghost predicate Tabled(root: nat, tables: Tables, start: nat, pages: nat)
  {
    forall i :: 0 <= i < pages ==> TableAt(root, tables, 1, HeapPage(start, i)).Some?
  }

  /** One frame was taken, and tables. */
  predicate PageTaken(t0: Tables, u0: seq<bool>, t1: Tables, u1: seq<bool>, frame: nat)
  {
    frame < |u0| && !u0[frame] && frame !in t1 && TablesTaken(t0, u0[frame := true], t1, u1)
  }

  /** The frames in use now are those that were, the `taken` ones, and new tables; the
      taken ones were free and are no tables. */
  predicate Spent(t0: Tables, u0: seq<bool>, t1: Tables, u1: seq<bool>, taken: seq<nat>)
  {
    && |u1| == |u0| && NoDup(taken)
    && (forall t :: t in t0 ==> t in t1)
    && (forall t :: t in t1 && t !in t0 ==> t < |u0| && !u0[t])
    && (forall i :: 0 <= i < |taken| ==> taken[i] < |u0| && !u0[taken[i]] && taken[i] !in t1)
    && (forall f :: 0 <= f < |u0| ==> (u1[f] <==> u0[f] || f in taken || f in t1))
  }

  predicate TablesUsed(tables: Tables, used: seq<bool>)
  {
    forall t :: t in tables ==> t < |used| && used[t]
  }

  lemma SpentMore(t0: Tables, u0: seq<bool>, t1: Tables, u1: seq<bool>, t2: Tables, u2: seq<bool>, taken: seq<nat>,
                  frame: nat)
    requires Spent(t0, u0, t1, u1, taken) && PageTaken(t1, u1, t2, u2, frame) && TablesUsed(t2, u2)
    ensures Spent(t0, u0, t2, u2, taken + [frame])
  {
    forall f | 0 <= f < |u0| ensures u2[f] <==> u0[f] || f in taken + [frame] || f in t2 {
    }
    forall i | 0 <= i < |taken| ensures taken[i] !in t2 && taken[i] != frame {
      assert taken[i] in taken;
    }
  }

  /** What a growth has done: `taken` are the frames it took for pages, the first `done` of
      them are mapped to the first pages of the range, and no other page changed. */
  ghost predicate Grew(root: nat, t0: Tables, u0: seq<bool>, t1: Tables, u1: seq<bool>, start: nat, done: nat,
                       taken: seq<nat>)
  {
    && Spent(t0, u0, t1, u1, taken) && done <= |taken| && Backed(root, t1, start, taken[..done])
    && (forall w {:trigger LeafOf(root, t1, w)} ::
          !InRange(start, done, w) ==> LeafOf(root, t1, w) == LeafOf(root, t0, w))
  }

  /** One more page: a frame that was free until now, mapped next. */
  lemma GrewMore(root: nat, t0: Tables, u0: seq<bool>, t1: Tables, u1: seq<bool>, t2: Tables, u2: seq<bool>, start: nat,
                 pages: nat, done: nat, taken: seq<nat>, frame: nat)
    requires HeapRange(start, pages) && |taken| == done < pages && Grew(root, t0, u0, t1, u1, start, done, taken)
    requires PageTaken(t1, u1, t2, u2, frame) && TablesUsed(t2, u2)
    requires OnlyPageChanged(root, t1, t2, HeapPage(start, done), Small(Entry(frame, HEAP_FLAGS)))
    ensures Grew(root, t0, u0, t2, u2, start, done + 1, taken + [frame])
  {
    SpentMore(t0, u0, t1, u1, t2, u2, taken, frame);
    var more := taken + [frame];
    assert more[..done + 1] == more && taken[..done] == taken;
    forall i | 0 <= i < |more|
      ensures LeafOf(root, t2, HeapPage(start, i)) == Small(Entry(more[i], HEAP_FLAGS))
    {
      if i < done {
        PagesDiffer(start, pages, i, done);
      }
    }
    forall w | !InRange(start, done + 1, w) ensures LeafOf(root, t2, w) == LeafOf(root, t0, w) {
      RangeGrows(start, done, w);
    }
  }

  /** A round that takes a frame and maps nothing: the frame is taken all the same. */
  lemma GrewWasted(root: nat, t0: Tables, u0: seq<bool>, t1: Tables, u1: seq<bool>, t2: Tables, u2: seq<bool>,
                   start: nat, done: nat, taken: seq<nat>, frame: nat)
    requires |taken| == done && Grew(root, t0, u0, t1, u1, start, done, taken)
    requires PageTaken(t1, u1, t2, u2, frame) && TablesUsed(t2, u2) && SameTranslation(root, t1, t2)
    ensures Grew(root, t0, u0, t2, u2, start, done, taken + [frame])
  {
    SpentMore(t0, u0, t1, u1, t2, u2, taken, frame);
    assert (taken + [frame])[..done] == taken[..done];
  }

  lemma HeapEntry(phys: nat)
    requires phys / PAGE_SIZE < FRAMES
    ensures Entry(phys / PAGE_SIZE % FRAMES, Or(NONE.(write := true), NONE.(present := true)))
         == Entry(phys / PAGE_SIZE, HEAP_FLAGS)
  {
  }

  /** What an attempt to map one page does: the page is mapped, or nothing changed; it is
      refused exactly where a large page is. */
  ghost predicate Attempted(result: Growth, root: nat, t0: Tables, t1: Tables, v: Page, frame: nat)
  {
    && (if result == Committed then OnlyPageChanged(root, t0, t1, v, Small(Entry(frame, HEAP_FLAGS)))
        else SameTranslation(root, t0, t1))
    && (result == MapRefused <==> LeafOf(root, t0, v).Large?)
  }

  /** With its page table in place, a page costs its frame and nothing more. */
  ghost predicate Cheap(result: Growth, root: nat, t0: Tables, t1: Tables, v: Page, before: nat, after: nat)
  {
    TableAt(root, t0, 1, v).Some? ==> result == Committed && SameTables(root, t0, t1) && after == before
  }

  /** With page tables in place, a growth commits as many pages as frames are free, and only
      the want of a frame ends it. */
  ghost predicate Affordable(result: Growth, root: nat, t0: Tables, t1: Tables, start: nat, pages: nat, done: nat,
                             before: nat, after: nat)
  {
    Tabled(root, t0, start, pages) ==>
      && result in {Committed, OutOfFrames} && Tabled(root, t1, start, pages)
      && done == (if pages <= before then pages else before) && after == before - done
  }

  /** Midway: every page so far has cost one frame. */
  ghost predicate OnBudget(root: nat, t0: Tables, t1: Tables, start: nat, pages: nat, done: nat, before: nat,
                           after: nat)
  {
    Tabled(root, t0, start, pages) ==> Tabled(root, t1, start, pages) && after == before - done
  }

  lemma BudgetMore(result: Growth, root: nat, t0: Tables, t1: Tables, t2: Tables, start: nat, pages: nat, done: nat,
                   free0: nat, free1: nat, free2: nat)
    requires OnBudget(root, t0, t1, start, pages, done, free0, free1) && done < pages && free1 > 0
    requires Cheap(result, root, t1, t2, HeapPage(start, done), free1 - 1, free2)
    ensures OnBudget(root, t0, t2, start, pages, done + 1, free0, free2)
    ensures Tabled(root, t0, start, pages) ==> result == Committed
  {
    if Tabled(root, t0, start, pages) {
      assert TableAt(root, t1, 1, HeapPage(start, done)).Some?;
    }
  }

  lemma NotYet(start: nat, pages: nat, n: nat)
    requires HeapRange(start, pages) && n < pages
    ensures !InRange(start, n, HeapPage(start, n))
  {
    forall i | 0 <= i < n ensures HeapPage(start, i) != HeapPage(start, n) {
      PagesDiffer(start, pages, i, n);
    }
  }

  /** One round that has a frame. */
  lemma Round(result: Growth, root: nat, t0: Tables, u0: seq<bool>, t1: Tables, u1: seq<bool>, t2: Tables,
              u2: seq<bool>, start: nat, pages: nat, done: nat, taken: seq<nat>, frame: nat)
    requires HeapRange(start, pages) && |taken| == done < pages && Grew(root, t0, u0, t1, u1, start, done, taken)
    requires PageTaken(t1, u1, t2, u2, frame) && TablesUsed(t2, u2)
    requires Attempted(result, root, t1, t2, HeapPage(start, done), frame)
    ensures Grew(root, t0, u0, t2, u2, start, if result == Committed then done + 1 else done, taken + [frame])
    ensures result == MapRefused <==> LeafOf(root, t0, HeapPage(start, done)).Large?
  {
    NotYet(start, pages, done);
    assert LeafOf(root, t1, HeapPage(start, done)) == LeafOf(root, t0, HeapPage(start, done));
    if result == Committed {
      GrewMore(root, t0, u0, t1, u1, t2, u2, start, pages, done, taken, frame);
    } else {
      GrewWasted(root, t0, u0, t1, u1, t2, u2, start, done, taken, frame);
    }
  }

  /** A small page maps the frame. */
  ghost predicate Maps(root: nat, tables: Tables, w: Page, frame: nat)
  {
    LeafOf(root, tables, w).Small? && LeafOf(root, tables, w).entry.frame == frame
  }

  /** A growth takes from a frame in use exactly its mappings in the pages it commits. */
  lemma MapsAfter(root: nat, t0: Tables, u0: seq<bool>, t1: Tables, u1: seq<bool>, start: nat, done: nat,
                  taken: seq<nat>, frame: nat, w: Page)
    requires Grew(root, t0, u0, t1, u1, start, done, taken) && frame < |u0| && u0[frame]
    ensures Maps(root, t1, w, frame) <==> Maps(root, t0, w, frame) && !InRange(start, done, w)
  {
    if InRange(start, done, w) {
      var i :| 0 <= i < done && w == HeapPage(start, i);
      assert LeafOf(root, t1, HeapPage(start, i)) == Small(Entry(taken[..done][i], HEAP_FLAGS));
      assert !u0[taken[i]];
    }
  }

  /** The frame of a round that mapped nothing is in use, is no table, and no page maps it
      that did not before. */
  lemma WastedFrame(root: nat, t0: Tables, u0: seq<bool>, t1: Tables, u1: seq<bool>, start: nat, done: nat,
                    taken: seq<nat>, w: Page)
    requires Grew(root, t0, u0, t1, u1, start, done, taken) && |taken| == done + 1
    ensures taken[done] < |u0| && !u0[taken[done]] && u1[taken[done]] && taken[done] !in t1
    ensures Maps(root, t1, w, taken[done]) ==> Maps(root, t0, w, taken[done]) && !InRange(start, done, w)
  {
    assert taken[done] in taken;
    if InRange(start, done, w) {
      var i :| 0 <= i < done && w == HeapPage(start, i);
      assert LeafOf(root, t1, HeapPage(start, i)) == Small(Entry(taken[..done][i], HEAP_FLAGS));
    }
  }

  /** Some page of the range is mapped to the frame. */
  ghost predicate StillThere(root: nat, tables: Tables, start: nat, pages: nat, frame: nat)
  {
    exists j :: 0 <= j < pages && LeafOf(root, tables, HeapPage(start, j)) == Small(Entry(frame, HEAP_FLAGS))
  }

  /** Of the frames that an earlier growth left mapped from the same start, exactly the first
      `n` have lost their mapping; the others are mapped where they were, and all are in use. */
  ghost predicate FirstLost(root: nat, tables: Tables, used: seq<bool>, start: nat, left: seq<nat>, n: nat)
  {
    && Owned(tables, used, left)
    && (forall i :: 0 <= i < |left| ==> (StillThere(root, tables, start, |left|, left[i]) <==> i >= n))
    && (forall i :: n <= i < |left| ==>
          LeafOf(root, tables, HeapPage(start, i)) == Small(Entry(left[i], HEAP_FLAGS)))
  }

  lemma LostExactly(root: nat, t0: Tables, u0: seq<bool>, t1: Tables, u1: seq<bool>, start: nat, done: nat,
                    taken: seq<nat>, left: seq<nat>)
    requires HeapRange(start, |left|) && HeapRange(start, done) && NoDup(left)
    requires Owned(t0, u0, left) && Backed(root, t0, start, left) && Grew(root, t0, u0, t1, u1, start, done, taken)
    ensures FirstLost(root, t1, u1, start, left, done)
  {
    forall i | 0 <= i < |left| ensures StillThere(root, t1, start, |left|, left[i]) <==> i >= done {
      if i >= done {
        Above(root, t0, u0, t1, u1, start, done, taken, left, i);
      }
      if StillThere(root, t1, start, |left|, left[i]) {
        var j :| 0 <= j < |left| && LeafOf(root, t1, HeapPage(start, j)) == Small(Entry(left[i], HEAP_FLAGS));
        MapsAfter(root, t0, u0, t1, u1, start, done, taken, left[i], HeapPage(start, j));
        assert LeafOf(root, t0, HeapPage(start, j)) == Small(Entry(left[j], HEAP_FLAGS));
        assert i == j && !InRange(start, done, HeapPage(start, j));
      }
    }
    forall i | done <= i < |left|
      ensures LeafOf(root, t1, HeapPage(start, i)) == Small(Entry(left[i], HEAP_FLAGS))
    {
      Above(root, t0, u0, t1, u1, start, done, taken, left, i);
    }
  }

  /** A page above the committed ones is as it was. */
  lemma Above(root: nat, t0: Tables, u0: seq<bool>, t1: Tables, u1: seq<bool>, start: nat, done: nat,
              taken: seq<nat>, left: seq<nat>, i: nat)
    requires HeapRange(start, |left|) && done <= i < |left|
    requires Backed(root, t0, start, left) && Grew(root, t0, u0, t1, u1, start, done, taken)
    ensures LeafOf(root, t1, HeapPage(start, i)) == Small(Entry(left[i], HEAP_FLAGS))
  {
    forall j | 0 <= j < done ensures HeapPage(start, j) != HeapPage(start, i) {
      PagesDiffer(start, |left|, j, i);
    }
    assert !InRange(start, done, HeapPage(start, i));
  }

  /** Pages with the same indices above the last share a page table. */
  lemma SameTable(root: nat, tables: Tables, v: Page, w: Page)
    requires v.i4 == w.i4 && v.i3 == w.i3 && v.i2 == w.i2
    ensures TableAt(root, tables, 1, v) == TableAt(root, tables, 1, w)
  {
    assert TableAt(root, tables, 4, v) == TableAt(root, tables, 4, w);
    assert TableAt(root, tables, 3, v) == TableAt(root, tables, 3, w);
    assert TableAt(root, tables, 2, v) == TableAt(root, tables, 2, w);
  }

  lemma SameDirectory(root: nat, tables: Tables, taken: seq<nat>)
    requires |taken| >= 16 && Backed(root, tables, PoolBlocks.HEAP_BASE, taken[..16])
    ensures Tabled(root, tables, PoolBlocks.HEAP_BASE + 0x1_0000, 496)
  {
    var base, next := PoolBlocks.HEAP_BASE, PoolBlocks.HEAP_BASE + 0x1_0000;
    assert LeafOf(root, tables, HeapPage(base, 0)) == Small(Entry(taken[..16][0], HEAP_FLAGS));
    forall i | 0 <= i < 496 ensures TableAt(root, tables, 1, HeapPage(next, i)).Some? {
      var a := next + i * PAGE_SIZE;
      assert a / 0x20_0000 == base / 0x20_0000;
      assert a / 0x4000_0000 == base / 0x4000_0000 && a / 0x80_0000_0000 == base / 0x80_0000_0000;
      SameTable(root, tables, HeapPage(base, 0), HeapPage(next, i));
    }
  }

  lemma FreedOne(before: seq<bool>, after: seq<bool>, f: nat)
    requires f < |before| && before[f] && after == Painted(before, f, f + 1, false)
    ensures after == before[f := false] && CountFree(after) == CountFree(before) + 1
  {
    assert after == before[f := false];
    CountAfterUpdate(before, f, false);
  }

  /** The listed frames are free now, and no other changed. */
  predicate Returned(before: seq<bool>, after: seq<bool>, others: seq<nat>)
  {
    |after| == |before| && forall f :: 0 <= f < |after| ==> after[f] == (before[f] && f !in others)
  }

  lemma ReturnedMore(before: seq<bool>, mid: seq<bool>, after: seq<bool>, others: seq<nat>, i: nat)
    requires NoDup(others) && i < |others| && Returned(before, mid, others[..i])
    requires others[i] < |before| && before[others[i]]
    requires after == Painted(mid, others[i], others[i] + 1, false)
    ensures Returned(before, after, others[..i + 1]) && CountFree(after) == CountFree(mid) + 1
  {
    assert others[i] !in others[..i];
    FreedOne(mid, after, others[i]);
    assert others[..i + 1] == others[..i] + [others[i]];
  }

  /** What others have in use they keep, and a growth takes none of it. */
  lemma OthersStay(t0: Tables, u0: seq<bool>, t1: Tables, u1: seq<bool>, taken: seq<nat>, others: seq<nat>)
    requires Spent(t0, u0, t1, u1, taken) && Owned(t0, u0, others)
    ensures Owned(t1, u1, others) && Owned(t1, u1, taken)
    ensures forall i :: 0 <= i < |taken| ==> taken[i] !in others
  {
    forall i | 0 <= i < |taken| ensures u1[taken[i]] && taken[i] !in others {
      assert taken[i] in taken && !u0[taken[i]];
    }
  }
}

/** The physical frame allocator of kernel/mm/pmm.c: one bit per 4 KiB frame
    (1 = used, 0 = free), two page counters and a search hint. */
module FrameAllocator {
  import opened Prelude

  const INVALID_PHYS := 0xFFFF_FFFF_FFFF_FFFF
  const KERNEL_PHYS_BASE := 0x10_0000
  const LOW_MEGABYTE := 0x10_0000

  // ---------------------------------------------------------------- bits

  /** 1 << k, written out. */
  function Mask(k: nat): bv8
    requires k < 8
  {
    if k == 0 then 0x01 else if k == 1 then 0x02 else if k == 2 then 0x04 else if k == 3 then 0x08
    else if k == 4 then 0x10 else if k == 5 then 0x20 else if k == 6 then 0x40 else 0x80
  }

  predicate Bit(b: bv8, k: nat)
    requires k < 8
  {
    b & Mask(k) != 0
  }

  lemma ShiftsAreMasks(b: bv8, k: nat)
    requires k < 8
    ensures 1 as bv8 << k == Mask(k)
    ensures ((b >> k) & 1 == 1) == Bit(b, k)
  {
    if k == 0 {} else if k == 1 {} else if k == 2 {} else if k == 3 {}
    else if k == 4 {} else if k == 5 {} else if k == 6 {} else { assert k == 7; }
  }

  /** bit_test on one byte. */
  predicate BitRead(b: bv8, k: nat)
    requires k < 8
    ensures BitRead(b, k) == Bit(b, k)
  {
    ShiftsAreMasks(b, k);
    (b >> k) & 1 == 1
  }

  /** bit_set and bit_clear on one byte. */
  function BitWrite(b: bv8, k: nat, value: bool): (r: bv8)
    requires k < 8
    ensures r == if value then b | Mask(k) else b & !Mask(k)
  {
    ShiftsAreMasks(b, k);
    if value then b | (1 << k) else b & !(1 << k)
  }

  lemma MaskedBit(b: bv8, m: bv8, j: bv8)
    requires m != j ==> m & j == 0
    ensures ((b | m) & j != 0) == ((m == j && j != 0) || b & j != 0)
    ensures ((b & !m) & j != 0) == (m != j && b & j != 0)
  {
  }

  lemma BitAfterWrite(b: bv8, k: nat, value: bool, j: nat)
    requires k < 8 && j < 8
    ensures Bit(BitWrite(b, k, value), j) == if j == k then value else Bit(b, j)
  {
    MaskedBit(b, Mask(k), Mask(j));
  }

  /** Byte i's bit k speaks for frame 8 * i + k. */
  ghost predicate Agree(bytes: seq<bv8>, used: seq<bool>)
  {
    && |used| <= 8 * |bytes|
    && (forall i, k {:trigger Bit(bytes[i], k)} ::
          0 <= i && 0 <= k < 8 && 8 * i + k < |used| ==> used[8 * i + k] == Bit(bytes[i], k))
  }

  lemma AgreeAfterWrite(bytes: seq<bv8>, used: seq<bool>, f: nat, b: bool, r: bv8)
    requires Agree(bytes, used) && f < |used|
    requires r == BitWrite(bytes[f / 8], f % 8, b)
    ensures Agree(bytes[f / 8 := r], used[f := b])
  {
    forall j: nat | j < 8
      ensures Bit(r, j) == if j == f % 8 then b else Bit(bytes[f / 8], j)
    {
      BitAfterWrite(bytes[f / 8], f % 8, b, j);
    }
    AgreeAfterByte(bytes, used, f, b, r);
  }

  lemma AgreeAfterByte(bytes: seq<bv8>, used: seq<bool>, f: nat, b: bool, r: bv8)
    requires Agree(bytes, used) && f < |used|
    requires forall j: nat :: j < 8 ==> Bit(r, j) == if j == f % 8 then b else Bit(bytes[f / 8], j)
    ensures Agree(bytes[f / 8 := r], used[f := b])
  {
    var after := bytes[f / 8 := r];
    forall i, k | 0 <= i && 0 <= k < 8 && 8 * i + k < |used|
      ensures used[f := b][8 * i + k] == Bit(after[i], k)
    {
      assert used[8 * i + k] == Bit(bytes[i], k);
    }
  }

  // ------------------------------------------------------- specification

  /** The number of free frames of a bitmap, seen as a sequence of used bits. */
  ghost function CountFree(used: seq<bool>): nat
  {
    if used == [] then 0
    else CountFree(used[..|used| - 1]) + (if used[|used| - 1] then 0 else 1)
  }

  lemma {:induction false} CountAfterUpdate(used: seq<bool>, f: nat, b: bool)
    requires f < |used|
    ensures CountFree(used[f := b]) == CountFree(used) + (if used[f] then 1 else 0) - (if b then 1 else 0)
  {
    var n := |used| - 1;
    if f == n {
      assert used[f := b][..n] == used[..n];
    } else {
      CountAfterUpdate(used[..n], f, b);
      assert used[f := b][..n] == used[..n][f := b];
    }
  }

  lemma {:induction false} CountBounds(used: seq<bool>)
    ensures CountFree(used) <= |used|
    ensures CountFree(used) == 0 <==> forall f :: 0 <= f < |used| ==> used[f]
  {
    if used != [] {
      var n := |used| - 1;
      CountBounds(used[..n]);
      assert forall f :: 0 <= f < n ==> used[..n][f] == used[f];
    }
  }

  /** `count` contiguous free frames starting at `start`. */
  ghost predicate FreeRun(used: seq<bool>, start: nat, count: nat)
  {
    start + count <= |used| && forall f :: start <= f < start + count ==> !used[f]
  }

  /** `used` with the frames of [first, last) set to `b`, and no others. */
  ghost function Painted(used: seq<bool>, first: nat, last: nat, b: bool): (r: seq<bool>)
  {
    seq(|used|, f requires 0 <= f < |used| => if first <= f < last then b else used[f])
  }

  /** A full run of `count` more frames becomes used: exactly `count` are lost. */
  lemma {:induction false} CountAfterRun(used: seq<bool>, start: nat, count: nat)
    requires FreeRun(used, start, count)
    ensures CountFree(Painted(used, start, start + count, true)) == CountFree(used) - count
  {
    if count == 0 {
      assert Painted(used, start, start, true) == used;
    } else {
      CountAfterRun(used, start, count - 1);
      var before := Painted(used, start, start + count - 1, true);
      CountAfterUpdate(before, start + count - 1, true);
      assert before[start + count - 1 := true] == Painted(used, start, start + count, true);
    }
  }

  /** The frame looked at in the `scan`-th step of a search that starts at `hint`. */
  function Probe(hint: nat, scan: nat, total: nat): nat
  {
    if hint + scan >= total then hint + scan - total else hint + scan
  }

  /** A hint-relative search reaches every frame. */
  lemma ProbeReaches(hint: nat, f: nat, total: nat)
    requires hint <= total && f < total
    ensures exists scan: nat :: scan < total && Probe(hint, scan, total) == f
  {
    var scan := if f >= hint then f - hint else f + total - hint;
    assert Probe(hint, scan, total) == f;
  }

  // --------------------------------------------------- boot memory map

  datatype Region = Region(base: nat, length: nat, available: bool)

  ghost predicate FrameInside(f: nat, base: nat, length: nat)
  {
    base <= f * PAGE_SIZE && (f + 1) * PAGE_SIZE <= base + length
  }

  ghost predicate FrameTouches(f: nat, base: nat, length: nat)
  {
    f * PAGE_SIZE < base + length && base < (f + 1) * PAGE_SIZE
  }

  ghost predicate InsideSomeAvailable(regions: seq<Region>, f: nat)
  {
    exists i :: 0 <= i < |regions| && regions[i].available && FrameInside(f, regions[i].base, regions[i].length)
  }

  function AlignUp(x: nat): nat
  {
    (x + (PAGE_SIZE - 1)) / PAGE_SIZE * PAGE_SIZE
  }

  /** The first page boundary from an address on. */
  lemma AlignUpMeaning(x: nat)
    ensures AlignUp(x) % PAGE_SIZE == 0 && x <= AlignUp(x) < x + PAGE_SIZE
  {
  }

  // -------------------------------------------------------------- state

  class Pmm {
    const bitmap: array<bv8>
    const totalPages: nat
    var freePages: nat
    var usedPages: nat
    var nextHint: nat
    /** What the bitmap says, frame by frame. */
    ghost var used: seq<bool>

    ghost predicate BitsAgree()
      reads this, bitmap
    {
      |used| == totalPages && Agree(bitmap[..], used)
    }

    ghost predicate Counted()
      reads this
    {
      freePages == CountFree(used) && freePages + usedPages == totalPages
    }

    ghost predicate Valid()
      reads this, bitmap
    {
      BitsAgree() && Counted() && nextHint <= totalPages
    }

    /** MmInitializePhysicalMemory: everything used, then free the available
        regions, then take back what must never be handed out. */
    constructor (regions: seq<Region>, highest: nat, kernelEnd: nat)
      requires forall i :: 0 <= i < |regions| ==> regions[i].base + regions[i].length + PAGE_SIZE <= TWO_64
      requires KERNEL_PHYS_BASE <= kernelEnd
      requires highest >= LOW_MEGABYTE
      ensures Valid() && fresh(bitmap)
      ensures totalPages == highest / PAGE_SIZE
      ensures var bitmapPages := ((totalPages + 7) / 8 + (PAGE_SIZE - 1)) / PAGE_SIZE;
              forall f :: 0 <= f < totalPages ==>
                (!used[f] <==>
                 && InsideSomeAvailable(regions, f)
                 && !FrameTouches(f, 0, LOW_MEGABYTE)
                 && !FrameTouches(f, KERNEL_PHYS_BASE, kernelEnd - KERNEL_PHYS_BASE)
                 && !FrameTouches(f, AlignUp(kernelEnd), bitmapPages * PAGE_SIZE))
    {
      totalPages := highest / PAGE_SIZE;
      var bitmapBytes := (highest / PAGE_SIZE + 7) / 8;
      bitmap := new bv8[bitmapBytes](_ => 0xFF);
      freePages := 0;
      usedPages := highest / PAGE_SIZE;
      nextHint := LOW_MEGABYTE / PAGE_SIZE;
      used := seq(highest / PAGE_SIZE, _ => true);
      new;
      CountBounds(used);
      FreeAvailable(regions);
      var bitmapPages := (bitmapBytes + (PAGE_SIZE - 1)) / PAGE_SIZE;
      TakeBack(kernelEnd, bitmapPages * PAGE_SIZE);
    }

    /** What must never be handed out: low memory, the kernel's image, and the bitmap. */
    method TakeBack(kernelEnd: nat, bitmapSize: nat)
      requires Valid() && KERNEL_PHYS_BASE <= kernelEnd
      modifies this, bitmap
      ensures Valid() && nextHint == old(nextHint)
      ensures forall f :: 0 <= f < totalPages ==>
        (!used[f] <==>
         && !old(used)[f] && !FrameTouches(f, 0, LOW_MEGABYTE)
         && !FrameTouches(f, KERNEL_PHYS_BASE, kernelEnd - KERNEL_PHYS_BASE)
         && !FrameTouches(f, AlignUp(kernelEnd), bitmapSize))
    {
      ReserveRange(0, LOW_MEGABYTE);
      ReserveRange(KERNEL_PHYS_BASE, kernelEnd - KERNEL_PHYS_BASE);
      ReserveRange(AlignUp(kernelEnd), bitmapSize);
    }

    /** The loop that releases the available regions of the memory map. */
    method FreeAvailable(regions: seq<Region>)
      requires Valid() && forall f :: 0 <= f < totalPages ==> used[f]
      modifies this, bitmap
      ensures Valid() && nextHint == old(nextHint)
      ensures forall f :: 0 <= f < totalPages ==> (!used[f] <==> InsideSomeAvailable(regions, f))
    {
      var i := 0;
      while i < |regions|
        invariant i <= |regions|
        invariant Valid() && nextHint == old(nextHint)
        invariant forall f :: 0 <= f < totalPages ==> (!used[f] <==> InsideSomeAvailable(regions[..i], f))
      {
        ghost var was := used;
        if regions[i].available {
          FreeRange(regions[i].base, regions[i].length);
        }
        forall f | 0 <= f < totalPages
          ensures InsideSomeAvailable(regions[..i + 1], f) <==>
                  InsideSomeAvailable(regions[..i], f)
                  || (regions[i].available && FrameInside(f, regions[i].base, regions[i].length))
        {
          InsideOneMore(regions, i, f);
        }
        i := i + 1;
      }
      assert regions[..i] == regions;
    }

    /** bit_set and bit_clear together: after the write the byte's bits agree again. */
    method WriteBit(f: nat, b: bool)
      requires BitsAgree() && f < totalPages
      modifies bitmap, `used
      ensures BitsAgree() && used == old(used)[f := b]
    {
      var byte := BitWrite(bitmap[f / 8], f % 8, b);
      AgreeAfterWrite(bitmap[..], used, f, b, byte);
      bitmap[f / 8] := byte;
      used := used[f := b];
      assert bitmap[..] == old(bitmap[..])[f / 8 := byte];
    }

    method TestBit(f: nat) returns (b: bool)
      requires BitsAgree() && f < totalPages
      ensures b == used[f]
    {
      b := BitRead(bitmap[f / 8], f % 8);
      assert used[8 * (f / 8) + f % 8] == Bit(bitmap[f / 8], f % 8);
    }

    /** reserve_range: every frame the range touches becomes used. The counter
        guard of the source is never needed. */
    method ReserveRange(base: nat, length: nat)
      requires Valid()
      modifies this, bitmap
      ensures Valid() && nextHint == old(nextHint)
      ensures forall f :: 0 <= f < totalPages ==> used[f] == (old(used)[f] || FrameTouches(f, base, length))
    {
      var first := base / PAGE_SIZE;
      var last := (base + length + (PAGE_SIZE - 1)) / PAGE_SIZE;
      var f := first;
      while f < last && f < totalPages
        invariant first <= f && (f <= last || f == first)
        invariant Valid() && nextHint == old(nextHint)
        invariant forall g :: 0 <= g < totalPages ==> used[g] == (old(used)[g] || first <= g < f)
        decreases last - f
      {
        var isUsed := TestBit(f);
        if !isUsed {
          CountAfterUpdate(used, f, true);
          WriteBit(f, true);
          if freePages > 0 {
            freePages := freePages - 1;
          }
          usedPages := usedPages + 1;
        }
        f := f + 1;
      }
    }

    /** free_range: every frame wholly inside the range becomes free. */
    method FreeRange(base: nat, length: nat)
      requires Valid()
      modifies this, bitmap
      ensures Valid() && nextHint == old(nextHint)
      ensures forall f :: 0 <= f < totalPages ==> used[f] == (old(used)[f] && !FrameInside(f, base, length))
    {
      var first := (base + (PAGE_SIZE - 1)) / PAGE_SIZE;
      var last := (base + length) / PAGE_SIZE;
      var f := first;
      while f < last && f < totalPages
        invariant first <= f && (f <= last || f == first)
        invariant Valid() && nextHint == old(nextHint)
        invariant forall g :: 0 <= g < totalPages ==> used[g] == (old(used)[g] && !(first <= g < f))
        decreases last - f
      {
        var isUsed := TestBit(f);
        if isUsed {
          CountBounds(used);
          CountAfterUpdate(used, f, false);
          WriteBit(f, false);
          CountBounds(used);
          freePages := freePages + 1;
          if usedPages > 0 {
            usedPages := usedPages - 1;
          }
        }
        f := f + 1;
      }
    }

    /** MmAllocatePage: fails only when nothing is free, wherever the hint stands;
        otherwise it takes the first free frame in hint order. */
    method AllocatePage() returns (phys: nat)
      requires Valid()
      modifies this, bitmap
      ensures Valid()
      ensures phys == INVALID_PHYS ==>
                old(freePages) == 0 && used == old(used) && nextHint == old(nextHint)
      ensures phys != INVALID_PHYS ==>
                exists scan: nat ::
                  scan < totalPages
                  && var f := Probe(old(nextHint), scan, totalPages);
                  f < totalPages && phys == f * PAGE_SIZE && !old(used)[f]
                  && used == old(used)[f := true] && nextHint == f + 1
                  && forall k: nat :: k < scan ==> old(used)[Probe(old(nextHint), k, totalPages)]
    {
      var scan := 0;
      while scan < totalPages
        invariant scan <= totalPages
        invariant Valid() && used == old(used) && nextHint == old(nextHint) && freePages == old(freePages)
        invariant bitmap[..] == old(bitmap[..])
        invariant forall k: nat :: k < scan ==> used[Probe(nextHint, k, totalPages)]
      {
        var f := nextHint + scan;
        if f >= totalPages {
          f := f - totalPages;
        }
        assert f == Probe(nextHint, scan, totalPages);
        var isUsed := TestBit(f);
        if !isUsed {
          CountAfterUpdate(used, f, true);
          WriteBit(f, true);
          freePages := freePages - 1;
          usedPages := usedPages + 1;
          nextHint := f + 1;
          return f * PAGE_SIZE;
        }
        scan := scan + 1;
      }
      forall f | 0 <= f < totalPages ensures used[f] {
        ProbeReaches(nextHint, f, totalPages);
      }
      CountBounds(used);
      return INVALID_PHYS;
    }

    /** The first-fit search of MmAllocatePages: the lowest free run, or the total
        page count when there is none. */
    method FindRun(count: nat) returns (start: nat)
      requires BitsAgree() && count > 1
      ensures start == totalPages ==> forall s: nat :: !FreeRun(used, s, count)
      ensures start != totalPages ==> FreeRun(used, start, count)
      ensures start != totalPages ==> forall s: nat :: s < start ==> !FreeRun(used, s, count)
    {
      var run := 0;
      start := 0;
      var f := 0;
      while f < totalPages
        invariant f <= totalPages && run <= f && run < count
        invariant run > 0 ==> start == f - run
        invariant FreeRun(used, f - run, run)
        invariant run < f ==> used[f - run - 1]
        invariant forall s: nat :: s + count <= f ==> !FreeRun(used, s, count)
      {
        var isUsed := TestBit(f);
        if !isUsed {
          if run == 0 {
            start := f;
          }
          run := run + 1;
          if run == count {
            forall s: nat | s < start ensures !FreeRun(used, s, count) {
              assert used[start - 1];
            }
            return start;
          }
        } else {
          run := 0;
          forall s: nat | s + count <= f + 1 ensures !FreeRun(used, s, count) {
            if s + count == f + 1 {
              assert s <= f < s + count;
            }
          }
        }
        f := f + 1;
      }
      return totalPages;
    }

    /** MmAllocatePages for more than one frame. */
    method AllocateRun(count: nat) returns (phys: nat)
      requires Valid() && count > 1
      modifies this, bitmap
      ensures Valid() && nextHint == old(nextHint)
      ensures phys == INVALID_PHYS ==>
                used == old(used) && forall s: nat :: !FreeRun(old(used), s, count)
      ensures phys != INVALID_PHYS ==>
                && phys % PAGE_SIZE == 0
                && var start := phys / PAGE_SIZE;
                && FreeRun(old(used), start, count)
                && (forall s: nat :: s < start ==> !FreeRun(old(used), s, count))
                && used == Painted(old(used), start, start + count, true)
    {
      var start := FindRun(count);
      if start == totalPages {
        return INVALID_PHYS;
      }
      CountAfterRun(used, start, count);
      PaintUsed(start, count);
      freePages := freePages - count;
      usedPages := usedPages + count;
      return start * PAGE_SIZE;
    }

    method PaintUsed(start: nat, count: nat)
      requires BitsAgree() && start + count <= totalPages
      modifies bitmap, `used
      ensures BitsAgree() && used == Painted(old(used), start, start + count, true)
    {
      var k := start;
      while k < start + count
        invariant start <= k <= start + count
        invariant BitsAgree() && used == Painted(old(used), start, k, true)
      {
        WriteBit(k, true);
        k := k + 1;
      }
    }

    /** MmAllocatePages: dispatches on the count. */
    method AllocatePages(count: nat) returns (phys: nat)
      requires Valid()
      modifies this, bitmap
      ensures Valid()
      ensures phys == INVALID_PHYS ==>
                used == old(used) && (count == 0 || forall s: nat :: !FreeRun(old(used), s, count))
      ensures phys != INVALID_PHYS ==>
                && count > 0 && phys % PAGE_SIZE == 0
                && FreeRun(old(used), phys / PAGE_SIZE, count)
                && (count > 1 ==> forall s: nat :: s < phys / PAGE_SIZE ==> !FreeRun(old(used), s, count))
                && used == Painted(old(used), phys / PAGE_SIZE, phys / PAGE_SIZE + count, true)
    {
      if count == 0 {
        return INVALID_PHYS;
      }
      if count == 1 {
        CountBounds(used);
        assert forall s: nat :: s < totalPages && !used[s] ==> freePages > 0;
        phys := AllocatePage();
        assert phys == INVALID_PHYS ==> forall s: nat | FreeRun(old(used), s, count) :: !old(used)[s];
        if phys != INVALID_PHYS {
          assert used == Painted(old(used), phys / PAGE_SIZE, phys / PAGE_SIZE + 1, true);
        }
        return;
      }
      phys := AllocateRun(count);
    }

    /** MmFreePages: frees the used frames of the range and pulls the hint back. */
    method FreePages(phys: nat, count: nat)
      requires Valid() && phys / PAGE_SIZE + count < TWO_64
      modifies this, bitmap
      ensures Valid()
      ensures used == Painted(old(used), phys / PAGE_SIZE, phys / PAGE_SIZE + count, false)
      ensures nextHint == if phys / PAGE_SIZE < old(nextHint) then phys / PAGE_SIZE else old(nextHint)
    {
      var first := phys / PAGE_SIZE;
      var f := first;
      while f < first + count && f < totalPages
        invariant first <= f <= first + count
        invariant Valid() && nextHint == old(nextHint)
        invariant used == Painted(old(used), first, f, false)
        decreases first + count - f
      {
        var isUsed := TestBit(f);
        if isUsed {
          CountAfterUpdate(used, f, false);
          WriteBit(f, false);
          CountBounds(used);
          freePages := freePages + 1;
          usedPages := usedPages - 1;
        }
        assert used == Painted(old(used), first, f + 1, false);
        f := f + 1;
      }
      assert used == Painted(old(used), first, first + count, false);
      if first < nextHint {
        nextHint := first;
      }
    }
  }

  lemma InsideOneMore(regions: seq<Region>, i: nat, f: nat)
    requires i < |regions|
    ensures InsideSomeAvailable(regions[..i + 1], f) <==>
            InsideSomeAvailable(regions[..i], f)
            || (regions[i].available && FrameInside(f, regions[i].base, regions[i].length))
  {
    var longer, shorter := regions[..i + 1], regions[..i];
    assert forall j :: 0 <= j < i ==> longer[j] == shorter[j];
    assert longer[i] == regions[i];
  }
}

/** The kernel pool of kernel/ex/pool.c, seen as the list of blocks that tile its arena:
    the invariant, and what allocation, release and growth do to the list. */
module PoolBlocks {
  const HEAP_BASE := 0xFFFF_FFFF_C000_0000
  const HDR := 48                 // sizeof(POOL_NODE)
  const ALIGN := 16
  const MIN_PAYLOAD := 16
  const GROW_CHUNK := 0x10000
  const GUARD := 16
  const GUARD_BYTE := 0xAB
  const MAGIC := 0x4C4F4F50

  /** One block: where its header lies, its payload size, and what the caller asked for. */
  datatype Block = Block(addr: nat, size: nat, requested: nat, free: bool, tag: nat)
  {
    function Payload(): nat
    {
      addr + HDR
    }

    function End(): nat
    {
      addr + HDR + size
    }
  }

  /** Payload bytes needed for a request: rounded up, with room for the guard. */
  function Need(size: nat): (r: nat)
    ensures r >= size + GUARD && r % ALIGN == 0 && r > 0
  {
    (size + (ALIGN - 1)) / ALIGN * ALIGN + GUARD
  }

  /** What the arena grows by: whole chunks that hold a header and the payload. */
  function Want(need: nat): (r: nat)
    ensures r >= need + HDR && r % GROW_CHUNK == 0
  {
    (need + HDR + (GROW_CHUNK - 1)) / GROW_CHUNK * GROW_CHUNK
  }

  // ----------------------------------------------------------- invariant

  predicate Meets(b: Block, c: Block)
  {
    c.addr == b.End()
  }

  predicate Apart(b: Block, c: Block)
  {
    !(b.free && c.free)
  }

  /** The blocks lie end to end from `start` to `end`. */
  ghost predicate Tiled(bs: seq<Block>, start: nat, end: nat)
  {
    && (bs != [] ==> bs[0].addr == start)
    && (forall i, j {:trigger Meets(bs[i], bs[j])} :: 0 <= i < |bs| && j == i + 1 && j < |bs| ==> Meets(bs[i], bs[j]))
    && end == if bs == [] then start else bs[|bs| - 1].End()
  }

  ghost predicate BlockOk(b: Block)
  {
    && b.size > 0 && b.size % ALIGN == 0
    && (!b.free ==> 0 < b.requested && b.requested + GUARD <= b.size)
  }

  ghost predicate Coalesced(bs: seq<Block>)
  {
    forall i, j {:trigger Apart(bs[i], bs[j])} :: 0 <= i < |bs| && j == i + 1 && j < |bs| ==> Apart(bs[i], bs[j])
  }

  ghost predicate Heap(bs: seq<Block>, end: nat)
  {
    && Tiled(bs, HEAP_BASE, end) && Coalesced(bs)
    && forall i :: 0 <= i < |bs| ==> BlockOk(bs[i])
  }

  /** Payload bytes of the used blocks among the first `n`. */
  function UsedUpTo(bs: seq<Block>, n: nat): nat
    requires n <= |bs|
  {
    if n == 0 then 0 else UsedUpTo(bs, n - 1) + if bs[n - 1].free then 0 else bs[n - 1].size
  }

  function UsedBytes(bs: seq<Block>): nat
  {
    UsedUpTo(bs, |bs|)
  }

  lemma {:induction false} UsedUpToPrefix(a: seq<Block>, b: seq<Block>, n: nat)
    requires n <= |a| && n <= |b| && a[..n] == b[..n]
    ensures UsedUpTo(a, n) == UsedUpTo(b, n)
  {
    if n > 0 {
      assert a[n - 1] == a[..n][n - 1] == b[n - 1];
      assert a[..n - 1] == a[..n][..n - 1] == b[..n - 1];
      UsedUpToPrefix(a, b, n - 1);
    }
  }

  lemma {:induction false} UsedUpToConcat(a: seq<Block>, b: seq<Block>, n: nat)
    requires n <= |b|
    ensures UsedUpTo(a + b, |a| + n) == UsedBytes(a) + UsedUpTo(b, n)
  {
    if n == 0 {
      assert (a + b)[..|a|] == a[..|a|];
      UsedUpToPrefix(a + b, a, |a|);
    } else {
      UsedUpToConcat(a, b, n - 1);
    }
  }

  lemma UsedBytesConcat(a: seq<Block>, b: seq<Block>)
    ensures UsedBytes(a + b) == UsedBytes(a) + UsedBytes(b)
  {
    UsedUpToConcat(a, b, |b|);
  }

  lemma UsedBytesOne(b: Block)
    ensures UsedBytes([b]) == if b.free then 0 else b.size
  {
    assert UsedUpTo([b], 0) == 0;
    assert UsedUpTo([b], 1) == if b.free then 0 else b.size;
  }

  /** Replacing one block by a few changes the total by the difference. */
  lemma UsedBytesSplice(bs: seq<Block>, i: nat, j: nat, mid: seq<Block>)
    requires i <= j <= |bs|
    ensures UsedBytes(bs[..i] + mid + bs[j..]) == UsedBytes(bs) - UsedBytes(bs[i..j]) + UsedBytes(mid)
  {
    UsedBytesConcat(bs[..i] + mid, bs[j..]);
    UsedBytesConcat(bs[..i], mid);
    assert bs == bs[..i] + bs[i..j] + bs[j..];
    UsedBytesConcat(bs[..i] + bs[i..j], bs[j..]);
    UsedBytesConcat(bs[..i], bs[i..j]);
  }

  /** Addresses increase along the list by at least a header and a payload byte. */
  lemma {:induction false} Increasing(bs: seq<Block>, start: nat, end: nat, i: nat, j: nat)
    requires Tiled(bs, start, end) && i < j < |bs|
    ensures bs[i].End() <= bs[j].addr
    decreases j
  {
    if i + 1 < j {
      Increasing(bs, start, end, i, j - 1);
    }
    assert Meets(bs[j - 1], bs[j]);
  }

  lemma {:induction false} WithinArena(bs: seq<Block>, start: nat, end: nat, i: nat)
    requires Tiled(bs, start, end) && i < |bs|
    ensures start <= bs[i].addr && bs[i].End() <= end
    decreases i
  {
    if i > 0 {
      Increasing(bs, start, end, 0, i);
    }
    if i < |bs| - 1 {
      Increasing(bs, start, end, i, |bs| - 1);
    }
  }

  /** Distinct blocks share no byte, header or payload, and payloads are 16-aligned. */
  lemma Disjoint(bs: seq<Block>, end: nat, i: nat, j: nat)
    requires Heap(bs, end) && i < |bs| && j < |bs|
    ensures i != j ==> bs[i].End() <= bs[j].addr || bs[j].End() <= bs[i].addr
    ensures bs[i].Payload() % ALIGN == 0
    ensures HEAP_BASE <= bs[i].addr && bs[i].End() <= end
  {
    WithinArena(bs, HEAP_BASE, end, i);
    if i < j {
      Increasing(bs, HEAP_BASE, end, i, j);
    } else if j < i {
      Increasing(bs, HEAP_BASE, end, j, i);
    }
    Aligned(bs, end, i);
  }

  lemma {:induction false} Aligned(bs: seq<Block>, end: nat, i: nat)
    requires Heap(bs, end) && i < |bs|
    ensures bs[i].addr % ALIGN == 0
  {
    if i > 0 {
      Aligned(bs, end, i - 1);
      assert BlockOk(bs[i - 1]) && Meets(bs[i - 1], bs[i]);
    }
  }

  /** Neighbours in the row meet and are not both free. */
  ghost predicate Row(bs: seq<Block>)
  {
    && (forall i :: 0 <= i < |bs| ==> BlockOk(bs[i]))
    && (forall i, j {:trigger Meets(bs[i], bs[j])} :: 0 <= i < |bs| && j == i + 1 && j < |bs| ==> Meets(bs[i], bs[j]))
    && Coalesced(bs)
  }

  lemma RowConcat(a: seq<Block>, b: seq<Block>)
    requires Row(a) && Row(b)
    requires a != [] && b != [] ==> Meets(a[|a| - 1], b[0]) && Apart(a[|a| - 1], b[0])
    ensures Row(a + b)
  {
    var r := a + b;
    forall i, j | 0 <= i < |r| && j == i + 1 && j < |r|
      ensures Meets(r[i], r[j]) && Apart(r[i], r[j])
    {
      if j < |a| {
        assert Meets(a[i], a[j]) && Apart(a[i], a[j]);
      } else if i >= |a| {
        assert Meets(b[i - |a|], b[j - |a|]) && Apart(b[i - |a|], b[j - |a|]);
      }
    }
  }

  lemma RowPart(bs: seq<Block>, i: nat, j: nat)
    requires Row(bs) && i <= j <= |bs|
    ensures Row(bs[i..j])
  {
    var r := bs[i..j];
    forall p, q | 0 <= p < |r| && q == p + 1 && q < |r|
      ensures Meets(r[p], r[q]) && Apart(r[p], r[q])
    {
      assert Meets(bs[i + p], bs[i + q]) && Apart(bs[i + p], bs[i + q]);
    }
  }

  /** Replacing some blocks by others that cover the same span keeps the heap. */
  lemma SpliceKeeps(bs: seq<Block>, end: nat, i: nat, j: nat, mid: seq<Block>)
    requires Heap(bs, end) && i < j <= |bs| && Row(mid) && mid != []
    requires mid[0].addr == bs[i].addr && mid[|mid| - 1].End() == bs[j - 1].End()
    requires i > 0 ==> Apart(bs[i - 1], mid[0])
    requires j < |bs| ==> Apart(mid[|mid| - 1], bs[j])
    ensures Heap(bs[..i] + mid + bs[j..], end)
  {
    RowPart(bs, 0, i);
    RowPart(bs, j, |bs|);
    assert i > 0 ==> Meets(bs[i - 1], bs[i]);
    assert j < |bs| ==> Meets(bs[j - 1], bs[j]);
    RowConcat(bs[..i], mid);
    RowConcat(bs[..i] + mid, bs[j..]);
  }

  // ----------------------------------------------------------- allocation

  /** The first free block, in address order, that holds `need` bytes; the length if none. */
  function FirstFit(bs: seq<Block>, need: nat): (k: nat)
    ensures k <= |bs|
    ensures k < |bs| ==> bs[k].free && bs[k].size >= need
    ensures forall i :: 0 <= i < k ==> !(bs[i].free && bs[i].size >= need)
  {
    FirstFitFrom(bs, need, 0)
  }

  function FirstFitFrom(bs: seq<Block>, need: nat, i: nat): (k: nat)
    requires i <= |bs|
    ensures i <= k <= |bs|
    ensures k < |bs| ==> bs[k].free && bs[k].size >= need
    ensures forall j :: i <= j < k ==> !(bs[j].free && bs[j].size >= need)
    decreases |bs| - i
  {
    if i == |bs| || (bs[i].free && bs[i].size >= need) then i else FirstFitFrom(bs, need, i + 1)
  }

  /** The block (or blocks) that a free block becomes when `need` bytes of it are taken:
      the rest is split off if it can be a block of its own. */
  function Carve(b: Block, need: nat, size: nat, tag: nat): (r: seq<Block>)
    requires b.size >= need
  {
    if b.size < need + HDR + MIN_PAYLOAD then [b.(requested := size, free := false, tag := tag)]
    else [Block(b.addr, need, size, false, tag), Block(b.addr + HDR + need, b.size - need - HDR, 0, true, 0)]
  }

  ghost function Taken(bs: seq<Block>, k: nat, need: nat, size: nat, tag: nat): seq<Block>
    requires k < |bs| && bs[k].size >= need
  {
    bs[..k] + Carve(bs[k], need, size, tag) + bs[k + 1..]
  }

  lemma CarveFacts(b: Block, size: nat, tag: nat)
    requires BlockOk(b) && b.free && b.size >= Need(size) && size > 0
    ensures var mid := Carve(b, Need(size), size, tag);
            Row(mid) && mid[0].addr == b.addr && mid[|mid| - 1].End() == b.End() && !mid[0].free
            && UsedBytes(mid) == mid[0].size
  {
    var mid := Carve(b, Need(size), size, tag);
    UsedBytesOne(mid[0]);
    if |mid| == 2 {
      assert mid == [mid[0]] + [mid[1]];
      UsedBytesConcat([mid[0]], [mid[1]]);
      UsedBytesOne(mid[1]);
    } else {
      assert mid == [mid[0]];
    }
  }

  lemma TakenKeeps(bs: seq<Block>, end: nat, k: nat, size: nat, tag: nat)
    requires Heap(bs, end) && k < |bs| && bs[k].free && bs[k].size >= Need(size) && size > 0
    ensures Heap(Taken(bs, k, Need(size), size, tag), end)
    ensures Taken(bs, k, Need(size), size, tag)[k] == Carve(bs[k], Need(size), size, tag)[0]
    ensures UsedBytes(Taken(bs, k, Need(size), size, tag))
         == UsedBytes(bs) + Taken(bs, k, Need(size), size, tag)[k].size
  {
    var mid := Carve(bs[k], Need(size), size, tag);
    assert BlockOk(bs[k]);
    CarveFacts(bs[k], size, tag);
    if k + 1 < |bs| {
      assert Apart(bs[k], bs[k + 1]);
    }
    SpliceKeeps(bs, end, k, k + 1, mid);
    UsedBytesSplice(bs, k, k + 1, mid);
    assert bs[k..k + 1] == [bs[k]];
    UsedBytesOne(bs[k]);
  }

  // -------------------------------------------------------------- release

  /** The first and last block that a release of block k joins. */
  function Low(bs: seq<Block>, k: nat): (lo: nat)
    requires k < |bs|
    ensures lo <= k
  {
    if k > 0 && bs[k - 1].free then k - 1 else k
  }

  function High(bs: seq<Block>, k: nat): (hi: nat)
    requires k < |bs|
    ensures k <= hi < |bs|
  {
    if k + 1 < |bs| && bs[k + 1].free then k + 1 else k
  }

  /** Block k and its free neighbours as one free block. */
  function Merged(bs: seq<Block>, k: nat): Block
    requires k < |bs|
  {
    var grown := if High(bs, k) == k then bs[k].size else bs[k].size + (HDR + bs[k + 1].size);
    if Low(bs, k) == k then Block(bs[k].addr, grown, 0, true, 0)
    else bs[k - 1].(size := bs[k - 1].size + (HDR + grown))
  }

  ghost function Released(bs: seq<Block>, k: nat): seq<Block>
    requires k < |bs|
  {
    bs[..Low(bs, k)] + [Merged(bs, k)] + bs[High(bs, k) + 1..]
  }

  lemma MergedFacts(bs: seq<Block>, end: nat, k: nat)
    requires Heap(bs, end) && k < |bs| && !bs[k].free
    ensures var m := Merged(bs, k);
            m.free && BlockOk(m) && m.addr == bs[Low(bs, k)].addr && m.End() == bs[High(bs, k)].End()
  {
    assert BlockOk(bs[k]) && BlockOk(bs[Low(bs, k)]) && BlockOk(bs[High(bs, k)]);
    assert Low(bs, k) < k ==> Meets(bs[k - 1], bs[k]);
    assert High(bs, k) > k ==> Meets(bs[k], bs[k + 1]);
  }

  lemma ReleasedHeap(bs: seq<Block>, end: nat, k: nat)
    requires Heap(bs, end) && k < |bs| && !bs[k].free
    ensures Heap(Released(bs, k), end)
  {
    var lo, hi, m := Low(bs, k), High(bs, k), Merged(bs, k);
    MergedFacts(bs, end, k);
    if lo > 0 && lo < k {
      assert Apart(bs[lo - 1], bs[lo]);
    }
    if hi > k && hi + 1 < |bs| {
      assert Apart(bs[hi], bs[hi + 1]);
    }
    SpliceKeeps(bs, end, lo, hi + 1, [m]);
  }

  lemma ReleasedBytes(bs: seq<Block>, k: nat)
    requires k < |bs| && !bs[k].free
    ensures UsedBytes(Released(bs, k)) == UsedBytes(bs) - bs[k].size
  {
    var lo, hi, m := Low(bs, k), High(bs, k), Merged(bs, k);
    assert Released(bs, k) == bs[..lo] + [m] + bs[hi + 1..];
    assert UsedBytes(bs[lo..hi + 1]) == bs[k].size by {
      UsedInSpan(bs, lo, k, hi);
    }
    assert UsedBytes([m]) == 0 by {
      FreeIsUnused(m);
    }
    UsedBytesSplice(bs, lo, hi + 1, [m]);
  }

  lemma FreeIsUnused(b: Block)
    requires b.free
    ensures UsedBytes([b]) == 0
  {
    UsedBytesOne(b);
  }

  lemma UsedInSpan(bs: seq<Block>, lo: nat, k: nat, hi: nat)
    requires lo <= k <= hi < |bs| && k - lo <= 1 && hi - k <= 1
    requires !bs[k].free && (lo < k ==> bs[lo].free) && (hi > k ==> bs[hi].free)
    ensures UsedBytes(bs[lo..hi + 1]) == bs[k].size
  {
    UsedBytesPart(bs, lo, k, hi + 1);
    UsedBytesPart(bs, k, k + 1, hi + 1);
    UsedBytesAt(bs, k);
    if lo < k {
      UsedBytesAt(bs, lo);
    }
    if hi > k {
      UsedBytesAt(bs, hi);
    }
  }

  lemma UsedBytesAt(bs: seq<Block>, i: nat)
    requires i < |bs|
    ensures UsedBytes(bs[i..i + 1]) == if bs[i].free then 0 else bs[i].size
  {
    assert bs[i..i + 1] == [bs[i]];
    UsedBytesOne(bs[i]);
  }

  lemma UsedBytesPart(bs: seq<Block>, i: nat, j: nat, n: nat)
    requires i <= j <= n <= |bs|
    ensures UsedBytes(bs[i..n]) == UsedBytes(bs[i..j]) + UsedBytes(bs[j..n])
  {
    assert bs[i..n] == bs[i..j] + bs[j..n];
    UsedBytesConcat(bs[i..j], bs[j..n]);
  }

  // --------------------------------------------------------------- growth

  /** The arena got `want` more bytes at its end: the last block grows if it is free,
      otherwise a free block is appended. */
  function Grown(bs: seq<Block>, end: nat, want: nat): seq<Block>
    requires want >= HDR
  {
    if bs != [] && bs[|bs| - 1].free
    then bs[|bs| - 1 := bs[|bs| - 1].(size := bs[|bs| - 1].size + want)]
    else bs + [Block(end, want - HDR, 0, true, 0)]
  }

  lemma GrownHeap(bs: seq<Block>, end: nat, need: nat)
    requires Heap(bs, end) && need > 0
    ensures Heap(Grown(bs, end, Want(need)), end + Want(need))
  {
    var want, n := Want(need), |bs| - 1;
    if bs != [] && bs[n].free {
      assert BlockOk(bs[n]);
      var b := bs[n].(size := bs[n].size + want);
      if n > 0 {
        assert Meets(bs[n - 1], bs[n]) && Apart(bs[n - 1], bs[n]);
      }
      SpliceEnd(bs, end, b, end + want);
      assert Grown(bs, end, want) == bs[..n] + [b];
    } else {
      RowConcat(bs, [Block(end, want - HDR, 0, true, 0)]);
    }
  }

  lemma SpliceEnd(bs: seq<Block>, end: nat, b: Block, newEnd: nat)
    requires Heap(bs, end) && bs != [] && bs[|bs| - 1].free && b.free && BlockOk(b)
    requires b.addr == bs[|bs| - 1].addr && b.End() == newEnd
    ensures Heap(bs[..|bs| - 1] + [b], newEnd)
  {
    var n := |bs| - 1;
    RowPart(bs, 0, n);
    if n > 0 {
      assert Meets(bs[n - 1], bs[n]) && Apart(bs[n - 1], bs[n]);
    }
    RowConcat(bs[..n], [b]);
  }

  lemma GrownBytes(bs: seq<Block>, end: nat, want: nat)
    requires want >= HDR
    ensures UsedBytes(Grown(bs, end, want)) == UsedBytes(bs)
  {
    var r, n := Grown(bs, end, want), |bs| - 1;
    if bs != [] && bs[n].free {
      assert r[..n] == bs[..n];
      UsedUpToPrefix(r, bs, n);
    } else {
      assert r[..|bs|] == bs[..|bs|];
      UsedUpToPrefix(r, bs, |bs|);
    }
  }

  /** After growing for a request that fitted nowhere, it fits the last block, and only that. */
  lemma GrownFits(bs: seq<Block>, end: nat, need: nat)
    requires FirstFit(bs, need) == |bs|
    ensures FirstFit(Grown(bs, end, Want(need)), need) == |Grown(bs, end, Want(need))| - 1
  {
    var r := Grown(bs, end, Want(need));
    var last := |r| - 1;
    assert r[last].free && r[last].size >= need;
  }

  // ---------------------------------------------------- freeing everything

  /** With every block free, coalescing leaves a single block over the whole arena. */
  lemma AllFreeIsOneBlock(bs: seq<Block>, end: nat)
    requires Heap(bs, end) && bs != [] && forall i :: 0 <= i < |bs| ==> bs[i].free
    ensures |bs| == 1 && bs[0].addr == HEAP_BASE && bs[0].End() == end && UsedBytes(bs) == 0
  {
    assert |bs| > 1 ==> Apart(bs[0], bs[1]);
    UsedBytesOne(bs[0]);
    assert bs == [bs[0]];
  }
}

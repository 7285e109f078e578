/** The pool's linked headers and payload bytes, edited in place as kernel/ex/pool.c does,
    each operation proved against the block list of PoolBlocks. */
module Pool {
  import opened PoolBlocks
  import opened Prelude

  /** POOL_NODE; links are addresses and 0 is NULL. */
  datatype Node = Node(prev: nat, next: nat, size: nat, requested: nat, free: bool, tag: nat, magic: nat)

  type Headers = map<nat, Node>

  datatype FreeOutcome = Freed | DoubleFree

  // ------------------------------------------------- headers and the list

  function AddrAt(bs: seq<Block>, i: int): nat
  {
    if 0 <= i < |bs| then bs[i].addr else 0
  }

  /** The header that block i of the list should have. */
  function NodeOf(bs: seq<Block>, i: nat): Node
    requires i < |bs|
  {
    Node(AddrAt(bs, i - 1), AddrAt(bs, i + 1), bs[i].size, bs[i].requested, bs[i].free, bs[i].tag, MAGIC)
  }

  ghost predicate HeaderOk(nodes: Headers, bs: seq<Block>, i: nat)
    requires i < |bs|
  {
    bs[i].addr in nodes && nodes[bs[i].addr] == NodeOf(bs, i)
  }

  ghost predicate Linked(nodes: Headers, bs: seq<Block>)
  {
    forall i :: 0 <= i < |bs| ==> HeaderOk(nodes, bs, i)
  }

  ghost predicate GuardOk(bytes: map<nat, nat>, b: Block)
  {
    forall a :: b.Payload() + b.requested <= a < b.End() ==> a in bytes && bytes[a] == GUARD_BYTE
  }

  ghost predicate GuardsOk(bytes: map<nat, nat>, bs: seq<Block>)
  {
    forall i :: 0 <= i < |bs| && !bs[i].free ==> GuardOk(bytes, bs[i])
  }

  /** Addresses in the list tell blocks apart. */
  lemma SameAddress(bs: seq<Block>, start: nat, end: nat, i: nat, j: nat)
    requires Tiled(bs, start, end) && i < |bs| && j < |bs|
    ensures bs[i].addr == bs[j].addr <==> i == j
  {
    if i < j {
      Increasing(bs, start, end, i, j);
    } else if j < i {
      Increasing(bs, start, end, j, i);
    }
  }

  // ------------------------------------------------------------- cutting

  /** pool_split on one block. */
  function Cut(b: Block, need: nat): (r: seq<Block>)
    requires b.size >= need
  {
    if b.size < need + HDR + MIN_PAYLOAD then [b]
    else [b.(size := need), Block(b.addr + HDR + need, b.size - need - HDR, 0, true, 0)]
  }

  ghost function Split(bs: seq<Block>, k: nat, need: nat): seq<Block>
    requires k < |bs| && bs[k].size >= need
  {
    bs[..k] + Cut(bs[k], need) + bs[k + 1..]
  }

  function SplitHeaders(nodes: Headers, n: nat, need: nat): Headers
    requires n in nodes && nodes[n].size >= need + HDR
    requires nodes[n].next != 0 ==> nodes[n].next in nodes
  {
    var node := nodes[n];
    var rest := n + HDR + need;
    var m := nodes[rest := Node(n, node.next, node.size - need - HDR, 0, true, 0, MAGIC)];
    var m' := if node.next != 0 then m[node.next := m[node.next].(prev := rest)] else m;
    m'[n := m'[n].(next := rest, size := need)]
  }

  lemma SplitLinks(nodes: Headers, bs: seq<Block>, start: nat, end: nat, k: nat, need: nat)
    requires Tiled(bs, start, end) && start > 0 && Linked(nodes, bs)
    requires k < |bs| && bs[k].size >= need + HDR + MIN_PAYLOAD
    ensures HeaderOk(nodes, bs, k) && (k + 1 < |bs| ==> HeaderOk(nodes, bs, k + 1))
    ensures nodes[bs[k].addr].next != 0 <==> k + 1 < |bs|
    ensures Linked(SplitHeaders(nodes, bs[k].addr, need), Split(bs, k, need))
  {
    assert HeaderOk(nodes, bs, k);
    if k + 1 < |bs| {
      assert HeaderOk(nodes, bs, k + 1);
      WithinArena(bs, start, end, k + 1);
      OutsideBlock(bs, start, end, k, k + 1, bs[k].addr + HDR + need);
    }
    var after, r := SplitHeaders(nodes, bs[k].addr, need), Split(bs, k, need);
    var rest := bs[k].addr + HDR + need;
    assert |Cut(bs[k], need)| == 2;
    assert forall i :: 0 <= i < k ==> r[i] == bs[i];
    assert r[k].addr == bs[k].addr && r[k + 1].addr == rest;
    assert forall i :: k + 2 <= i < |r| ==> r[i] == bs[i - 1];
    forall i | 0 <= i < |r| ensures HeaderOk(after, r, i) {
      var j := if i <= k then i else if i == k + 1 then k else i - 1;
      assert HeaderOk(nodes, bs, j);
      SameAddress(bs, start, end, j, k);
      if k + 1 < |bs| {
        SameAddress(bs, start, end, j, k + 1);
      }
      OutsideBlock(bs, start, end, k, j, rest);
    }
  }

  /** An address inside block k is no block's header. */
  lemma OutsideBlock(bs: seq<Block>, start: nat, end: nat, k: nat, j: nat, a: nat)
    requires Tiled(bs, start, end) && k < |bs| && j < |bs| && bs[k].addr < a < bs[k].End()
    ensures bs[j].addr != a
  {
    if j < k {
      Increasing(bs, start, end, j, k);
    } else if k < j {
      Increasing(bs, start, end, k, j);
    }
  }

  // ------------------------------------------------------------- joining

  /** Block i swallows its higher neighbour. */
  ghost function Join(bs: seq<Block>, i: nat): seq<Block>
    requires i + 1 < |bs|
  {
    bs[..i] + [bs[i].(size := bs[i].size + (HDR + bs[i + 1].size))] + bs[i + 2..]
  }

  function JoinHeaders(nodes: Headers, n: nat): Headers
    requires n in nodes && nodes[n].next in nodes && nodes[n].next != n
    requires nodes[nodes[n].next].next != 0 ==> nodes[nodes[n].next].next in nodes
  {
    var next := nodes[nodes[n].next];
    var m := nodes[n := nodes[n].(size := nodes[n].size + (HDR + next.size), next := next.next)];
    if next.next != 0 then m[next.next := m[next.next].(prev := n)] else m
  }

  lemma JoinLinks(nodes: Headers, bs: seq<Block>, start: nat, end: nat, i: nat)
    requires Tiled(bs, start, end) && start > 0 && Linked(nodes, bs) && i + 1 < |bs|
    ensures HeaderOk(nodes, bs, i) && HeaderOk(nodes, bs, i + 1)
    ensures i + 2 < |bs| ==> HeaderOk(nodes, bs, i + 2)
    ensures nodes[bs[i + 1].addr].next != 0 <==> i + 2 < |bs|
    ensures bs[i].addr != bs[i + 1].addr
    ensures Linked(JoinHeaders(nodes, bs[i].addr), Join(bs, i))
  {
    assert HeaderOk(nodes, bs, i) && HeaderOk(nodes, bs, i + 1);
    SameAddress(bs, start, end, i, i + 1);
    if i + 2 < |bs| {
      assert HeaderOk(nodes, bs, i + 2);
      WithinArena(bs, start, end, i + 2);
    }
    var after, r := JoinHeaders(nodes, bs[i].addr), Join(bs, i);
    assert forall j :: 0 <= j < i ==> r[j] == bs[j];
    assert forall j :: i + 1 <= j < |r| ==> r[j] == bs[j + 1];
    forall j | 0 <= j < |r| ensures HeaderOk(after, r, j) {
      var o := if j <= i then j else j + 1;
      assert HeaderOk(nodes, bs, o);
      SameAddress(bs, start, end, o, i);
      if i + 2 < |bs| {
        SameAddress(bs, start, end, o, i + 2);
      }
    }
  }

  lemma JoinTiles(bs: seq<Block>, start: nat, end: nat, i: nat)
    requires Tiled(bs, start, end) && i + 1 < |bs|
    ensures Tiled(Join(bs, i), start, end)
  {
    var r := Join(bs, i);
    assert Meets(bs[i], bs[i + 1]);
    forall p, q | 0 <= p < |r| && q == p + 1 && q < |r| ensures Meets(r[p], r[q]) {
      if q <= i {
        assert Meets(bs[p], bs[q]);
      } else {
        assert Meets(bs[p + 1], bs[q + 1]);
      }
    }
  }

  /** Writing the fields that are not links of one header. */
  lemma MarkLinks(nodes: Headers, bs: seq<Block>, start: nat, end: nat, k: nat, b: Block)
    requires Tiled(bs, start, end) && Linked(nodes, bs) && k < |bs|
    requires b.addr == bs[k].addr && b.size == bs[k].size
    ensures HeaderOk(nodes, bs, k)
    ensures Linked(nodes[b.addr := nodes[b.addr].(requested := b.requested, free := b.free, tag := b.tag)], bs[k := b])
    ensures Tiled(bs[k := b], start, end)
  {
    assert HeaderOk(nodes, bs, k);
    var after, r := nodes[b.addr := nodes[b.addr].(requested := b.requested, free := b.free, tag := b.tag)], bs[k := b];
    forall i | 0 <= i < |r| ensures HeaderOk(after, r, i) {
      assert HeaderOk(nodes, bs, i);
      SameAddress(bs, start, end, i, k);
    }
    forall p, q | 0 <= p < |r| && q == p + 1 && q < |r| ensures Meets(r[p], r[q]) {
      assert Meets(bs[p], bs[q]);
    }
  }

  /** The release of a block is a mark followed by at most two joins. */
  lemma ReleasedIsJoins(bs: seq<Block>, k: nat)
    requires k < |bs|
    ensures Released(bs, k) == JoinLow(JoinHigh(bs[k := Block(bs[k].addr, bs[k].size, 0, true, 0)], k), k)
  {
    var marked := bs[k := Block(bs[k].addr, bs[k].size, 0, true, 0)];
    var up := JoinHigh(marked, k);
    assert High(bs, k) > k ==> up == bs[..k] + [up[k]] + bs[k + 2..];
    assert High(bs, k) == k ==> up == bs[..k] + [up[k]] + bs[k + 1..];
    assert up[k].size == if High(bs, k) == k then bs[k].size else bs[k].size + (HDR + bs[k + 1].size);
    assert k > 0 ==> up[k - 1] == bs[k - 1];
    if Low(bs, k) < k {
      assert up[..k - 1] == bs[..k - 1] && up[k + 1..] == bs[High(bs, k) + 1..];
    }
  }

  /** The two coalescing steps of ExFreePool. */
  ghost function JoinHigh(bs: seq<Block>, k: nat): (r: seq<Block>)
    requires k < |bs|
    ensures k < |r|
  {
    if k + 1 < |bs| && bs[k + 1].free then Join(bs, k) else bs
  }

  ghost function JoinLow(bs: seq<Block>, k: nat): seq<Block>
    requires k < |bs|
  {
    if k > 0 && bs[k - 1].free then Join(bs, k - 1) else bs
  }

  lemma SplitTiles(bs: seq<Block>, start: nat, end: nat, k: nat, need: nat)
    requires Tiled(bs, start, end) && k < |bs| && bs[k].size >= need
    ensures Tiled(Split(bs, k, need), start, end)
  {
    var r, m := Split(bs, k, need), |Cut(bs[k], need)|;
    forall p, q | 0 <= p < |r| && q == p + 1 && q < |r| ensures Meets(r[p], r[q]) {
      if q < k + m {
        assert p < k ==> Meets(bs[p], bs[q]);
      } else {
        assert Meets(bs[p - m + 1], bs[q - m + 1]);
      }
    }
  }

  // ------------------------------------------------------------- guards

  /** The payload memory with guard bytes from `first` up to `last`, and unchanged elsewhere. */
  ghost function Filled(bytes: map<nat, nat>, first: nat, last: nat): (r: map<nat, nat>)
    ensures forall a {:trigger a in r} :: a in r <==> a in bytes || first <= a < last
    ensures forall a {:trigger r[a]} :: a in r ==> r[a] == if first <= a < last then GUARD_BYTE else bytes[a]
    decreases last
  {
    if last <= first then bytes else Filled(bytes, first, last - 1)[last - 1 := GUARD_BYTE]
  }

  /** The payload memory with the guard of `b` written. */
  ghost function Armed(bytes: map<nat, nat>, b: Block): map<nat, nat>
  {
    Filled(bytes, b.Payload() + b.requested, b.End())
  }

  lemma ArmedKeepsGuards(bytes: map<nat, nat>, before: seq<Block>, after: seq<Block>, end: nat, k: nat,
                         need: nat, size: nat, tag: nat)
    requires Heap(before, end) && GuardsOk(bytes, before) && k < |before| && before[k].size >= need
    requires after == Taken(before, k, need, size, tag) && Heap(after, end) && size > 0 && before[k].free
    ensures GuardsOk(Armed(bytes, after[k]), after)
  {
    forall i | 0 <= i < |after| && !after[i].free ensures GuardOk(Armed(bytes, after[k]), after[i]) {
      if i != k {
        Disjoint(after, end, i, k);
        var j := if i < k then i else i - |after| + |before|;
        assert after[i] == before[j];
        assert GuardOk(bytes, before[j]);
      }
    }
  }

  // ---------------------------------------------------------- isolation

  /** Allocation leaves every live block in place with every byte of its payload, and the
      payload it hands out overlaps none of them. */
  lemma TakeIsolates(bytes: map<nat, nat>, bs: seq<Block>, end: nat, k: nat, size: nat, tag: nat, i: nat)
    requires Heap(bs, end) && k < |bs| && bs[k].free && bs[k].size >= Need(size) && size > 0
    requires i < |bs| && !bs[i].free
    ensures var after := Taken(bs, k, Need(size), size, tag);
            && bs[i] in after
            && (after[k].End() <= bs[i].addr || bs[i].End() <= after[k].addr)
            && forall a :: bs[i].Payload() <= a < bs[i].End() ==>
                 var filled := Armed(bytes, after[k]);
                 (a in filled <==> a in bytes) && (a in bytes ==> filled[a] == bytes[a])
  {
    TakenKeeps(bs, end, k, size, tag);
    var after := Taken(bs, k, Need(size), size, tag);
    var j := if i < k then i else i - |bs| + |after|;
    assert after[j] == bs[i];
    Disjoint(after, end, j, k);
  }

  /** A release removes no other live block. */
  lemma ReleaseIsolates(bs: seq<Block>, k: nat, i: nat)
    requires k < |bs| && i < |bs| && i != k && !bs[i].free
    ensures bs[i] in Released(bs, k)
  {
    var r := Released(bs, k);
    var j := if i < k then i else i - High(bs, k) + Low(bs, k);
    assert r[j] == bs[i];
  }

  /** Some block in use has this payload and records this request and tag; it holds the request
      and sixteen bytes more, and wastes less than it takes to make another block. */
  ghost predicate Granted(bs: seq<Block>, p: nat, size: nat, tag: nat)
  {
    exists i :: 0 <= i < |bs| && IsGrant(bs[i], p, size, tag)
  }

  /** The lowest block that fits is taken; when none does the arena grows and its last block
      is; when it cannot grow nothing happens. */
  ghost predicate Allocated(bs: seq<Block>, end: nat, bytes: map<nat, nat>, now: seq<Block>, nowEnd: nat,
                            nowBytes: map<nat, nat>, p: nat, size: nat, tag: nat, commits: nat)
  {
    var need := Need(size);
    var k := FirstFit(bs, need);
    if k < |bs| then
      && nowEnd == end && now == Taken(bs, k, need, size, tag)
      && p == now[k].Payload() && nowBytes == Armed(bytes, now[k])
    else if Want(need) / PAGE_SIZE <= commits then
      var grown := Grown(bs, end, Want(need));
      && FirstFit(grown, need) == |grown| - 1 && nowEnd == end + Want(need)
      && now == Taken(grown, |grown| - 1, need, size, tag)
      && p == now[|grown| - 1].Payload() && nowBytes == Armed(bytes, now[|grown| - 1])
    else p == 0 && now == bs && nowEnd == end && nowBytes == bytes
  }

  predicate IsGrant(b: Block, p: nat, size: nat, tag: nat)
  {
    b.Payload() == p && !b.free && b.requested == size && b.tag == tag && size + 16 <= b.size < size + 96
  }

  /** The sixteen bytes past the request are guard bytes. */
  predicate Guarded(bytes: map<nat, nat>, p: nat, size: nat)
  {
    forall a :: p + size <= a < p + size + 16 ==> a in bytes && bytes[a] == 0xAB
  }

  predicate SameByte(before: map<nat, nat>, after: map<nat, nat>, a: nat)
  {
    (a in after <==> a in before) && (a in before ==> after[a] == before[a])
  }

  /** The block taken is in use and records what was asked for; its guard lies past that. */
  lemma TakenGrants(bs: seq<Block>, end: nat, k: nat, size: nat, tag: nat)
    requires Heap(bs, end) && k < |bs| && bs[k].free && bs[k].size >= Need(size) && size > 0
    ensures var after := Taken(bs, k, Need(size), size, tag);
      k < |after| && IsGrant(after[k], bs[k].Payload(), size, tag) && Granted(after, after[k].Payload(), size, tag)
  {
    TakenKeeps(bs, end, k, size, tag);
    assert IsGrant(Taken(bs, k, Need(size), size, tag)[k], bs[k].Payload(), size, tag);
  }

  // -------------------------------------------------------- the validator

  /** What pool_validate looks at: the blocks tile the arena, headers carry the magic and
      matching links, sizes are positive, requests fit and guards are intact. */
  ghost predicate Image(nodes: Headers, bytes: map<nat, nat>, head: nat, end: nat, bs: seq<Block>)
  {
    && Tiled(bs, HEAP_BASE, end) && Linked(nodes, bs) && head == AddrAt(bs, 0)
    && GuardsOk(bytes, bs)
    && forall i :: 0 <= i < |bs| ==> bs[i].size > 0 && (!bs[i].free ==> bs[i].requested <= bs[i].size)
  }

  ghost predicate Sound(nodes: Headers, bytes: map<nat, nat>, head: nat, end: nat)
  {
    exists bs: seq<Block> :: Image(nodes, bytes, head, end, bs)
  }

  /** Headers determine the list they are the image of. */
  lemma {:induction false} SameSoFar(nodes: Headers, a: seq<Block>, b: seq<Block>, end: nat, i: nat)
    requires Tiled(a, HEAP_BASE, end) && Linked(nodes, a) && Tiled(b, HEAP_BASE, end) && Linked(nodes, b)
    requires AddrAt(a, 0) == AddrAt(b, 0) && i <= |a|
    ensures i <= |b| && a[..i] == b[..i] && AddrAt(a, i) == AddrAt(b, i)
  {
    if i > 0 {
      SameSoFar(nodes, a, b, end, i - 1);
      WithinArena(a, HEAP_BASE, end, i - 1);
      assert HeaderOk(nodes, a, i - 1) && HeaderOk(nodes, b, i - 1);
      assert a[..i] == a[..i - 1] + [a[i - 1]] && b[..i] == b[..i - 1] + [b[i - 1]];
    }
  }

  lemma ImageIsOnly(nodes: Headers, a: seq<Block>, b: seq<Block>, end: nat)
    requires Tiled(a, HEAP_BASE, end) && Linked(nodes, a) && Tiled(b, HEAP_BASE, end) && Linked(nodes, b)
    requires AddrAt(a, 0) == AddrAt(b, 0)
    ensures a == b
  {
    SameSoFar(nodes, a, b, end, |a|);
    if |a| < |b| {
      WithinArena(b, HEAP_BASE, end, |a|);
    }
  }

  /** A client that writes past its request is found out: with one guard byte of a block in
      use wrong, no pool is sound, so the validator fires. */
  lemma OverrunCaught(nodes: Headers, bytes: map<nat, nat>, head: nat, end: nat, bs: seq<Block>, i: nat, a: nat)
    requires Heap(bs, end) && Linked(nodes, bs) && head == AddrAt(bs, 0) && i < |bs| && !bs[i].free
    requires bs[i].Payload() + bs[i].requested <= a < bs[i].Payload() + bs[i].size
    requires a !in bytes || bytes[a] != 0xAB
    ensures !Sound(nodes, bytes, head, end)
  {
    forall image: seq<Block> ensures !Image(nodes, bytes, head, end, image) {
      if Image(nodes, bytes, head, end, image) {
        ImageIsOnly(nodes, bs, image, end);
      }
    }
  }

  ghost predicate Passed(nodes: Headers, seen: seq<Block>, n: nat, i: nat)
    requires i < |seen|
  {
    && seen[i].size > 0 && (!seen[i].free ==> seen[i].requested <= seen[i].size)
    && seen[i].addr in nodes
    && nodes[seen[i].addr] == Node(AddrAt(seen, i - 1), if i + 1 < |seen| then seen[i + 1].addr else n,
                                   seen[i].size, seen[i].requested, seen[i].free, seen[i].tag, MAGIC)
  }

  /** The blocks a walk has passed, and where it stands: at `n`, expecting address `addr`. */
  ghost predicate Walked(nodes: Headers, bytes: map<nat, nat>, head: nat, end: nat, seen: seq<Block>,
                         prev: nat, n: nat, addr: nat)
  {
    && Tiled(seen, HEAP_BASE, addr) && addr <= (if seen == [] then HEAP_BASE else end)
    && GuardsOk(bytes, seen)
    && (forall i :: 0 <= i < |seen| ==> Passed(nodes, seen, n, i))
    && prev == AddrAt(seen, |seen| - 1)
    && head == (if seen == [] then n else HEAP_BASE)
    && forall bs: seq<Block> :: Image(nodes, bytes, head, end, bs) ==> |seen| <= |bs| && seen == bs[..|seen|]
  }

  /** If the pool is sound, the walk stands at its next block. */
  lemma WalkedAgrees(nodes: Headers, bytes: map<nat, nat>, head: nat, end: nat, seen: seq<Block>,
                     prev: nat, n: nat, addr: nat, bs: seq<Block>)
    requires Walked(nodes, bytes, head, end, seen, prev, n, addr) && Image(nodes, bytes, head, end, bs)
    ensures |seen| <= |bs| && seen == bs[..|seen|] && n == AddrAt(bs, |seen|) && prev == AddrAt(bs, |seen| - 1)
    ensures |seen| < |bs| ==> n == addr && HeaderOk(nodes, bs, |seen|) && n + HDR + bs[|seen|].size <= end
    ensures |seen| == |bs| ==> addr == end
  {
    var m := |seen|;
    if m > 0 {
      assert Passed(nodes, seen, n, m - 1) && seen[m - 1] == bs[m - 1] && HeaderOk(nodes, bs, m - 1);
    }
    if m < |bs| {
      assert HeaderOk(nodes, bs, m);
      WithinArena(bs, HEAP_BASE, end, m);
      if m > 0 {
        assert Meets(bs[m - 1], bs[m]);
      }
    }
  }

  /** One accepted header extends the walk. */
  lemma WalkedMore(nodes: Headers, bytes: map<nat, nat>, head: nat, end: nat, seen: seq<Block>,
                   prev: nat, n: nat, addr: nat)
    requires Walked(nodes, bytes, head, end, seen, prev, n, addr)
    requires n == addr && n in nodes && nodes[n].magic == MAGIC && nodes[n].prev == prev
    requires nodes[n].size > 0 && n + HDR + nodes[n].size <= end
    requires !nodes[n].free ==> nodes[n].requested <= nodes[n].size
    requires !nodes[n].free ==> GuardOk(bytes, Block(n, nodes[n].size, nodes[n].requested, nodes[n].free, nodes[n].tag))
    ensures var b := Block(n, nodes[n].size, nodes[n].requested, nodes[n].free, nodes[n].tag);
            Walked(nodes, bytes, head, end, seen + [b], n, nodes[n].next, b.End())
  {
    var b := Block(n, nodes[n].size, nodes[n].requested, nodes[n].free, nodes[n].tag);
    var more := seen + [b];
    forall i, j | 0 <= i < |more| && j == i + 1 && j < |more| ensures Meets(more[i], more[j]) {
      if j < |seen| {
        assert Meets(seen[i], seen[j]);
      }
    }
    forall i | 0 <= i < |more| ensures Passed(nodes, more, nodes[n].next, i) {
      if i < |seen| {
        assert Passed(nodes, seen, n, i);
      }
    }
    forall bs: seq<Block> | Image(nodes, bytes, head, end, bs) ensures |more| <= |bs| && more == bs[..|more|] {
      WalkedAgrees(nodes, bytes, head, end, seen, prev, n, addr, bs);
    }
  }

  /** A walk that ends at the arena's end has found the image. */
  lemma WalkedDone(nodes: Headers, bytes: map<nat, nat>, head: nat, end: nat, seen: seq<Block>,
                   prev: nat, addr: nat)
    requires Walked(nodes, bytes, head, end, seen, prev, 0, addr) && addr == end
    ensures Image(nodes, bytes, head, end, seen)
  {
    forall i | 0 <= i < |seen|
      ensures HeaderOk(nodes, seen, i) && seen[i].size > 0 && (!seen[i].free ==> seen[i].requested <= seen[i].size)
    {
      assert Passed(nodes, seen, 0, i);
    }
  }

  /** The loop of pool_grow that backs each new page with a frame and a mapping. */
  method CommitPages(want: nat, commits: nat) returns (ok: bool)
    requires want % GROW_CHUNK == 0
    ensures ok == (want / PAGE_SIZE <= commits)
  {
    var off, left := 0, commits;
    while off < want
      invariant off % PAGE_SIZE == 0 && off <= want && off / PAGE_SIZE <= commits
      invariant left == commits - off / PAGE_SIZE
      decreases want - off
    {
      if left == 0 {
        return false;
      }
      left := left - 1;
      off := off + PAGE_SIZE;
    }
    return true;
  }

  class KernelPool {
    var nodes: Headers
    var bytes: map<nat, nat>
    var head: nat
    var tail: nat
    var heapEnd: nat
    var bytesInUse: nat
    var broken: bool
    var calls: nat
    ghost var blocks: seq<Block>

    ghost predicate Valid()
      reads this
    {
      && Heap(blocks, heapEnd) && Linked(nodes, blocks)
      && head == AddrAt(blocks, 0) && tail == AddrAt(blocks, |blocks| - 1)
      && bytesInUse == UsedBytes(blocks)
      && GuardsOk(bytes, blocks) && heapEnd % GROW_CHUNK == 0
    }

    /** pool_guard_intact. */
    method GuardIntact(b: Block) returns (ok: bool)
      requires b.requested <= b.size
      ensures ok == GuardOk(bytes, b)
    {
      var i := b.requested;
      while i < b.size
        invariant b.requested <= i <= b.size
        invariant forall a :: b.Payload() + b.requested <= a < b.Payload() + i ==> a in bytes && bytes[a] == GUARD_BYTE
      {
        if b.Payload() + i !in bytes || bytes[b.Payload() + i] != GUARD_BYTE {
          return false;
        }
        i := i + 1;
      }
      return true;
    }

    /** pool_validate: it accepts exactly the sound pools, whatever state it is run in. */
    method Validate()
      modifies `broken
      ensures broken == (old(broken) || !Sound(nodes, bytes, head, heapEnd))
    {
      if broken {
        return;
      }
      var n: nat, prev: nat, addr: nat := head, 0, HEAP_BASE;
      ghost var seen: seq<Block> := [];
      while n != 0
        invariant !broken && Walked(nodes, bytes, head, heapEnd, seen, prev, n, addr)
        decreases heapEnd - addr
      {
        forall bs: seq<Block> | Image(nodes, bytes, head, heapEnd, bs)
          ensures |seen| < |bs| && n == addr && HeaderOk(nodes, bs, |seen|) && n == bs[|seen|].addr
          ensures prev == AddrAt(bs, |seen| - 1) && n + HDR + bs[|seen|].size <= heapEnd
        {
          WalkedAgrees(nodes, bytes, head, heapEnd, seen, prev, n, addr, bs);
        }
        if n != addr || n !in nodes || nodes[n].magic != MAGIC || nodes[n].prev != prev
           || nodes[n].size == 0 || n + HDR + nodes[n].size > heapEnd
           || (!nodes[n].free && nodes[n].requested > nodes[n].size)
        {
          broken := true;
          return;
        }
        ghost var b := Block(n, nodes[n].size, nodes[n].requested, nodes[n].free, nodes[n].tag);
        if !nodes[n].free {
          var intact := GuardIntact(Block(n, nodes[n].size, nodes[n].requested, nodes[n].free, nodes[n].tag));
          if !intact {
            broken := true;
            return;
          }
        }
        WalkedMore(nodes, bytes, head, heapEnd, seen, prev, n, addr);
        addr := n + HDR + nodes[n].size;
        prev, n := n, nodes[n].next;
        seen := seen + [b];
      }
      forall bs: seq<Block> | Image(nodes, bytes, head, heapEnd, bs) ensures addr == heapEnd {
        WalkedAgrees(nodes, bytes, head, heapEnd, seen, prev, n, addr, bs);
      }
      if addr != heapEnd {
        broken := true;
      } else {
        WalkedDone(nodes, bytes, head, heapEnd, seen, prev, addr);
      }
    }

    /** The invariant is more than the validator checks, so the validator never fires. */
    lemma ValidIsSound()
      requires Valid()
      ensures Sound(nodes, bytes, head, heapEnd)
    {
      assert forall i :: 0 <= i < |blocks| ==> BlockOk(blocks[i]);
      assert Image(nodes, bytes, head, heapEnd, blocks);
    }

    /** pool_grow. `commits` is how many pages the memory manager can still provide and
        map: when it is too few, the growth fails midway and the pool is untouched. */
    method Grow(need: nat, commits: nat) returns (ok: bool)
      requires Valid() && need > 0 && heapEnd + Want(need) <= TWO_64
      modifies this
      ensures Valid() && ok == (Want(need) / PAGE_SIZE <= commits)
      ensures ok ==> blocks == Grown(old(blocks), old(heapEnd), Want(need)) && heapEnd == old(heapEnd) + Want(need)
      ensures !ok ==> blocks == old(blocks) && heapEnd == old(heapEnd)
      ensures bytes == old(bytes) && broken == old(broken) && calls == old(calls) && bytesInUse == old(bytesInUse)
    {
      var want := Want(need);
      ok := CommitPages(want, commits);
      if ok {
        GrownHeap(blocks, heapEnd, need);
        GrownBytes(blocks, heapEnd, want);
        LastHeader(nodes, blocks, heapEnd);
        Extend(want);
      }
    }

    /** The part of pool_grow after the pages are there. */
    method Extend(want: nat)
      requires Heap(blocks, heapEnd) && Linked(nodes, blocks) && want >= HDR
      requires head == AddrAt(blocks, 0) && tail == AddrAt(blocks, |blocks| - 1)
      modifies `nodes, `head, `tail, `heapEnd, `blocks
      ensures blocks == Grown(old(blocks), old(heapEnd), want) && heapEnd == old(heapEnd) + want
      ensures Linked(nodes, blocks) && head == AddrAt(blocks, 0) && tail == AddrAt(blocks, |blocks| - 1)
    {
      var start := heapEnd;
      LastHeader(nodes, blocks, start);
      heapEnd := heapEnd + want;
      if tail != 0 && nodes[tail].free {
        GrowTailLinks(nodes, blocks, start, want);
        nodes := nodes[tail := nodes[tail].(size := nodes[tail].size + want)];
      } else {
        AppendLinks(nodes, blocks, start, want);
        nodes := nodes[start := Node(tail, 0, want - HDR, 0, true, 0, MAGIC)];
        if tail != 0 {
          nodes := nodes[tail := nodes[tail].(next := start)];
        } else {
          head := start;
        }
        tail := start;
      }
      blocks := Grown(blocks, start, want);
    }

    /** pool_split. */
    method SplitNode(n: nat, need: nat, ghost k: nat)
      requires Heap(blocks, heapEnd) && Linked(nodes, blocks) && tail == AddrAt(blocks, |blocks| - 1)
      requires k < |blocks| && n == blocks[k].addr && blocks[k].size >= need
      modifies `nodes, `tail, `blocks
      ensures blocks == Split(old(blocks), k, need) && Linked(nodes, blocks)
      ensures tail == AddrAt(blocks, |blocks| - 1)
    {
      assert HeaderOk(nodes, blocks, k);
      if nodes[n].size < need + HDR + MIN_PAYLOAD {
        assert blocks == Split(blocks, k, need);
        return;
      }
      SplitLinks(nodes, blocks, HEAP_BASE, heapEnd, k, need);
      var rest := n + HDR + need;
      var next := nodes[n].next;
      nodes := SplitHeaders(nodes, n, need);
      if next == 0 {
        tail := rest;
      }
      blocks := Split(blocks, k, need);
    }

    /** pool_arm_guard: the bytes past the request, and no others, become guard bytes. */
    method ArmGuard(b: Block)
      requires b.requested <= b.size
      modifies `bytes
      ensures bytes == Armed(old(bytes), b)
    {
      var i := b.requested;
      while i < b.size
        invariant b.requested <= i <= b.size
        invariant bytes == Armed(old(bytes), b.(size := i))
      {
        bytes := bytes[b.Payload() + i := GUARD_BYTE];
        i := i + 1;
      }
    }

    /** The search of ExAllocatePoolWithTag, along the links. */
    method FindFit(need: nat) returns (n: nat, ghost k: nat)
      requires Heap(blocks, heapEnd) && Linked(nodes, blocks) && head == AddrAt(blocks, 0)
      ensures n == AddrAt(blocks, FirstFit(blocks, need)) && k == FirstFit(blocks, need)
      ensures n == 0 <==> k == |blocks|
    {
      n, k := head, 0;
      while n != 0
        invariant k <= |blocks| && n == AddrAt(blocks, k) && FirstFit(blocks, need) == FirstFitFrom(blocks, need, k)
        decreases |blocks| - k
      {
        assert HeaderOk(nodes, blocks, k);
        if nodes[n].free && nodes[n].size >= need {
          return;
        }
        n, k := nodes[n].next, k + 1;
      }
      if k < |blocks| {
        WithinArena(blocks, HEAP_BASE, heapEnd, k);
      }
    }

    /** Taking the block that was found: split, mark, arm. */
    method Take(n: nat, need: nat, size: nat, tag: nat, ghost k: nat) returns (p: nat)
      requires Valid() && size > 0 && need == Need(size)
      requires k < |blocks| && n == blocks[k].addr && blocks[k].free && blocks[k].size >= need
      modifies this
      ensures Valid() && heapEnd == old(heapEnd) && broken == old(broken) && calls == old(calls)
      ensures blocks == Taken(old(blocks), k, need, size, tag) && p == blocks[k].Payload()
      ensures bytes == Armed(old(bytes), blocks[k])
    {
      ghost var bs := blocks;
      TakenKeeps(bs, heapEnd, k, size, tag);
      SplitNode(n, need, k);
      assert blocks[k].addr == n;
      ghost var marked := blocks[k].(requested := size, free := false, tag := tag);
      SplitTiles(bs, HEAP_BASE, heapEnd, k, need);
      MarkLinks(nodes, blocks, HEAP_BASE, heapEnd, k, marked);
      nodes := nodes[n := nodes[n].(free := false, tag := tag, requested := size)];
      blocks := blocks[k := marked];
      assert blocks == Taken(bs, k, need, size, tag);
      assert HeaderOk(nodes, blocks, k);
      ArmGuard(Block(n, nodes[n].size, size, false, tag));
      bytesInUse := bytesInUse + nodes[n].size;
      ArmedKeepsGuards(old(bytes), bs, blocks, heapEnd, k, need, size, tag);
      return n + HDR;
    }

    /** ExAllocatePoolWithTag. It takes the lowest block that fits; when none does it
        grows once, after which one fits, so it fails only when the growth fails. */
    method Allocate(size: nat, tag: nat, commits: nat) returns (p: nat)
      requires Valid() && heapEnd + Want(Need(size)) <= TWO_64
      modifies this
      ensures Valid() && broken == old(broken)
      ensures p != 0 ==> Granted(blocks, p, size, tag)
      ensures p != 0 ==> forall a :: p <= a < p + size ==> SameByte(old(bytes), bytes, a)
      ensures p != 0 ==> Guarded(bytes, p, size)
      ensures if size == 0 then p == 0 && blocks == old(blocks) && heapEnd == old(heapEnd) && bytes == old(bytes)
              else Allocated(old(blocks), old(heapEnd), old(bytes), blocks, heapEnd, bytes, p, size, tag, commits)
    {
      if size == 0 {
        return 0;
      }
      CountCall();
      p := TryTake(size, tag);
      if p != 0 {
        return;
      }
      p := GrowAndTake(size, tag, commits);
    }

    /** The second attempt: after a growth the last block fits. */
    method GrowAndTake(size: nat, tag: nat, commits: nat) returns (p: nat)
      requires Valid() && size > 0 && heapEnd + Want(Need(size)) <= TWO_64 && FirstFit(blocks, Need(size)) == |blocks|
      modifies this
      ensures Valid() && broken == old(broken)
      ensures p != 0 ==> Granted(blocks, p, size, tag)
      ensures p != 0 ==> forall a :: p <= a < p + size ==> SameByte(old(bytes), bytes, a)
      ensures p != 0 ==> Guarded(bytes, p, size)
      ensures var need := Need(size);
              if Want(need) / PAGE_SIZE <= commits then
                var bs := Grown(old(blocks), old(heapEnd), Want(need));
                && FirstFit(bs, need) == |bs| - 1 && heapEnd == old(heapEnd) + Want(need)
                && blocks == Taken(bs, |bs| - 1, need, size, tag)
                && p == blocks[|bs| - 1].Payload() && bytes == Armed(old(bytes), blocks[|bs| - 1])
              else p == 0 && blocks == old(blocks) && heapEnd == old(heapEnd) && bytes == old(bytes)
    {
      GrownFits(blocks, heapEnd, Need(size));
      var ok := Grow(Need(size), commits);
      if ok {
        p := TryTake(size, tag);
      } else {
        p := 0;
      }
    }

    /** Every 64th allocation validates the pool first. */
    method CountCall()
      requires Valid()
      modifies `calls, `broken
      ensures Valid() && broken == old(broken)
    {
      calls := (calls + 1) % 0x1_0000_0000;
      if calls % 64 == 0 {
        ValidIsSound();
        Validate();
      }
    }

    /** One attempt of the allocation loop. */
    method TryTake(size: nat, tag: nat) returns (p: nat)
      requires Valid() && size > 0
      modifies this
      ensures Valid() && heapEnd == old(heapEnd) && broken == old(broken) && calls == old(calls)
      ensures p != 0 ==> Granted(blocks, p, size, tag)
      ensures p != 0 ==> forall a :: p <= a < p + size ==> SameByte(old(bytes), bytes, a)
      ensures p != 0 ==> Guarded(bytes, p, size)
      ensures var k := FirstFit(old(blocks), Need(size));
              if k < |old(blocks)| then
                && blocks == Taken(old(blocks), k, Need(size), size, tag)
                && p == blocks[k].Payload() && bytes == Armed(old(bytes), blocks[k])
              else p == 0 && blocks == old(blocks) && bytes == old(bytes)
    {
      var n, k := FindFit(Need(size));
      if n == 0 {
        return 0;
      }
      p := Take(n, Need(size), size, tag, k);
      TakenGrants(old(blocks), heapEnd, k, size, tag);
      assert GuardOk(bytes, blocks[k]);
    }

    /** ExFreePool on a payload address that some block has. */
    method Free(p: nat, ghost k: nat) returns (outcome: FreeOutcome)
      requires Valid() && (p != 0 ==> k < |blocks| && p == blocks[k].Payload())
      modifies this
      ensures Valid() && bytes == old(bytes) && broken == old(broken) && heapEnd == old(heapEnd)
      ensures p == 0 ==> outcome == Freed && blocks == old(blocks)
      ensures p != 0 ==> (outcome == DoubleFree <==> old(blocks)[k].free)
      ensures outcome == DoubleFree ==> blocks == old(blocks)
      ensures p != 0 && outcome == Freed ==> blocks == Released(old(blocks), k)
    {
      if p == 0 {
        return Freed;
      }
      var n := p - HDR;
      assert HeaderOk(nodes, blocks, k);
      broken := broken || nodes[n].magic != MAGIC;
      if nodes[n].free {
        return DoubleFree;
      }
      if !broken {
        var intact := GuardIntact(Block(n, nodes[n].size, nodes[n].requested, false, nodes[n].tag));
        broken := !intact;
      }
      ReleasedHeap(blocks, heapEnd, k);
      ReleasedBytes(blocks, k);
      ReleasedKeepsGuards(bytes, blocks, k);
      UsedAtMost(blocks, k);
      bytesInUse := bytesInUse - nodes[n].size;
      Release(n, k);
      return Freed;
    }

    /** The marking and coalescing of ExFreePool. */
    method Release(n: nat, ghost k: nat)
      requires Heap(blocks, heapEnd) && Linked(nodes, blocks)
      requires head == AddrAt(blocks, 0) && tail == AddrAt(blocks, |blocks| - 1)
      requires k < |blocks| && n == blocks[k].addr && !blocks[k].free
      modifies `nodes, `tail, `blocks
      ensures blocks == Released(old(blocks), k) && Linked(nodes, blocks)
      ensures head == AddrAt(blocks, 0) && tail == AddrAt(blocks, |blocks| - 1)
    {
      ReleasedIsJoins(blocks, k);
      ghost var marked := Block(n, blocks[k].size, 0, true, 0);
      MarkLinks(nodes, blocks, HEAP_BASE, heapEnd, k, marked);
      nodes := nodes[n := nodes[n].(free := true, tag := 0, requested := 0)];
      blocks := blocks[k := marked];
      assert HeaderOk(nodes, blocks, k);
      CoalesceHigh(n, k);
      CoalesceLow(n, k);
    }

    /** Coalesce with the higher neighbour. */
    method CoalesceHigh(n: nat, ghost k: nat)
      requires Tiled(blocks, HEAP_BASE, heapEnd) && Linked(nodes, blocks) && k < |blocks| && n == blocks[k].addr
      requires head == AddrAt(blocks, 0) && tail == AddrAt(blocks, |blocks| - 1)
      modifies `nodes, `tail, `blocks
      ensures blocks == JoinHigh(old(blocks), k) && Tiled(blocks, HEAP_BASE, heapEnd) && Linked(nodes, blocks)
      ensures head == AddrAt(blocks, 0) && tail == AddrAt(blocks, |blocks| - 1)
    {
      assert HeaderOk(nodes, blocks, k);
      NeighbourHeaders(nodes, blocks, k);
      var next := nodes[n].next;
      if next != 0 && nodes[next].free {
        JoinNodes(n, k);
      }
    }

    /** Coalesce with the lower neighbour. */
    method CoalesceLow(n: nat, ghost k: nat)
      requires Tiled(blocks, HEAP_BASE, heapEnd) && Linked(nodes, blocks) && k < |blocks| && n == blocks[k].addr
      requires head == AddrAt(blocks, 0) && tail == AddrAt(blocks, |blocks| - 1)
      modifies `nodes, `tail, `blocks
      ensures blocks == JoinLow(old(blocks), k) && Tiled(blocks, HEAP_BASE, heapEnd) && Linked(nodes, blocks)
      ensures head == AddrAt(blocks, 0) && tail == AddrAt(blocks, |blocks| - 1)
    {
      assert HeaderOk(nodes, blocks, k);
      NeighbourHeaders(nodes, blocks, k);
      var prev := nodes[n].prev;
      if prev != 0 && nodes[prev].free {
        JoinNodes(prev, k - 1);
      }
    }

    /** A node swallows the one that follows it. */
    method JoinNodes(n: nat, ghost i: nat)
      requires Tiled(blocks, HEAP_BASE, heapEnd) && Linked(nodes, blocks) && i + 1 < |blocks| && n == blocks[i].addr
      requires head == AddrAt(blocks, 0) && tail == AddrAt(blocks, |blocks| - 1)
      modifies `nodes, `tail, `blocks
      ensures blocks == Join(old(blocks), i) && Tiled(blocks, HEAP_BASE, heapEnd) && Linked(nodes, blocks)
      ensures head == AddrAt(blocks, 0) && tail == AddrAt(blocks, |blocks| - 1)
    {
      JoinLinks(nodes, blocks, HEAP_BASE, heapEnd, i);
      JoinTiles(blocks, HEAP_BASE, heapEnd, i);
      var after := nodes[nodes[n].next].next;
      nodes := JoinHeaders(nodes, n);
      if after == 0 {
        tail := n;
      }
      blocks := Join(blocks, i);
    }

    /** A client that stays within the bytes it asked for. */
    method ClientWrite(ghost k: nat, a: nat, value: nat)
      requires Valid() && k < |blocks| && !blocks[k].free
      requires blocks[k].Payload() <= a < blocks[k].Payload() + blocks[k].requested
      modifies `bytes
      ensures Valid() && bytes == old(bytes)[a := value]
      ensures forall j :: 0 <= j < |blocks| && j != k ==> !(blocks[j].addr <= a < blocks[j].End())
    {
      forall j | 0 <= j < |blocks| && j != k ensures blocks[j].End() <= a || a < blocks[j].addr {
        Disjoint(blocks, heapEnd, j, k);
        assert BlockOk(blocks[k]);
      }
      bytes := bytes[a := value];
      forall j | 0 <= j < |blocks| && !blocks[j].free ensures GuardOk(bytes, blocks[j]) {
        assert GuardOk(old(bytes), blocks[j]);
      }
    }

    /** ExInitializePool, given that the first chunk can be committed. */
    constructor ()
      ensures Valid() && |blocks| == 1 && blocks[0].free && bytesInUse == 0 && !broken
      ensures heapEnd == HEAP_BASE + GROW_CHUNK
    {
      nodes, bytes := map[], map[];
      head, tail, heapEnd, bytesInUse, broken, calls := 0, 0, HEAP_BASE, 0, false, 0;
      blocks := [];
      new;
      var ok := Grow(GROW_CHUNK - HDR, GROW_CHUNK / PAGE_SIZE);
      assert Want(GROW_CHUNK - HDR) == GROW_CHUNK;
    }
  }

  lemma NeighbourHeaders(nodes: Headers, bs: seq<Block>, k: nat)
    requires Tiled(bs, HEAP_BASE, if bs == [] then HEAP_BASE else bs[|bs| - 1].End()) && Linked(nodes, bs) && k < |bs|
    ensures var next := AddrAt(bs, k + 1);
            (next != 0 <==> k + 1 < |bs|) && (next != 0 ==> next in nodes && nodes[next].free == bs[k + 1].free)
    ensures var prev := AddrAt(bs, k - 1);
            (prev != 0 <==> k > 0) && (prev != 0 ==> prev in nodes && nodes[prev].free == bs[k - 1].free)
  {
    var end := bs[|bs| - 1].End();
    if k + 1 < |bs| {
      assert HeaderOk(nodes, bs, k + 1);
      WithinArena(bs, HEAP_BASE, end, k + 1);
    }
    if k > 0 {
      assert HeaderOk(nodes, bs, k - 1);
      WithinArena(bs, HEAP_BASE, end, k - 1);
    }
  }

  lemma ReleasedKeepsGuards(bytes: map<nat, nat>, bs: seq<Block>, k: nat)
    requires GuardsOk(bytes, bs) && k < |bs|
    ensures GuardsOk(bytes, Released(bs, k))
  {
    var r := Released(bs, k);
    forall i | 0 <= i < |r| && !r[i].free ensures GuardOk(bytes, r[i]) {
      var j := if i < Low(bs, k) then i else i - Low(bs, k) + High(bs, k);
      assert r[i] == bs[j];
    }
  }

  lemma UsedAtMost(bs: seq<Block>, k: nat)
    requires k < |bs| && !bs[k].free
    ensures bs[k].size <= UsedBytes(bs)
  {
    ReleasedBytes(bs, k);
  }

  lemma LastHeader(nodes: Headers, bs: seq<Block>, end: nat)
    requires Heap(bs, end) && Linked(nodes, bs)
    ensures var tail := AddrAt(bs, |bs| - 1);
            (tail != 0 <==> bs != []) && (bs != [] ==> tail in nodes && nodes[tail].free == bs[|bs| - 1].free)
  {
    if bs != [] {
      assert HeaderOk(nodes, bs, |bs| - 1);
      WithinArena(bs, HEAP_BASE, end, |bs| - 1);
    }
  }

  lemma GrowTailLinks(nodes: Headers, bs: seq<Block>, end: nat, want: nat)
    requires Heap(bs, end) && Linked(nodes, bs) && bs != [] && bs[|bs| - 1].free && want >= HDR
    ensures var tail := bs[|bs| - 1].addr;
            tail in nodes && Linked(nodes[tail := nodes[tail].(size := nodes[tail].size + want)], Grown(bs, end, want))
  {
    var n := |bs| - 1;
    assert HeaderOk(nodes, bs, n);
    var after := nodes[bs[n].addr := nodes[bs[n].addr].(size := nodes[bs[n].addr].size + want)];
    var r := Grown(bs, end, want);
    forall i | 0 <= i < |r| ensures HeaderOk(after, r, i) {
      assert HeaderOk(nodes, bs, i);
      SameAddress(bs, HEAP_BASE, end, i, n);
    }
  }

  lemma AppendLinks(nodes: Headers, bs: seq<Block>, end: nat, want: nat)
    requires Heap(bs, end) && Linked(nodes, bs) && (bs == [] || !bs[|bs| - 1].free) && want >= HDR
    ensures var tail := AddrAt(bs, |bs| - 1);
            var m := nodes[end := Node(tail, 0, want - HDR, 0, true, 0, MAGIC)];
            && (tail != 0 <==> bs != []) && (tail != 0 ==> tail in m && tail != end)
            && Linked(if tail != 0 then m[tail := m[tail].(next := end)] else m, Grown(bs, end, want))
  {
    var n := |bs| - 1;
    var r := Grown(bs, end, want);
    var tail := AddrAt(bs, n);
    var m := nodes[end := Node(tail, 0, want - HDR, 0, true, 0, MAGIC)];
    if bs != [] {
      assert HeaderOk(nodes, bs, n);
      WithinArena(bs, HEAP_BASE, end, n);
    }
    var after := if tail != 0 then m[tail := m[tail].(next := end)] else m;
    forall i | 0 <= i < |r| ensures HeaderOk(after, r, i) {
      if i < |bs| {
        assert HeaderOk(nodes, bs, i);
        SameAddress(bs, HEAP_BASE, end, i, n);
        WithinArena(bs, HEAP_BASE, end, i);
      }
    }
  }
}

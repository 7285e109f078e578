/** The clients of the pool: what they were given, what they wrote there, and that both last
    until they give it back, whatever the others do. */
module PoolClients {
  import opened PoolBlocks
  import opened Pool
  import opened Prelude

  /** Some block in use has this payload and this request. */
  ghost predicate Lent(bs: seq<Block>, p: nat, size: nat)
  {
    exists i :: 0 <= i < |bs| && LentBy(bs[i], p, size)
  }

  predicate LentBy(b: Block, p: nat, size: nat)
  {
    b.Payload() == p && !b.free && b.requested == size
  }

  /** An allocation takes nothing away from a client: neither its block nor a byte of it. */
  lemma TakeKeepsLent(bytes: map<nat, nat>, bs: seq<Block>, end: nat, k: nat, size: nat, tag: nat, q: nat, n: nat)
    requires Heap(bs, end) && k < |bs| && bs[k].free && bs[k].size >= Need(size) && size > 0 && Lent(bs, q, n)
    ensures var after := Taken(bs, k, Need(size), size, tag);
      && Lent(after, q, n) && q + n <= end
      && (forall a :: q <= a < q + n ==> SameByte(bytes, Armed(bytes, after[k]), a))
      && (after[k].Payload() + size <= q || q + n <= after[k].Payload())
  {
    var i :| 0 <= i < |bs| && LentBy(bs[i], q, n);
    TakeIsolates(bytes, bs, end, k, size, tag, i);
    TakenGrants(bs, end, k, size, tag);
    TakenKeeps(bs, end, k, size, tag);
    var after := Taken(bs, k, Need(size), size, tag);
    assert BlockOk(bs[i]) && BlockOk(after[k]);
    WithinArena(bs, HEAP_BASE, end, i);
    var j :| 0 <= j < |after| && after[j] == bs[i];
    assert LentBy(after[j], q, n);
  }

  lemma GrowthKeepsLent(bs: seq<Block>, end: nat, want: nat, q: nat, n: nat)
    requires want >= HDR && Lent(bs, q, n)
    ensures Lent(Grown(bs, end, want), q, n)
  {
    var i :| 0 <= i < |bs| && LentBy(bs[i], q, n);
    assert Grown(bs, end, want)[i] == bs[i];
  }

  lemma AllocationKeepsLent(bs: seq<Block>, end: nat, bytes: map<nat, nat>, now: seq<Block>, nowEnd: nat,
                            nowBytes: map<nat, nat>, p: nat, size: nat, tag: nat, commits: nat, q: nat, n: nat)
    requires Heap(bs, end) && size > 0 && Lent(bs, q, n)
    requires Allocated(bs, end, bytes, now, nowEnd, nowBytes, p, size, tag, commits)
    ensures Lent(now, q, n) && forall a :: q <= a < q + n ==> SameByte(bytes, nowBytes, a)
    ensures p != 0 ==> p + size <= q || q + n <= p
  {
    var need := Need(size);
    var k := FirstFit(bs, need);
    if k < |bs| {
      TakeKeepsLent(bytes, bs, end, k, size, tag, q, n);
    } else if Want(need) / PAGE_SIZE <= commits {
      GrownHeap(bs, end, need);
      GrowthKeepsLent(bs, end, Want(need), q, n);
      var grown := Grown(bs, end, Want(need));
      TakeKeepsLent(bytes, grown, end + Want(need), |grown| - 1, size, tag, q, n);
    }
  }

  /** A release takes nothing away from another client. */
  lemma ReleaseKeepsLent(bs: seq<Block>, end: nat, k: nat, q: nat, n: nat)
    requires Heap(bs, end) && k < |bs| && bs[k].Payload() != q && Lent(bs, q, n)
    ensures Lent(Released(bs, k), q, n)
  {
    var i :| 0 <= i < |bs| && LentBy(bs[i], q, n);
    ReleaseIsolates(bs, k, i);
    var r := Released(bs, k);
    var j :| 0 <= j < |r| && r[j] == bs[i];
    assert LentBy(r[j], q, n);
  }

  /** Address a belongs to one of the requests. */
  ghost predicate Inside(granted: map<nat, nat>, a: nat)
  {
    exists p :: p in granted && p <= a < p + granted[p]
  }

  ghost predicate AllLent(bs: seq<Block>, granted: map<nat, nat>)
  {
    forall p :: p in granted ==> p != 0 && Lent(bs, p, granted[p])
  }

  ghost predicate AllKept(bytes: map<nat, nat>, granted: map<nat, nat>, written: map<nat, nat>)
  {
    forall a :: a in written ==> Inside(granted, a) && a in bytes && bytes[a] == written[a]
  }

  /** The request lies apart from all that is granted. */
  ghost predicate ApartFrom(granted: map<nat, nat>, p: nat, size: nat)
  {
    forall q :: q in granted ==> p + size <= q || q + granted[q] <= p
  }

  lemma AllocationKeepsAll(bs: seq<Block>, end: nat, bytes: map<nat, nat>, now: seq<Block>, nowEnd: nat,
                           nowBytes: map<nat, nat>, p: nat, size: nat, tag: nat, commits: nat,
                           granted: map<nat, nat>, written: map<nat, nat>)
    requires Heap(bs, end) && size > 0 && AllLent(bs, granted) && AllKept(bytes, granted, written)
    requires Allocated(bs, end, bytes, now, nowEnd, nowBytes, p, size, tag, commits)
    ensures AllLent(now, granted) && AllKept(nowBytes, granted, written) && (p != 0 ==> ApartFrom(granted, p, size))
  {
    forall q | q in granted
      ensures Lent(now, q, granted[q]) && forall a :: q <= a < q + granted[q] ==> SameByte(bytes, nowBytes, a)
      ensures p != 0 ==> p + size <= q || q + granted[q] <= p
    {
      AllocationKeepsLent(bs, end, bytes, now, nowEnd, nowBytes, p, size, tag, commits, q, granted[q]);
    }
    forall a | a in written ensures a in nowBytes && nowBytes[a] == written[a] {
      var q :| q in granted && q <= a < q + granted[q];
      assert SameByte(bytes, nowBytes, a);
    }
  }

  lemma NotGranted(bs: seq<Block>, granted: map<nat, nat>, p: nat, size: nat)
    requires ApartFrom(granted, p, size) && size > 0 && AllLent(bs, granted)
    requires forall i :: 0 <= i < |bs| ==> BlockOk(bs[i])
    ensures p !in granted
  {
  }

  lemma GrantAdded(bs: seq<Block>, bytes: map<nat, nat>, granted: map<nat, nat>, written: map<nat, nat>, p: nat,
                   size: nat, tag: nat)
    requires AllLent(bs, granted) && AllKept(bytes, granted, written) && p != 0 && Granted(bs, p, size, tag)
    requires p !in granted
    ensures AllLent(bs, granted[p := size]) && AllKept(bytes, granted[p := size], written)
  {
    var i :| 0 <= i < |bs| && IsGrant(bs[i], p, size, tag);
    assert LentBy(bs[i], p, size);
    forall a | a in written ensures Inside(granted[p := size], a) {
      var q :| q in granted && q <= a < q + granted[q];
      assert q in granted[p := size] && q <= a < q + granted[p := size][q];
    }
  }

  /** The pool with its clients: the requests that were granted and not given back, by
      address, and the last value a client wrote at each address. */
  class Clients {
    const pool: KernelPool
    ghost var granted: map<nat, nat>
    ghost var written: map<nat, nat>

    ghost predicate Valid()
      reads this, pool
    {
      && pool.Valid()
      && AllLent(pool.blocks, granted) && AllKept(pool.bytes, granted, written)
    }

    constructor (pool: KernelPool)
      requires pool.Valid()
      ensures Valid() && this.pool == pool && granted == map[] && written == map[]
    {
      this.pool := pool;
      granted, written := map[], map[];
    }

    /** An allocation grants exactly the bytes asked for, apart from all that is granted. */
    method Allocate(size: nat, tag: nat, commits: nat) returns (p: nat)
      requires Valid() && pool.heapEnd + Want(Need(size)) <= TWO_64
      modifies this, pool
      ensures Valid() && written == old(written)
      ensures granted == if p == 0 then old(granted) else old(granted)[p := size]
      ensures p != 0 ==> size > 0 && ApartFrom(old(granted), p, size)
    {
      ghost var bs, end, was := pool.blocks, pool.heapEnd, pool.bytes;
      p := pool.Allocate(size, tag, commits);
      if size > 0 {
        AllocationKeepsAll(bs, end, was, pool.blocks, pool.heapEnd, pool.bytes, p, size, tag, commits, granted,
                           written);
      }
      if p != 0 {
        NotGranted(bs, granted, p, size);
        GrantAdded(pool.blocks, pool.bytes, granted, written, p, size, tag);
        granted := granted[p := size];
      }
    }

    /** Giving back what was granted succeeds, and ends the grant. */
    method Free(p: nat) returns (outcome: FreeOutcome)
      requires Valid() && p in granted
      modifies this, pool
      ensures Valid() && outcome == Freed && granted == old(granted) - {p}
      ensures forall a :: a in written <==> a in old(written) && Inside(granted, a)
      ensures forall a :: a in written ==> written[a] == old(written)[a]
    {
      ghost var k :| 0 <= k < |pool.blocks| && LentBy(pool.blocks[k], p, granted[p]);
      ghost var bs, end := pool.blocks, pool.heapEnd;
      outcome := pool.Free(p, k);
      granted := granted - {p};
      written := map a | a in written && Inside(granted, a) :: written[a];
      forall q | q in granted ensures Lent(pool.blocks, q, granted[q]) {
        ReleaseKeepsLent(bs, end, k, q, granted[q]);
      }
    }

    /** A client may write any byte it asked for: the pool stays sound, guards included. */
    method Write(p: nat, a: nat, value: nat)
      requires Valid() && p in granted && p <= a < p + granted[p]
      modifies this, pool
      ensures Valid() && granted == old(granted) && written == old(written)[a := value]
    {
      ghost var k :| 0 <= k < |pool.blocks| && LentBy(pool.blocks[k], p, granted[p]);
      pool.ClientWrite(k, a, value);
      written := written[a := value];
    }

    /** What a client reads is what was written there last. */
    method Read(a: nat) returns (value: nat)
      requires Valid() && a in written
      ensures value == written[a]
    {
      value := pool.bytes[a];
    }

    /** The validator does not fire. */
    method Check()
      requires Valid()
      modifies pool
      ensures Valid() && pool.broken == old(pool.broken)
    {
      pool.ValidIsSound();
      pool.Validate();
    }
  }
}

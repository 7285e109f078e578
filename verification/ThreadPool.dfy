/** The thread-pool work queue of user/kernel32.c as interleaved steps of submitters and
    workers around one lock, one linked queue and one semaphore. */
module ThreadPool {
  import opened Prelude

  type ItemId = nat

  const SEMAPHORE_LIMIT := 0x7FFF_FFFF
  const MAX_ITEMS := 32

  /** Where a thread is. A submitter is between calls, has claimed an item, holds the lock
      before or after linking it, or has yet to release the semaphore. A worker waits, has
      passed the wait, holds the lock before or after unlinking, or runs a callback. */
  datatype Pc =
    | Idle
    | Claimed(item: ItemId)
    | Linking(item: ItemId)
    | LinkedUp(item: ItemId)
    | ToRelease(item: ItemId)
    | Waiting
    | Woken
    | Unlinking
    | Unlinked(found: Option<ItemId>)
    | Running(item: ItemId)

  /** Shared memory, the threads, and the history of the queue: what was linked in and what
      was taken out, in order. */
  datatype State = State(submitted: map<ItemId, bool>, head: Option<ItemId>, tail: Option<ItemId>,
                         next: map<ItemId, Option<ItemId>>, lock: Option<nat>, semaphore: nat,
                         threads: seq<Pc>, linked: seq<ItemId>, taken: seq<ItemId>)

  datatype Action = Submit(item: ItemId) | Lock | Body | Unlock | Release | PassWait | CallbackReturns

  /** Action `a` of thread `i` can happen now. The wait needs a count, the lock a free word. */
  predicate Enabled(s: State, i: nat, a: Action)
  {
    i < |s.threads| &&
    var pc := s.threads[i];
    match a
    case Submit(item) => pc == Idle && item in s.submitted
    case Lock => (pc.Claimed? || pc == Woken) && s.lock == None
    case Body => (pc.Linking? && pc.item in s.submitted) || pc == Unlinking
    case Unlock => pc.LinkedUp? || pc.Unlinked?
    case Release => pc.ToRelease?
    case PassWait => pc == Waiting && s.semaphore > 0
    case CallbackReturns => pc.Running? && pc.item in s.submitted
  }

  /** The locked part of SubmitThreadpoolWork. */
  function Link(s: State, i: nat, work: ItemId): State
    requires i < |s.threads|
  {
    var cleared := s.next[work := None];
    var next := if s.tail.Some? then cleared[s.tail.value := Some(work)] else cleared;
    s.(next := next, head := if s.tail.Some? then s.head else Some(work), tail := Some(work),
       threads := s.threads[i := LinkedUp(work)], linked := s.linked + [work])
  }

  /** The locked part of threadpool_worker_start. */
  function Unlink(s: State, i: nat): State
    requires i < |s.threads|
  {
    match s.head
    case None => s.(threads := s.threads[i := Unlinked(None)])
    case Some(work) =>
      var rest := if work in s.next then s.next[work] else None;
      s.(head := rest, tail := if rest == None then None else s.tail, next := s.next[work := None],
         threads := s.threads[i := Unlinked(Some(work))], taken := s.taken + [work])
  }

  function Next(s: State, i: nat, a: Action): State
    requires Enabled(s, i, a)
  {
    var pc := s.threads[i];
    match a
    case Submit(item) =>
      if s.submitted[item] then s
      else s.(submitted := s.submitted[item := true], threads := s.threads[i := Claimed(item)])
    case Lock =>
      s.(lock := Some(i), threads := s.threads[i := if pc.Claimed? then Linking(pc.item) else Unlinking])
    case Body => if pc.Linking? then Link(s, i, pc.item) else Unlink(s, i)
    case Unlock =>
      s.(lock := None,
         threads := s.threads[i := if pc.LinkedUp? then ToRelease(pc.item)
                                   else if pc.found.Some? then Running(pc.found.value) else Waiting])
    case Release =>
      if s.semaphore < SEMAPHORE_LIMIT
      then s.(semaphore := s.semaphore + 1, threads := s.threads[i := Idle])
      else s.(submitted := s.submitted[pc.item := false], threads := s.threads[i := Idle])
    case PassWait => s.(semaphore := s.semaphore - 1, threads := s.threads[i := Woken])
    case CallbackReturns =>
      s.(submitted := s.submitted[pc.item := false], threads := s.threads[i := Waiting])
  }

  /** The queue's pointers as the code edits them under the lock. */
  class WorkQueue {
    var head: Option<ItemId>
    var tail: Option<ItemId>
    var next: map<ItemId, Option<ItemId>>

    predicate Shows(s: State)
      reads this
    {
      head == s.head && tail == s.tail && next == s.next
    }

    /** The locked part of SubmitThreadpoolWork. */
    method Append(work: ItemId, ghost s: State, ghost i: nat)
      requires Shows(s) && i < |s.threads|
      modifies this
      ensures Shows(Link(s, i, work))
    {
      next := next[work := None];
      if tail.Some? {
        next := next[tail.value := Some(work)];
      } else {
        head := Some(work);
      }
      tail := Some(work);
    }

    /** The locked part of threadpool_worker_start. */
    method TakeFirst(ghost s: State, ghost i: nat) returns (work: Option<ItemId>)
      requires Shows(s) && i < |s.threads|
      modifies this
      ensures Shows(Unlink(s, i)) && Unlink(s, i).threads[i] == Unlinked(work)
    {
      work := head;
      if work.Some? {
        head := if work.value in next then next[work.value] else None;
        if head == None {
          tail := None;
        }
        next := next[work.value := None];
      }
    }
  }

  // ------------------------------------------------------------- counting

  /** The units a thread owes: a count it consumed without taking an item yet, or an item
      it linked without adding the count yet. */
  function Owes(pc: Pc): nat
  {
    match pc
    case Woken => 1
    case Unlinking => 1
    case LinkedUp(_) => 1
    case ToRelease(_) => 1
    case _ => 0
  }

  function Owed(threads: seq<Pc>, n: nat): nat
    requires n <= |threads|
  {
    if n == 0 then 0 else Owed(threads, n - 1) + Owes(threads[n - 1])
  }

  /** Whether a thread has the item in hand, outside the queue. */
  function Holds(pc: Pc, item: ItemId): nat
  {
    match pc
    case Claimed(x) => if x == item then 1 else 0
    case Linking(x) => if x == item then 1 else 0
    case Unlinked(Some(x)) => if x == item then 1 else 0
    case Running(x) => if x == item then 1 else 0
    case _ => 0
  }

  function Holders(threads: seq<Pc>, item: ItemId, n: nat): nat
    requires n <= |threads|
  {
    if n == 0 then 0 else Holders(threads, item, n - 1) + Holds(threads[n - 1], item)
  }

  lemma {:induction false} OwedUpdate(threads: seq<Pc>, i: nat, pc: Pc, n: nat)
    requires i < |threads| && n <= |threads|
    ensures Owed(threads[i := pc], n) == Owed(threads, n) + (if i < n then Owes(pc) - Owes(threads[i]) else 0)
  {
    if n > 0 {
      OwedUpdate(threads, i, pc, n - 1);
    }
  }

  lemma {:induction false} HoldersUpdate(threads: seq<Pc>, item: ItemId, i: nat, pc: Pc, n: nat)
    requires i < |threads| && n <= |threads|
    ensures Holders(threads[i := pc], item, n)
         == Holders(threads, item, n) + (if i < n then Holds(pc, item) - Holds(threads[i], item) else 0)
  {
    if n > 0 {
      HoldersUpdate(threads, item, i, pc, n - 1);
    }
  }

  lemma {:induction false} OwedAtLeast(threads: seq<Pc>, i: nat, n: nat)
    requires i < n <= |threads|
    ensures Owed(threads, n) >= Owes(threads[i])
  {
    if i < n - 1 {
      OwedAtLeast(threads, i, n - 1);
    }
  }

  lemma {:induction false} HoldersAtLeast(threads: seq<Pc>, item: ItemId, i: nat, j: nat, n: nat)
    requires i < j < n <= |threads|
    ensures Holders(threads, item, n) >= Holds(threads[i], item) + Holds(threads[j], item)
  {
    if j < n - 1 {
      HoldersAtLeast(threads, item, i, j, n - 1);
    } else {
      HoldersOne(threads, item, i, n - 1);
    }
  }

  lemma {:induction false} HoldersOne(threads: seq<Pc>, item: ItemId, i: nat, n: nat)
    requires i < n <= |threads|
    ensures Holders(threads, item, n) >= Holds(threads[i], item)
  {
    if i < n - 1 {
      HoldersOne(threads, item, i, n - 1);
    }
  }

  // ------------------------------------------------------------ invariant

  /** What is in the queue: linked but not yet taken. */
  function Queue(s: State): seq<ItemId>
    requires |s.taken| <= |s.linked|
  {
    s.linked[|s.taken|..]
  }

  /** FIFO: items are taken in the order they were linked. */
  predicate Fifo(s: State)
  {
    |s.taken| <= |s.linked| && s.taken == s.linked[..|s.taken|]
  }

  /** The pointers spell out the queue. */
  predicate Chain(s: State)
    requires Fifo(s)
  {
    var q := Queue(s);
    && s.head == (if q == [] then None else Some(q[0]))
    && s.tail == (if q == [] then None else Some(q[|q| - 1]))
    && forall k :: 0 <= k < |q| ==> Follows(s, q, k)
  }

  predicate Follows(s: State, q: seq<ItemId>, k: nat)
    requires k < |q|
  {
    q[k] in s.next && s.next[q[k]] == if k + 1 < |q| then Some(q[k + 1]) else None
  }

  predicate InLock(pc: Pc)
  {
    pc.Linking? || pc.LinkedUp? || pc.Unlinking? || pc.Unlinked?
  }

  /** Every submitted item is in one place, every other item in none. */
  predicate Placed(s: State, item: ItemId)
    requires Fifo(s) && item in s.submitted
  {
    Holders(s.threads, item, |s.threads|) + multiset(Queue(s))[item] == if s.submitted[item] then 1 else 0
  }

  predicate Balanced(s: State)
    requires Fifo(s)
  {
    |Queue(s)| == s.semaphore + Owed(s.threads, |s.threads|)
  }

  predicate LockOwned(s: State)
  {
    forall i :: 0 <= i < |s.threads| ==> (InLock(s.threads[i]) <==> s.lock == Some(i))
  }

  predicate AllPlaced(s: State)
    requires Fifo(s)
  {
    forall item :: item in s.submitted ==> Placed(s, item)
  }

  /** Threads and queue speak of items that exist. */
  ghost predicate Known(s: State)
    requires Fifo(s)
  {
    && (forall i, item :: 0 <= i < |s.threads| && Holds(s.threads[i], item) > 0 ==> item in s.submitted)
    && (forall item :: item in Queue(s) ==> item in s.submitted)
    && (forall i :: 0 <= i < |s.threads| ==> s.threads[i] != Unlinked(None))
    && |s.submitted| <= MAX_ITEMS
  }

  ghost predicate Inv(s: State)
  {
    Fifo(s) && Chain(s) && Balanced(s) && LockOwned(s) && AllPlaced(s) && Known(s)
  }

  /** Submitters between calls, workers at the wait, nothing queued. */
  predicate Start(s: State)
  {
    && s.head == None && s.tail == None && s.lock == None && s.semaphore == 0
    && s.linked == [] && s.taken == [] && |s.submitted| <= MAX_ITEMS
    && (forall item :: item in s.submitted ==> !s.submitted[item])
    && (forall i :: 0 <= i < |s.threads| ==> s.threads[i] == Idle || s.threads[i] == Waiting)
  }

  lemma {:induction false} NobodyHolds(threads: seq<Pc>, item: ItemId, n: nat)
    requires n <= |threads| && forall i :: 0 <= i < |threads| ==> threads[i] == Idle || threads[i] == Waiting
    ensures Holders(threads, item, n) == 0 && Owed(threads, n) == 0
  {
    if n > 0 {
      NobodyHolds(threads, item, n - 1);
    }
  }

  lemma StartInv(s: State)
    requires Start(s)
    ensures Inv(s)
  {
    forall item | item in s.submitted ensures Placed(s, item) {
      NobodyHolds(s.threads, item, |s.threads|);
    }
    NobodyHolds(s.threads, 0, |s.threads|);
  }

  /** Items in the queue are distinct and held by nobody. */
  lemma QueuedOnce(s: State, k: nat)
    requires Inv(s) && k < |Queue(s)|
    ensures var item := Queue(s)[k]; multiset(Queue(s))[item] == 1 && Holders(s.threads, item, |s.threads|) == 0
  {
    var item := Queue(s)[k];
    assert item in Queue(s) && item in multiset(Queue(s));
    assert Placed(s, item);
  }

  lemma Distinct(s: State, j: nat, k: nat)
    requires Inv(s) && j < k < |Queue(s)|
    ensures Queue(s)[j] != Queue(s)[k]
  {
    var q := Queue(s);
    QueuedOnce(s, j);
    assert q == q[..k] + [q[k]] + q[k + 1..];
    assert q[j] in q[..k];
  }

  /** The queue never holds more than there are items. */
  lemma QueueFits(s: State)
    requires Inv(s)
    ensures |Queue(s)| <= |s.submitted|
  {
    var q := Queue(s);
    forall j, k | 0 <= j < k < |q| ensures q[j] != q[k] {
      Distinct(s, j, k);
    }
    NoDupFits(q, s.submitted.Keys);
  }

  // ---------------------------------------------------------- preservation

  /** A step that leaves queue and items alone keeps the counts if its own debts balance. */
  lemma PcChange(s: State, i: nat, pc: Pc, semaphore: nat, lock: Option<nat>)
    requires Inv(s) && i < |s.threads|
    requires semaphore + Owes(pc) == s.semaphore + Owes(s.threads[i])
    requires forall item :: Holds(pc, item) == Holds(s.threads[i], item)
    requires pc != Unlinked(None)
    requires if InLock(pc) then lock == Some(i) && (s.lock == None || s.lock == Some(i))
             else if InLock(s.threads[i]) then lock == None else lock == s.lock
    ensures Inv(s.(threads := s.threads[i := pc], semaphore := semaphore, lock := lock))
  {
    var r := s.(threads := s.threads[i := pc], semaphore := semaphore, lock := lock);
    OwedUpdate(s.threads, i, pc, |s.threads|);
    forall item | item in s.submitted ensures Placed(r, item) {
      assert Placed(s, item);
      HoldersUpdate(s.threads, item, i, pc, |s.threads|);
    }
    assert Queue(r) == Queue(s);
    forall k | 0 <= k < |Queue(s)| ensures Follows(r, Queue(r), k) {
      assert Follows(s, Queue(s), k);
    }
  }

  /** The step claims an item nobody has, or gives up the one it has. */
  ghost predicate Claims(s: State, i: nat, pc: Pc, item: ItemId, claimed: bool)
  {
    && i < |s.threads| && item in s.submitted && s.submitted[item] != claimed
    && Owes(pc) == Owes(s.threads[i]) && !InLock(pc) && !InLock(s.threads[i])
    && (forall x :: Holds(pc, x) == if x == item && claimed then 1 else 0)
    && (forall x :: Holds(s.threads[i], x) == if x == item && !claimed then 1 else 0)
  }

  function Claim(s: State, i: nat, pc: Pc, item: ItemId, claimed: bool): State
    requires i < |s.threads|
  {
    s.(submitted := s.submitted[item := claimed], threads := s.threads[i := pc])
  }

  lemma ClaimPlaced(s: State, i: nat, pc: Pc, item: ItemId, claimed: bool)
    requires Fifo(s) && AllPlaced(s) && Claims(s, i, pc, item, claimed)
    ensures AllPlaced(Claim(s, i, pc, item, claimed))
  {
    var r := Claim(s, i, pc, item, claimed);
    forall x | x in r.submitted ensures Placed(r, x) {
      assert Placed(s, x);
      HoldersUpdate(s.threads, x, i, pc, |s.threads|);
    }
  }

  lemma ClaimKnown(s: State, i: nat, pc: Pc, item: ItemId, claimed: bool)
    requires Inv(s) && Claims(s, i, pc, item, claimed)
    ensures Fifo(Claim(s, i, pc, item, claimed)) && Known(Claim(s, i, pc, item, claimed))
  {
    var r := Claim(s, i, pc, item, claimed);
    assert r.submitted.Keys == s.submitted.Keys;
    forall j, x | 0 <= j < |r.threads| && Holds(r.threads[j], x) > 0 ensures x in r.submitted {
      assert j != i ==> r.threads[j] == s.threads[j];
    }
  }

  lemma ClaimChange(s: State, i: nat, pc: Pc, item: ItemId, claimed: bool)
    requires Inv(s) && Claims(s, i, pc, item, claimed)
    ensures Inv(Claim(s, i, pc, item, claimed))
  {
    var r := Claim(s, i, pc, item, claimed);
    ClaimPlaced(s, i, pc, item, claimed);
    ClaimKnown(s, i, pc, item, claimed);
    OwedUpdate(s.threads, i, pc, |s.threads|);
    forall k | 0 <= k < |Queue(s)| ensures Follows(r, Queue(r), k) {
      assert Follows(s, Queue(s), k);
    }
  }

  lemma LinkQueue(s: State, i: nat)
    requires Inv(s) && i < |s.threads| && s.threads[i].Linking?
    ensures var r := Link(s, i, s.threads[i].item); Fifo(r) && Queue(r) == Queue(s) + [s.threads[i].item]
    ensures s.threads[i].item !in Queue(s) && s.threads[i].item in s.submitted
  {
    var work := s.threads[i].item;
    var r, q := Link(s, i, work), Queue(s);
    assert Holds(s.threads[i], work) == 1;
    HoldersOne(s.threads, work, i, |s.threads|);
    assert Placed(s, work);
    assert work !in q by {
      assert multiset(q)[work] == 0;
    }
    assert r.taken == r.linked[..|r.taken|];
  }

  lemma LinkChain(s: State, i: nat)
    requires Inv(s) && i < |s.threads| && s.threads[i].Linking? && Fifo(Link(s, i, s.threads[i].item))
    ensures Chain(Link(s, i, s.threads[i].item))
  {
    LinkQueue(s, i);
    var r, q := Link(s, i, s.threads[i].item), Queue(s);
    forall k | 0 <= k < |Queue(r)| ensures Follows(r, Queue(r), k) {
      if k < |q| {
        assert Follows(s, q, k);
        if k < |q| - 1 {
          Distinct(s, k, |q| - 1);
        }
      }
    }
  }

  lemma AppendCount(q: seq<ItemId>, work: ItemId, item: ItemId)
    ensures multiset(q + [work])[item] == multiset(q)[item] + if item == work then 1 else 0
  {
  }

  lemma PopCount(q: seq<ItemId>, item: ItemId)
    requires q != []
    ensures multiset(q)[item] == multiset(q[1..])[item] + if item == q[0] then 1 else 0
  {
    assert q == [q[0]] + q[1..];
  }

  lemma LinkPlaced(s: State, i: nat)
    requires Inv(s) && i < |s.threads| && s.threads[i].Linking? && Fifo(Link(s, i, s.threads[i].item))
    ensures AllPlaced(Link(s, i, s.threads[i].item))
  {
    LinkQueue(s, i);
    var work := s.threads[i].item;
    var r, q := Link(s, i, work), Queue(s);
    assert Holds(s.threads[i], work) == 1;
    forall item | item in r.submitted ensures Placed(r, item) {
      assert Placed(s, item);
      HoldersUpdate(s.threads, item, i, LinkedUp(work), |s.threads|);
      AppendCount(q, work, item);
    }
  }

  lemma LinkKeeps(s: State, i: nat)
    requires Inv(s) && i < |s.threads| && s.threads[i].Linking?
    ensures Inv(Link(s, i, s.threads[i].item))
  {
    LinkQueue(s, i);
    LinkChain(s, i);
    LinkPlaced(s, i);
    OwedUpdate(s.threads, i, LinkedUp(s.threads[i].item), |s.threads|);
  }

  /** A worker that passed the wait finds an item: it is owed one. */
  lemma WokenFinds(s: State, i: nat)
    requires Inv(s) && i < |s.threads| && Owes(s.threads[i]) > 0
    ensures Queue(s) != [] && s.head == Some(Queue(s)[0])
  {
    OwedAtLeast(s.threads, i, |s.threads|);
  }

  lemma UnlinkQueue(s: State, i: nat)
    requires Inv(s) && i < |s.threads| && s.threads[i] == Unlinking
    ensures Queue(s) != [] && s.head == Some(Queue(s)[0]) && Queue(s)[0] in s.next
    ensures Fifo(Unlink(s, i)) && Queue(Unlink(s, i)) == Queue(s)[1..]
  {
    WokenFinds(s, i);
    var r := Unlink(s, i);
    assert Follows(s, Queue(s), 0);
    assert r.taken == r.linked[..|r.taken|];
  }

  lemma UnlinkChain(s: State, i: nat)
    requires Inv(s) && i < |s.threads| && s.threads[i] == Unlinking && Fifo(Unlink(s, i))
    ensures Chain(Unlink(s, i))
  {
    UnlinkQueue(s, i);
    var r, q := Unlink(s, i), Queue(s);
    assert Follows(s, q, 0);
    forall k | 0 <= k < |Queue(r)| ensures Follows(r, Queue(r), k) {
      assert Follows(s, q, k + 1);
      Distinct(s, 0, k + 1);
    }
  }

  /** An item stays placed when the head of the queue goes from the queue to a worker. */
  lemma UnlinkPlacedItem(s: State, i: nat, item: ItemId)
    requires Fifo(s) && i < |s.threads| && s.threads[i] == Unlinking && item in s.submitted && Placed(s, item)
    requires Queue(s) != [] && Fifo(Unlink(s, i)) && Queue(Unlink(s, i)) == Queue(s)[1..]
    requires s.head == Some(Queue(s)[0])
    ensures item in Unlink(s, i).submitted && Placed(Unlink(s, i), item)
  {
    HoldersUpdate(s.threads, item, i, Unlinked(Some(Queue(s)[0])), |s.threads|);
    PopCount(Queue(s), item);
  }

  lemma UnlinkPlaced(s: State, i: nat)
    requires Inv(s) && i < |s.threads| && s.threads[i] == Unlinking && Fifo(Unlink(s, i))
    ensures AllPlaced(Unlink(s, i))
  {
    UnlinkQueue(s, i);
    forall item | item in Unlink(s, i).submitted ensures Placed(Unlink(s, i), item) {
      assert Placed(s, item);
      UnlinkPlacedItem(s, i, item);
    }
  }

  lemma UnlinkKeeps(s: State, i: nat)
    requires Inv(s) && i < |s.threads| && s.threads[i] == Unlinking
    ensures Inv(Unlink(s, i))
  {
    UnlinkQueue(s, i);
    UnlinkChain(s, i);
    UnlinkPlaced(s, i);
    assert Queue(s)[0] in Queue(s);
    OwedUpdate(s.threads, i, Unlinked(Some(Queue(s)[0])), |s.threads|);
  }

  /** The semaphore never overflows, so the failure path of ReleaseSemaphore, which would
      leave an unsubmitted item queued, is never taken. */
  lemma ReleaseSucceeds(s: State, i: nat)
    requires Inv(s) && i < |s.threads| && s.threads[i].ToRelease?
    ensures s.semaphore < MAX_ITEMS <= SEMAPHORE_LIMIT
  {
    OwedAtLeast(s.threads, i, |s.threads|);
    QueueFits(s);
  }

  lemma SubmitKeeps(s: State, i: nat, item: ItemId)
    requires Inv(s) && Enabled(s, i, Submit(item))
    ensures Inv(Next(s, i, Submit(item)))
  {
    if !s.submitted[item] {
      ClaimChange(s, i, Claimed(item), item, true);
    }
  }

  lemma LockKeeps(s: State, i: nat)
    requires Inv(s) && Enabled(s, i, Lock)
    ensures Inv(Next(s, i, Lock))
  {
    var pc := s.threads[i];
    PcChange(s, i, if pc.Claimed? then Linking(pc.item) else Unlinking, s.semaphore, Some(i));
  }

  lemma UnlockKeeps(s: State, i: nat)
    requires Inv(s) && Enabled(s, i, Unlock)
    ensures Inv(Next(s, i, Unlock))
  {
    var pc := s.threads[i];
    var after := if pc.LinkedUp? then ToRelease(pc.item)
                 else if pc.found.Some? then Running(pc.found.value) else Waiting;
    PcChange(s, i, after, s.semaphore, None);
  }

  lemma ReleaseKeeps(s: State, i: nat)
    requires Inv(s) && Enabled(s, i, Release)
    ensures Inv(Next(s, i, Release))
  {
    ReleaseAdds(s, i);
    PcChange(s, i, Idle, s.semaphore + 1, s.lock);
  }

  lemma ReleaseAdds(s: State, i: nat)
    requires Inv(s) && Enabled(s, i, Release)
    ensures Next(s, i, Release) == s.(threads := s.threads[i := Idle], semaphore := s.semaphore + 1, lock := s.lock)
  {
    ReleaseSucceeds(s, i);
  }

  lemma PassWaitKeeps(s: State, i: nat)
    requires Inv(s) && Enabled(s, i, PassWait)
    ensures Inv(Next(s, i, PassWait))
  {
    assert Next(s, i, PassWait) == s.(threads := s.threads[i := Woken], semaphore := s.semaphore - 1);
    PcChange(s, i, Woken, s.semaphore - 1, s.lock);
  }

  lemma ReturnKeeps(s: State, i: nat)
    requires Inv(s) && Enabled(s, i, CallbackReturns)
    ensures Inv(Next(s, i, CallbackReturns))
  {
    var item := s.threads[i].item;
    assert Holds(s.threads[i], item) == 1;
    HoldersOne(s.threads, item, i, |s.threads|);
    assert Placed(s, item);
    ClaimChange(s, i, Waiting, item, false);
  }

  lemma StepKeeps(s: State, i: nat, a: Action)
    requires Inv(s) && Enabled(s, i, a)
    ensures Inv(Next(s, i, a))
  {
    match a
    case Submit(item) => SubmitKeeps(s, i, item);
    case Lock => LockKeeps(s, i);
    case Body => if s.threads[i].Linking? { LinkKeeps(s, i); } else { UnlinkKeeps(s, i); }
    case Unlock => UnlockKeeps(s, i);
    case Release => ReleaseKeeps(s, i);
    case PassWait => PassWaitKeeps(s, i);
    case CallbackReturns => ReturnKeeps(s, i);
  }

  // ----------------------------------------------------------------- runs

  /** The states of a run; actions[k] is who did what. */
  predicate IsRun(trace: seq<State>, actions: seq<(nat, Action)>)
  {
    |trace| == |actions| + 1
    && forall k :: 0 <= k < |actions| ==>
         Enabled(trace[k], actions[k].0, actions[k].1) && trace[k + 1] == Next(trace[k], actions[k].0, actions[k].1)
  }

  lemma {:induction false} InvAlong(trace: seq<State>, actions: seq<(nat, Action)>, k: nat)
    requires IsRun(trace, actions) && Start(trace[0]) && k < |trace|
    ensures Inv(trace[k])
  {
    if k == 0 {
      StartInv(trace[0]);
    } else {
      InvAlong(trace, actions, k - 1);
      StepKeeps(trace[k - 1], actions[k - 1].0, actions[k - 1].1);
    }
  }

  /** The protocol, in every reachable state: the queue's length is the semaphore's count
      plus the workers that passed the wait and have yet to take an item plus the
      submitters that have linked one and have yet to release;
      items are taken in the order they were linked; no item runs in two workers, or runs
      while it is queued or being queued again; and the lock has one holder. */
  lemma Protocol(trace: seq<State>, actions: seq<(nat, Action)>, k: nat, i: nat, j: nat)
    requires IsRun(trace, actions) && Start(trace[0]) && k < |trace|
    requires i < |trace[k].threads| && j < |trace[k].threads| && i != j
    ensures var s := trace[k];
      && Fifo(s) && |Queue(s)| == s.semaphore + Owed(s.threads, |s.threads|)
      && (s.threads[i].Running? && s.threads[j].Running? ==> s.threads[i].item != s.threads[j].item)
      && (s.threads[i].Running? ==> s.threads[i].item !in Queue(s) && Holds(s.threads[j], s.threads[i].item) == 0)
      && !(InLock(s.threads[i]) && InLock(s.threads[j]))
  {
    InvAlong(trace, actions, k);
    var s := trace[k];
    if s.threads[i].Running? {
      var item := s.threads[i].item;
      assert Holds(s.threads[i], item) == 1;
      HoldersAtLeast(s.threads, item, if i < j then i else j, if i < j then j else i, |s.threads|);
      HoldersOne(s.threads, item, i, |s.threads|);
      assert Placed(s, item);
    }
  }

  /** In no reachable state does a worker that passed the wait find the queue empty. */
  lemma WokenNeverEmpty(trace: seq<State>, actions: seq<(nat, Action)>, k: nat, i: nat)
    requires IsRun(trace, actions) && Start(trace[0]) && k < |trace|
    requires i < |trace[k].threads| && (trace[k].threads[i] == Woken || trace[k].threads[i] == Unlinking)
    ensures trace[k].head.Some? && Fifo(trace[k]) && Queue(trace[k]) != []
    ensures trace[k].head == Some(Queue(trace[k])[0])
  {
    InvAlong(trace, actions, k);
    WokenFinds(trace[k], i);
  }

  /** History only grows: what was linked stays linked, in place, and so does what was taken. */
  lemma {:induction false} HistoryGrows(trace: seq<State>, actions: seq<(nat, Action)>, j: nat, k: nat)
    requires IsRun(trace, actions) && j <= k < |trace|
    ensures trace[j].linked <= trace[k].linked && trace[j].taken <= trace[k].taken
  {
    if j < k {
      HistoryGrows(trace, actions, j, k - 1);
    }
  }
}

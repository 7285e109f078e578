/** The USER message queues of kernel/ke/syscall.c: a ring of posted messages and a lazily
    created input event per thread, and synthesized WM_PAINT per window. */
module MessageQueues {
  import opened Prelude

  const CAPACITY := 64
  const MAX_QUEUES := 64
  const SLOTS := 128
  const REDELIVERY := 4
  const WM_PAINT := 0x000F

  datatype Msg = Msg(hwnd: nat, message: nat, wparam: nat, lparam: int, time: nat, x: int, y: int)

  /** A thread's queue; the event is absent or signaled or not. */
  datatype Queue = Queue(msgs: seq<Msg>, head: nat, tail: nat, event: Option<bool>)

  /** Queues by thread id less one, windows by slot, the next slot to hand out; and history:
      what each thread's queue accepted and what was removed from it, and the WM_PAINTs
      delivered for a window since it was last invalidated. */
  datatype State = State(queues: seq<Queue>, owner: seq<nat>, update: seq<nat>, nextSlot: nat,
                         accepted: seq<seq<Msg>>, removed: seq<seq<Msg>>, paints: seq<nat>)

  // ------------------------------------------------------------- the ring

  predicate Ring(q: Queue)
  {
    |q.msgs| == CAPACITY && q.head < CAPACITY && q.tail < CAPACITY
  }

  function Count(q: Queue): (n: nat)
    requires Ring(q)
    ensures n < CAPACITY
  {
    (q.head + CAPACITY - q.tail) % CAPACITY
  }

  /** Where the k-th queued message is. */
  function Place(tail: nat, k: nat): (p: nat)
    ensures p < CAPACITY
  {
    (tail + k) % CAPACITY
  }

  /** What is queued, oldest first. */
  function Contents(q: Queue): (c: seq<Msg>)
    requires Ring(q)
    ensures |c| == Count(q)
  {
    seq(Count(q), (k: nat) requires k < Count(q) => q.msgs[Place(q.tail, k)])
  }

  /** The ring is full with one place unused. */
  predicate Full(q: Queue)
  {
    (q.head + 1) % CAPACITY == q.tail
  }

  function Put(q: Queue, m: Msg): Queue
    requires Ring(q)
  {
    q.(msgs := q.msgs[q.head := m], head := (q.head + 1) % CAPACITY)
  }

  function Advanced(q: Queue): Queue
  {
    q.(tail := (q.tail + 1) % CAPACITY)
  }

  /** Places and counts around the ring, without the modulus. */
  lemma RingCases(head: nat, tail: nat)
    requires head < CAPACITY && tail < CAPACITY
    ensures (head + CAPACITY - tail) % CAPACITY == if tail <= head then head - tail else head + CAPACITY - tail
    ensures (head + 1) % CAPACITY == if head == CAPACITY - 1 then 0 else head + 1
  {
  }

  lemma RingArithmetic(head: nat, tail: nat)
    requires head < CAPACITY && tail < CAPACITY
    ensures (head + 1) % CAPACITY == tail <==> (head + CAPACITY - tail) % CAPACITY == CAPACITY - 1
    ensures (head + 1) % CAPACITY != tail ==>
      ((head + 1) % CAPACITY + CAPACITY - tail) % CAPACITY == (head + CAPACITY - tail) % CAPACITY + 1
    ensures tail == head <==> (head + CAPACITY - tail) % CAPACITY == 0
    ensures tail != head ==>
      (head + CAPACITY - (tail + 1) % CAPACITY) % CAPACITY == (head + CAPACITY - tail) % CAPACITY - 1
  {
    RingCases(head, tail);
    RingCases(tail, tail);
    RingCases((head + 1) % CAPACITY, tail);
    RingCases(head, (tail + 1) % CAPACITY);
  }

  /** Only the place after the last queued message is the head. */
  lemma HeadPlace(head: nat, tail: nat, k: nat)
    requires head < CAPACITY && tail < CAPACITY && k <= (head + CAPACITY - tail) % CAPACITY
    ensures Place(tail, k) == head <==> k == (head + CAPACITY - tail) % CAPACITY
  {
    RingCases(head, tail);
  }

  lemma NextPlace(tail: nat, k: nat)
    ensures Place((tail + 1) % CAPACITY, k) == Place(tail, k + 1)
  {
  }

  lemma PutAppends(q: Queue, m: Msg)
    requires Ring(q)
    ensures Full(q) <==> Count(q) == CAPACITY - 1
    ensures !Full(q) ==> Ring(Put(q, m)) && Contents(Put(q, m)) == Contents(q) + [m]
  {
    RingArithmetic(q.head, q.tail);
    if !Full(q) {
      var r := Put(q, m);
      forall k | 0 <= k < Count(r) ensures Contents(r)[k] == (Contents(q) + [m])[k] {
        HeadPlace(q.head, q.tail, k);
      }
    }
  }

  lemma AdvanceDrops(q: Queue)
    requires Ring(q)
    ensures q.tail == q.head <==> Contents(q) == []
    ensures q.tail != q.head ==>
      Contents(q)[0] == q.msgs[q.tail] && Ring(Advanced(q)) && Contents(Advanced(q)) == Contents(q)[1..]
  {
    RingArithmetic(q.head, q.tail);
    if q.tail != q.head {
      var r := Advanced(q);
      forall k | 0 <= k < Count(r) ensures Contents(r)[k] == Contents(q)[1..][k] {
        NextPlace(q.tail, k);
      }
    }
  }

  // --------------------------------------------------------- dirty windows

  /** KiUserNextUpdateWindow from a slot on: the first window of the thread that owes a
      WM_PAINT, or 0. */
  function NextDirty(owner: seq<nat>, update: seq<nat>, tid: nat, slot: nat): (r: nat)
    requires |owner| == |update| == SLOTS && 1 <= slot <= SLOTS
    ensures r == 0 || (slot <= r < SLOTS && update[r] > 0 && owner[r] == tid)
    decreases |owner| - slot
  {
    if slot == SLOTS then 0
    else if update[slot] > 0 && owner[slot] == tid then slot
    else NextDirty(owner, update, tid, slot + 1)
  }

  predicate Dirty(s: State, tid: nat, slot: nat)
    requires |s.owner| == |s.update| == SLOTS
  {
    1 <= slot < SLOTS && s.update[slot] > 0 && s.owner[slot] == tid
  }

  /** The search finds the lowest dirty window, and none only if there is none. */
  lemma {:induction false} NextDirtyMeaning(s: State, tid: nat, from: nat, slot: nat)
    requires |s.owner| == |s.update| == SLOTS && 1 <= from <= slot && Dirty(s, tid, slot)
    ensures 1 <= NextDirty(s.owner, s.update, tid, from) <= slot
    decreases slot - from
  {
    if from < slot {
      NextDirtyMeaning(s, tid, from + 1, slot);
    }
  }

  // ----------------------------------------------------------- operations

  predicate HasQueue(tid: nat)
  {
    1 <= tid <= MAX_QUEUES
  }

  predicate Sized(s: State)
  {
    && |s.queues| == |s.accepted| == |s.removed| == MAX_QUEUES
    && |s.owner| == |s.update| == |s.paints| == SLOTS
    && forall t :: 0 <= t < MAX_QUEUES ==> Ring(s.queues[t])
  }

  function QueueOf(s: State, tid: nat): (q: Queue)
    requires Sized(s) && HasQueue(tid)
    ensures Ring(q)
  {
    s.queues[tid - 1]
  }

  /** Something for the thread to do: a posted message or a paint owed. */
  predicate Pending(s: State, tid: nat)
    requires Sized(s) && HasQueue(tid)
  {
    QueueOf(s, tid).head != QueueOf(s, tid).tail || NextDirty(s.owner, s.update, tid, 1) != 0
  }

  /** KiUserSyncInputEvent */
  function Synced(s: State, tid: nat): State
    requires Sized(s) && HasQueue(tid)
  {
    var q := QueueOf(s, tid);
    if q.event == None then s
    else s.(queues := s.queues[tid - 1 := q.(event := Some(Pending(s, tid)))])
  }

  /** The common part of the two enqueue functions, for a queue with room. */
  function Enqueued(s: State, tid: nat, m: Msg): State
    requires Sized(s) && HasQueue(tid)
  {
    s.(queues := s.queues[tid - 1 := Put(QueueOf(s, tid), m)],
       accepted := s.accepted[tid - 1 := s.accepted[tid - 1] + [m]])
  }

  function Posted(s: State, tid: nat, m: Msg): State
    requires Sized(s)
  {
    if !HasQueue(tid) || Full(QueueOf(s, tid)) then s else Synced(Enqueued(s, tid, m), tid)
  }

  /** A window's count set, and its owner's event with it. */
  function Marked(s: State, slot: nat, count: nat): State
    requires Sized(s) && 1 <= slot < SLOTS
  {
    var r := s.(update := s.update[slot := count],
                paints := if count > 0 then s.paints[slot := 0] else s.paints);
    if HasQueue(s.owner[slot]) then Synced(r, s.owner[slot]) else r
  }

  function PaintFor(slot: nat, now: nat): Msg
  {
    Msg(0x10000 + slot, WM_PAINT, 0, 0, now, 0, 0)
  }

  /** A WM_PAINT delivered: one fewer is owed. */
  function Painted(s: State, tid: nat, slot: nat): State
    requires Sized(s) && HasQueue(tid) && 1 <= slot < SLOTS && s.update[slot] > 0
  {
    var r := s.(update := s.update[slot := s.update[slot] - 1], paints := s.paints[slot := s.paints[slot] + 1]);
    if s.update[slot] == 1 then Synced(r, tid) else r
  }

  function Dequeued(s: State, tid: nat): State
    requires Sized(s) && HasQueue(tid) && QueueOf(s, tid).head != QueueOf(s, tid).tail
  {
    var q := QueueOf(s, tid);
    Synced(s.(queues := s.queues[tid - 1 := Advanced(q)],
              removed := s.removed[tid - 1 := s.removed[tid - 1] + [q.msgs[q.tail]]]), tid)
  }

  /** KiUserTakeMessage: the message, if any, and the new state. */
  function Taken(s: State, tid: nat, remove: bool, now: nat): (Option<Msg>, State)
    requires Sized(s)
  {
    if !HasQueue(tid) then (None, s)
    else
      var q := QueueOf(s, tid);
      if q.tail == q.head then
        var slot := NextDirty(s.owner, s.update, tid, 1);
        if slot == 0 then (None, s) else (Some(PaintFor(slot, now)), Painted(s, tid, slot))
      else (Some(q.msgs[q.tail]), if remove then Dequeued(s, tid) else s)
  }

  // ------------------------------------------------------------- invariant

  /** FIFO: what was removed and what is queued is what was accepted. */
  predicate Fifo(s: State, t: nat)
    requires Sized(s) && t < MAX_QUEUES
  {
    s.removed[t] + Contents(s.queues[t]) == s.accepted[t]
  }

  predicate NothingDirty(s: State, tid: nat)
    requires |s.owner| == |s.update| == SLOTS
  {
    forall slot :: 1 <= slot < SLOTS && s.update[slot] > 0 ==> s.owner[slot] != tid
  }

  /** An existing event that is not signaled means nothing to do. */
  predicate EventTold(s: State, t: nat)
    requires Sized(s) && t < MAX_QUEUES
  {
    s.queues[t].event == Some(false) ==>
      s.queues[t].head == s.queues[t].tail && NothingDirty(s, t + 1)
  }

  /** At most four paints per invalidation; a slot not handed out yet has no owner. */
  predicate SlotOk(s: State, slot: nat)
    requires Sized(s) && slot < SLOTS
  {
    && s.paints[slot] + s.update[slot] <= REDELIVERY
    && (slot >= s.nextSlot ==> s.owner[slot] == 0)
  }

  /** What every step keeps, whatever callers do. */
  predicate Inv(s: State)
  {
    && Sized(s) && 1 <= s.nextSlot <= SLOTS
    && (forall t :: 0 <= t < MAX_QUEUES ==> Fifo(s, t))
    && (forall slot :: 0 <= slot < SLOTS ==> SlotOk(s, slot))
  }

  /** No existing event hides work. */
  predicate Told(s: State)
    requires Sized(s)
  {
    forall t :: 0 <= t < MAX_QUEUES ==> EventTold(s, t)
  }

  predicate ToldExcept(s: State, tid: nat)
    requires Sized(s)
  {
    forall t :: 0 <= t < MAX_QUEUES && t + 1 != tid ==> EventTold(s, t)
  }

  /** Bringing one event in step leaves the rest alone and tells that event. */
  lemma SyncKeeps(s: State, tid: nat)
    requires Inv(s) && HasQueue(tid)
    ensures Inv(Synced(s, tid)) && (ToldExcept(s, tid) ==> Told(Synced(s, tid)))
  {
    var r := Synced(s, tid);
    forall t | 0 <= t < MAX_QUEUES ensures Fifo(r, t) {
      assert Fifo(s, t);
      assert Contents(r.queues[t]) == Contents(s.queues[t]);
    }
    forall slot | 0 <= slot < SLOTS ensures SlotOk(r, slot) {
      assert SlotOk(s, slot);
    }
    forall slot | 1 <= slot < SLOTS && s.update[slot] > 0 && s.owner[slot] == tid ensures Pending(s, tid) {
      NextDirtyMeaning(s, tid, 1, slot);
    }
    forall t | 0 <= t < MAX_QUEUES && ToldExcept(s, tid) ensures EventTold(r, t) {
      assert t + 1 != tid ==> EventTold(s, t);
    }
  }

  lemma EnqueueKeeps(s: State, tid: nat, m: Msg)
    requires Inv(s) && HasQueue(tid) && !Full(QueueOf(s, tid))
    ensures Inv(Enqueued(s, tid, m)) && (Told(s) ==> ToldExcept(Enqueued(s, tid, m), tid))
  {
    var r := Enqueued(s, tid, m);
    PutAppends(QueueOf(s, tid), m);
    assert Sized(r);
    forall t | 0 <= t < MAX_QUEUES ensures Fifo(r, t) {
      assert Fifo(s, t);
    }
    forall t | 0 <= t < MAX_QUEUES && t + 1 != tid && Told(s) ensures EventTold(r, t) {
      assert EventTold(s, t);
    }
    forall slot | 0 <= slot < SLOTS ensures SlotOk(r, slot) {
      assert SlotOk(s, slot);
    }
  }

  lemma DequeueKeeps(s: State, tid: nat)
    requires Inv(s) && HasQueue(tid) && QueueOf(s, tid).head != QueueOf(s, tid).tail
    ensures Inv(Dequeued(s, tid)) && (Told(s) ==> Told(Dequeued(s, tid)))
  {
    var q := QueueOf(s, tid);
    var r := s.(queues := s.queues[tid - 1 := Advanced(q)],
                removed := s.removed[tid - 1 := s.removed[tid - 1] + [q.msgs[q.tail]]]);
    AdvanceDrops(q);
    forall t | 0 <= t < MAX_QUEUES ensures Ring(r.queues[t]) {
      assert Ring(s.queues[t]);
    }
    forall t | 0 <= t < MAX_QUEUES ensures Fifo(r, t) {
      assert Fifo(s, t);
      if t + 1 == tid {
        assert Contents(q) == [Contents(q)[0]] + Contents(q)[1..];
      }
    }
    forall t | 0 <= t < MAX_QUEUES && t + 1 != tid && Told(s) ensures EventTold(r, t) {
      assert EventTold(s, t);
    }
    forall slot | 0 <= slot < SLOTS ensures SlotOk(r, slot) {
      assert SlotOk(s, slot);
    }
    SyncKeeps(r, tid);
  }

  /** Changing a window's counts disturbs only its owner's event. */
  lemma CountsKeep(s: State, r: State, slot: nat)
    requires Inv(s) && 1 <= slot < SLOTS
    requires |r.update| == |r.paints| == SLOTS
    requires r == s.(update := s.update[slot := r.update[slot]], paints := s.paints[slot := r.paints[slot]])
    requires r.paints[slot] + r.update[slot] <= REDELIVERY
    ensures Inv(r)
    ensures Told(s) ==> ToldExcept(r, s.owner[slot])
    ensures Told(s) && ((r.update[slot] > 0 && s.update[slot] > 0) || !HasQueue(s.owner[slot])) ==> Told(r)
  {
    forall t | 0 <= t < MAX_QUEUES ensures Fifo(r, t) {
      assert Fifo(s, t);
    }
    forall t | 0 <= t < MAX_QUEUES && Told(s) && (t + 1 != s.owner[slot] || (r.update[slot] > 0 && s.update[slot] > 0))
      ensures EventTold(r, t)
    {
      assert EventTold(s, t);
    }
    forall x | 0 <= x < SLOTS ensures SlotOk(r, x) {
      assert SlotOk(s, x);
    }
  }

  lemma MarkKeeps(s: State, slot: nat, count: nat)
    requires Inv(s) && 1 <= slot < SLOTS && (count == 0 || count == REDELIVERY)
    ensures Inv(Marked(s, slot, count)) && (Told(s) ==> Told(Marked(s, slot, count)))
  {
    var r := s.(update := s.update[slot := count],
                paints := if count > 0 then s.paints[slot := 0] else s.paints);
    assert SlotOk(s, slot);
    assert s.paints[slot := s.paints[slot]] == s.paints;
    CountsKeep(s, r, slot);
    if HasQueue(s.owner[slot]) {
      SyncKeeps(r, s.owner[slot]);
    }
  }

  lemma PaintKeeps(s: State, tid: nat, slot: nat)
    requires Inv(s) && HasQueue(tid) && 1 <= slot < SLOTS && s.update[slot] > 0 && s.owner[slot] == tid
    ensures Inv(Painted(s, tid, slot)) && (Told(s) ==> Told(Painted(s, tid, slot)))
  {
    assert SlotOk(s, slot);
    var r := s.(update := s.update[slot := s.update[slot] - 1], paints := s.paints[slot := s.paints[slot] + 1]);
    CountsKeep(s, r, slot);
    if s.update[slot] == 1 {
      SyncKeeps(r, tid);
    }
  }
}

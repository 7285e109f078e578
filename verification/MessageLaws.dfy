/** What each operation on the USER queues does, seen from outside: contents of every queue,
    paints owed by every window, and events; and how often a window is painted. */
module MessageLaws {
  import opened MessageQueues
  import opened MessageLoop
  import opened Prelude

  /** What is queued for a thread. */
  function Queued(s: State, tid: nat): seq<Msg>
    requires Sized(s) && HasQueue(tid)
  {
    Contents(QueueOf(s, tid))
  }

  /** There is a window with that handle: its thread; otherwise the thread that posts. */
  function SendTo(s: State, current: nat, hwnd: nat): nat
    requires Sized(s)
  {
    if hwnd != 0 && 1 <= hwnd % 0x1_0000 < 128 && s.owner[hwnd % 0x1_0000] != 0 then s.owner[hwnd % 0x1_0000]
    else current
  }

  /** The thread has a message, or a window of its own owes a paint. */
  predicate Work(s: State, tid: nat)
    requires Sized(s) && HasQueue(tid)
  {
    Queued(s, tid) != [] || exists slot :: 1 <= slot < SLOTS && s.update[slot] > 0 && s.owner[slot] == tid
  }

  lemma WorkIsPending(s: State, tid: nat)
    requires Sized(s) && HasQueue(tid)
    ensures Work(s, tid) <==> Pending(s, tid)
  {
    AdvanceDrops(QueueOf(s, tid));
    forall slot | 1 <= slot < SLOTS && s.update[slot] > 0 && s.owner[slot] == tid ensures Pending(s, tid) {
      NextDirtyMeaning(s, tid, 1, slot);
    }
  }

  /** If the thread has an event, it is signaled exactly if there is work. */
  predicate Exact(s: State, tid: nat)
    requires Sized(s) && HasQueue(tid)
  {
    QueueOf(s, tid).event.Some? ==> (QueueOf(s, tid).event.value <==> Work(s, tid))
  }

  /** The windows are as they were. */
  predicate SameWindows(s: State, r: State)
  {
    r.owner == s.owner && r.update == s.update && r.nextSlot == s.nextSlot
  }

  lemma SyncLaw(s: State, tid: nat, t: nat)
    requires Sized(s) && HasQueue(tid) && HasQueue(t)
    ensures var r := Synced(s, tid);
      && Sized(r) && SameWindows(s, r) && Queued(r, t) == Queued(s, t) && Exact(r, tid)
      && (QueueOf(r, t).event.Some? <==> QueueOf(s, t).event.Some?) && (t != tid ==> QueueOf(r, t) == QueueOf(s, t))
  {
    var r := Synced(s, tid);
    assert Queued(r, t) == Queued(s, t);
    assert Queued(r, tid) == Queued(s, tid);
    WorkIsPending(s, tid);
  }

  /** A message posted to a thread's queue with fewer than 63 goes to its end; nothing else
      changes but that the thread's event tells. */
  lemma PostedLaw(s: State, to: nat, m: Msg, t: nat)
    requires Inv(s) && HasQueue(t)
    ensures var r := Posted(s, to, m);
      && Sized(r) && SameWindows(s, r)
      && Queued(r, t) == Queued(s, t) + (if t == to && |Queued(s, t)| < 63 then [m] else [])
      && (t == to && |Queued(s, t)| < 63 ==> Exact(r, t))
  {
    if HasQueue(to) {
      PutAppends(QueueOf(s, to), m);
      if !Full(QueueOf(s, to)) {
        SyncLaw(Enqueued(s, to, m), to, t);
        assert t != to ==> QueueOf(Enqueued(s, to, m), t) == QueueOf(s, t);
      }
    }
    assert Queued(s, t) + [] == Queued(s, t);
  }

  lemma PostLaw(s: State, current: nat, m: Msg, t: nat)
    requires Inv(s) && HasQueue(t)
    ensures var r := Next(s, Post(current, m));
      && Sized(r) && SameWindows(s, r)
      && Queued(r, t) == Queued(s, t)
                         + (if t == SendTo(s, current, m.hwnd) && |Queued(s, t)| < 63 then [m] else [])
  {
    PostedLaw(s, Recipient(s, current, m.hwnd), m, t);
  }

  lemma PostThreadLaw(s: State, target: nat, m: Msg, t: nat)
    requires Inv(s) && HasQueue(t)
    ensures var r := Next(s, PostThread(target, m));
      && Sized(r) && SameWindows(s, r)
      && Queued(r, t) == Queued(s, t) + (if t == target && |Queued(s, t)| < 63 then [m] else [])
  {
    PostedLaw(s, target, m, t);
  }

  lemma MarkedLaw(s: State, slot: nat, count: nat, t: nat)
    requires Inv(s) && 1 <= slot < SLOTS && HasQueue(t)
    ensures var r := Marked(s, slot, count);
      && Sized(r) && r.owner == s.owner && r.nextSlot == s.nextSlot && Queued(r, t) == Queued(s, t)
      && r.update == s.update[slot := count] && (t == s.owner[slot] ==> Exact(r, t))
  {
    var r := s.(update := s.update[slot := count], paints := if count > 0 then s.paints[slot := 0] else s.paints);
    assert Queued(r, t) == Queued(s, t);
    if HasQueue(s.owner[slot]) {
      SyncLaw(r, s.owner[slot], t);
    }
  }

  /** An invalidated window owes four paints, a validated one none; no other window, and no
      queue, changes; and the owner's event says exactly whether there is work. */
  lemma InvalidateLaw(s: State, slot: nat, t: nat)
    requires Inv(s) && HasQueue(t)
    ensures var r := Next(s, Invalidate(slot));
      && Sized(r) && r.owner == s.owner && r.nextSlot == s.nextSlot && Queued(r, t) == Queued(s, t)
      && r.update == (if 1 <= slot < 128 then s.update[slot := 4] else s.update)
      && (1 <= slot < 128 && t == s.owner[slot] ==> Exact(r, t))
  {
    if 1 <= slot < SLOTS {
      MarkedLaw(s, slot, REDELIVERY, t);
    }
  }

  lemma ValidateLaw(s: State, slot: nat, t: nat)
    requires Inv(s) && HasQueue(t)
    ensures var r := Next(s, Validate(slot));
      && Sized(r) && r.owner == s.owner && r.nextSlot == s.nextSlot && Queued(r, t) == Queued(s, t)
      && r.update == (if 1 <= slot < 128 then s.update[slot := 0] else s.update)
      && (1 <= slot < 128 && t == s.owner[slot] ==> Exact(r, t))
  {
    if 1 <= slot < SLOTS {
      MarkedLaw(s, slot, 0, t);
    }
  }

  /** The first window of the thread that owes a paint. */
  predicate IsFirst(s: State, tid: nat, slot: nat)
    requires Sized(s)
  {
    && 1 <= slot < SLOTS && s.update[slot] > 0 && s.owner[slot] == tid
    && forall x :: 1 <= x < slot && s.update[x] > 0 ==> s.owner[x] != tid
  }

  lemma FirstIsNext(s: State, tid: nat, slot: nat)
    requires Sized(s) && 1 <= slot < SLOTS
    ensures IsFirst(s, tid, slot) <==> NextDirty(s.owner, s.update, tid, 1) == slot
  {
    forall x | 1 <= x < SLOTS && s.update[x] > 0 && s.owner[x] == tid
      ensures 1 <= NextDirty(s.owner, s.update, tid, 1) <= x
    {
      NextDirtyMeaning(s, tid, 1, x);
    }
  }

  /** The next thing for a thread is a paint of that window. */
  predicate PaintsNext(s: State, tid: nat, slot: nat)
    requires Sized(s)
  {
    HasQueue(tid) && Queued(s, tid) == [] && IsFirst(s, tid, slot)
  }

  /** A WM_PAINT for a window's handle. */
  predicate IsPaint(m: Msg, slot: nat, now: nat)
  {
    m == Msg(0x1_0000 + slot, 0x0F, 0, 0, now, 0, 0)
  }

  /** Taking with a message queued: the oldest, which goes if it is to be removed; the windows
      are as they were, and after a removal the event says exactly whether there is work. */
  lemma TakeMessageLaw(s: State, tid: nat, remove: bool, now: nat, t: nat)
    requires Inv(s) && HasQueue(t) && HasQueue(tid) && Queued(s, tid) != []
    ensures Taken(s, tid, remove, now).0 == Some(Queued(s, tid)[0])
    ensures var r := Next(s, Take(tid, remove, now));
      && Sized(r) && SameWindows(s, r)
      && Queued(r, t) == (if t == tid && remove then Queued(s, t)[1..] else Queued(s, t))
      && (t == tid && remove ==> Exact(r, t))
  {
    AdvanceDrops(QueueOf(s, tid));
    if remove {
      var q := QueueOf(s, tid);
      var mid := s.(queues := s.queues[tid - 1 := Advanced(q)],
                    removed := s.removed[tid - 1 := s.removed[tid - 1] + [q.msgs[q.tail]]]);
      assert QueueOf(mid, tid) == Advanced(q);
      SyncLaw(mid, tid, t);
    }
  }

  /** Taking with none queued: a paint of the first window that owes one, which then owes one
      less; with none owed, nothing. No queue changes. */
  lemma TakePaintLaw(s: State, tid: nat, remove: bool, now: nat, slot: nat, t: nat)
    requires Inv(s) && HasQueue(t) && HasQueue(tid) && Queued(s, tid) == []
    ensures var got, r := Taken(s, tid, remove, now).0, Next(s, Take(tid, remove, now));
      && Sized(r) && r.owner == s.owner && r.nextSlot == s.nextSlot && Queued(r, t) == Queued(s, t)
      && (IsFirst(s, tid, slot) ==>
            got.Some? && IsPaint(got.value, slot, now) && r.update == s.update[slot := s.update[slot] - 1])
      && (got == None <==> !Work(s, tid)) && (got == None ==> r.update == s.update)
      && (IsFirst(s, tid, slot) && s.update[slot] == 1 ==> Exact(r, tid))
  {
    AdvanceDrops(QueueOf(s, tid));
    WorkIsPending(s, tid);
    var first := NextDirty(s.owner, s.update, tid, 1);
    if 1 <= slot < SLOTS {
      FirstIsNext(s, tid, slot);
    }
    if first != 0 {
      var r := s.(update := s.update[first := s.update[first] - 1], paints := s.paints[first := s.paints[first] + 1]);
      assert Queued(r, t) == Queued(s, t);
      SyncLaw(r, tid, t);
    }
  }

  /** Asking for the event: it exists afterwards if it did before or could be made, and says
      exactly whether there is work. Nothing else changes. */
  lemma AskLaw(s: State, tid: nat, obtained: bool, t: nat)
    requires Inv(s) && HasQueue(tid) && HasQueue(t)
    ensures var r := Next(s, AskEvent(tid, obtained));
      && Sized(r) && SameWindows(s, r) && Queued(r, t) == Queued(s, t)
      && (QueueOf(r, tid).event.Some? <==> QueueOf(s, tid).event.Some? || obtained) && Exact(r, tid)
  {
    var q := QueueOf(s, tid);
    if q.event.Some? || obtained {
      var mid := s.(queues := s.queues[tid - 1 := q.(event := if q.event == None then Some(false) else q.event)]);
      assert Queued(mid, t) == Queued(s, t);
      SyncLaw(mid, tid, t);
      SyncLaw(mid, tid, tid);
    }
  }

  /** A created window takes the next of 127 slots for its creator; a destroyed one is
      nobody's. Queues, events and paints owed are as they were. */
  lemma WindowLaw(s: State, creator: nat, slot: nat)
    requires Inv(s)
    ensures var r := Next(s, CreateWindow(creator));
      && r.queues == s.queues && r.update == s.update
      && (if s.nextSlot < 128 then r.owner == s.owner[s.nextSlot := creator] && r.nextSlot == s.nextSlot + 1
          else r == s)
    ensures var r := Next(s, DestroyWindow(slot));
      && r.queues == s.queues && r.update == s.update && r.nextSlot == s.nextSlot
      && r.owner == if 1 <= slot < 128 then s.owner[slot := 0] else s.owner
  {
  }

  // --------------------------------------------------- paints over a run

  /** The step hands a paint of that window to some thread. */
  predicate Delivers(s: State, a: Action, slot: nat)
  {
    a.Take? && Sized(s) && PaintsNext(s, a.current, slot)
  }

  /** Paints of the window delivered since it was last invalidated, counted on the run. */
  function PaintsSince(trace: seq<State>, actions: seq<Action>, slot: nat, k: nat): nat
    requires k <= |actions| && k <= |trace|
  {
    if k == 0 || actions[k - 1] == Invalidate(slot) then 0
    else PaintsSince(trace, actions, slot, k - 1) + if Delivers(trace[k - 1], actions[k - 1], slot) then 1 else 0
  }

  lemma StepOwed(s: State, a: Action, slot: nat)
    requires Inv(s) && 1 <= slot < SLOTS
    ensures slot < |Next(s, a).update|
    ensures a == Invalidate(slot) ==> Next(s, a).update[slot] == 4
    ensures a != Invalidate(slot) ==>
      Next(s, a).update[slot] + (if Delivers(s, a, slot) then 1 else 0) <= s.update[slot]
    ensures a != Invalidate(slot) && a != Validate(slot) ==>
      Next(s, a).update[slot] + (if Delivers(s, a, slot) then 1 else 0) == s.update[slot]
  {
    match a
    case Post(current, m) => PostLaw(s, current, m, 1);
    case PostThread(target, m) => PostThreadLaw(s, target, m, 1);
    case Invalidate(x) => InvalidateLaw(s, x, 1);
    case Validate(x) => ValidateLaw(s, x, 1);
    case Take(tid, remove, now) =>
      if HasQueue(tid) {
        if Queued(s, tid) != [] {
          TakeMessageLaw(s, tid, remove, now, 1);
        } else {
          var first := NextDirty(s.owner, s.update, tid, 1);
          AdvanceDrops(QueueOf(s, tid));
          FirstIsNext(s, tid, slot);
          if first != 0 {
            FirstIsNext(s, tid, first);
            TakePaintLaw(s, tid, remove, now, first, 1);
          } else {
            TakePaintLaw(s, tid, remove, now, slot, 1);
          }
        }
      }
    case AskEvent(tid, obtained) => if HasQueue(tid) { AskLaw(s, tid, obtained, 1); }
    case CreateWindow(creator) => WindowLaw(s, creator, slot);
    case DestroyWindow(x) => WindowLaw(s, 0, x);
  }

  /** A window is painted at most four times per invalidation; four minus what it still owes,
      if it was not validated since. */
  lemma {:induction false} FourPaints(trace: seq<State>, actions: seq<Action>, slot: nat, k: nat)
    requires IsRun(trace, actions) && 1 <= slot < SLOTS && k < |trace|
    ensures slot < |trace[k].update| && PaintsSince(trace, actions, slot, k) + trace[k].update[slot] <= 4
  {
    InvAlong(trace, actions, k);
    if k > 0 {
      FourPaints(trace, actions, slot, k - 1);
      InvAlong(trace, actions, k - 1);
      assert Steps(trace[k - 1], actions[k - 1], trace[k]);
      StepOwed(trace[k - 1], actions[k - 1], slot);
    }
  }

  /** Without a validation, what was delivered since an invalidation and what is still owed
      make four. */
  lemma {:induction false} AllFourCount(trace: seq<State>, actions: seq<Action>, slot: nat, j: nat, k: nat)
    requires IsRun(trace, actions) && 1 <= slot < SLOTS && j < k < |trace| && actions[j] == Invalidate(slot)
    requires forall l :: j < l < k ==> actions[l] != Validate(slot) && actions[l] != Invalidate(slot)
    ensures slot < |trace[k].update| && PaintsSince(trace, actions, slot, k) + trace[k].update[slot] == 4
  {
    InvAlong(trace, actions, k - 1);
    assert Steps(trace[k - 1], actions[k - 1], trace[k]);
    StepOwed(trace[k - 1], actions[k - 1], slot);
    if j < k - 1 {
      AllFourCount(trace, actions, slot, j, k - 1);
    }
  }
}

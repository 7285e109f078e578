/** Runs of the USER message queues, what they guarantee, and the code that implements the
    steps. */
module MessageLoop {
  import opened MessageQueues
  import opened Prelude

  /** KiUserWindowOwner */
  function OwnerOf(s: State, hwnd: nat): nat
    requires Sized(s)
  {
    var slot := hwnd % 0x1_0000;
    if slot == 0 || slot >= SLOTS then 0 else s.owner[slot]
  }

  /** The thread a posted message goes to: its window's owner, else the poster. */
  function Recipient(s: State, current: nat, hwnd: nat): nat
    requires Sized(s)
  {
    if hwnd != 0 && OwnerOf(s, hwnd) != 0 then OwnerOf(s, hwnd) else current
  }

  datatype Action =
    | Post(current: nat, m: Msg)
    | PostThread(target: nat, m: Msg)
    | Invalidate(slot: nat)
    | Validate(slot: nat)
    | Take(current: nat, remove: bool, now: nat)
    | AskEvent(current: nat, obtained: bool)
    | CreateWindow(creator: nat)
    | DestroyWindow(slot: nat)

  function Next(s: State, a: Action): State
    requires Sized(s) && 1 <= s.nextSlot <= SLOTS
  {
    match a
    case Post(current, m) => Posted(s, Recipient(s, current, m.hwnd), m)
    case PostThread(target, m) => Posted(s, target, m)
    case Invalidate(slot) => if slot == 0 || slot >= SLOTS then s else Marked(s, slot, REDELIVERY)
    case Validate(slot) => if slot == 0 || slot >= SLOTS then s else Marked(s, slot, 0)
    case Take(current, remove, now) => Taken(s, current, remove, now).1
    case AskEvent(current, obtained) =>
      if !HasQueue(current) then s
      else if QueueOf(s, current).event == None && !obtained then s
      else
        var q := QueueOf(s, current);
        var event := if q.event == None then Some(false) else q.event;
        Synced(s.(queues := s.queues[current - 1 := q.(event := event)]), current)
    case CreateWindow(creator) =>
      if s.nextSlot >= SLOTS then s
      else s.(owner := s.owner[s.nextSlot := creator], nextSlot := s.nextSlot + 1)
    case DestroyWindow(slot) => if slot == 0 || slot >= SLOTS then s else s.(owner := s.owner[slot := 0])
  }

  /** The one way to hide work: a new window takes a slot that already owes a paint, and its
      creator's event exists and is not signaled. */
  predicate Misses(s: State, a: Action)
    requires Sized(s)
  {
    a.CreateWindow? && HasQueue(a.creator) && s.nextSlot < SLOTS && s.update[s.nextSlot] > 0
    && QueueOf(s, a.creator).event == Some(false)
  }

  lemma AskKeeps(s: State, current: nat, obtained: bool)
    requires Inv(s) && HasQueue(current)
    ensures Inv(Next(s, AskEvent(current, obtained)))
    ensures Told(s) ==> Told(Next(s, AskEvent(current, obtained)))
  {
    var q := QueueOf(s, current);
    if q.event != None || obtained {
      var r := s.(queues := s.queues[current - 1 := q.(event := if q.event == None then Some(false) else q.event)]);
      forall t | 0 <= t < MAX_QUEUES ensures Ring(r.queues[t]) {
        assert Ring(s.queues[t]);
      }
      forall t | 0 <= t < MAX_QUEUES ensures Fifo(r, t) {
        assert Fifo(s, t);
        assert Contents(r.queues[t]) == Contents(s.queues[t]);
      }
      forall t | 0 <= t < MAX_QUEUES && t + 1 != current && Told(s) ensures EventTold(r, t) {
        assert EventTold(s, t);
      }
      forall slot | 0 <= slot < SLOTS ensures SlotOk(r, slot) {
        assert SlotOk(s, slot);
      }
      SyncKeeps(r, current);
    }
  }

  /** A destroyed window is nobody's: that makes no work. */
  lemma DestroyKeeps(s: State, slot: nat)
    requires Inv(s) && 1 <= slot < SLOTS
    ensures var r := s.(owner := s.owner[slot := 0]); Inv(r) && (Told(s) ==> Told(r))
  {
    var r := s.(owner := s.owner[slot := 0]);
    forall t | 0 <= t < MAX_QUEUES ensures Fifo(r, t) && (Told(s) ==> EventTold(r, t)) {
      assert Fifo(s, t) && (Told(s) ==> EventTold(s, t));
    }
    forall x | 0 <= x < SLOTS ensures SlotOk(r, x) {
      assert SlotOk(s, x);
    }
  }

  /** A creation keeps every event told exactly when it is not a miss. */
  lemma CreateKeeps(s: State, creator: nat)
    requires Inv(s)
    ensures Inv(Next(s, CreateWindow(creator)))
    ensures Told(s) ==> (Told(Next(s, CreateWindow(creator))) <==> !Misses(s, CreateWindow(creator)))
    ensures Misses(s, CreateWindow(creator)) ==> !Told(Next(s, CreateWindow(creator)))
  {
    var r, a := Next(s, CreateWindow(creator)), CreateWindow(creator);
    forall t | 0 <= t < MAX_QUEUES ensures Fifo(r, t) {
      assert Fifo(s, t);
    }
    forall x | 0 <= x < SLOTS ensures SlotOk(r, x) {
      assert SlotOk(s, x);
    }
    forall t | 0 <= t < MAX_QUEUES && Told(s) && !Misses(s, a) ensures EventTold(r, t) {
      assert EventTold(s, t);
    }
    if Misses(s, a) {
      assert r.update[s.nextSlot] > 0 && r.owner[s.nextSlot] == creator;
      assert !EventTold(r, creator - 1);
    }
  }

  lemma TakeKeeps(s: State, current: nat, remove: bool, now: nat)
    requires Inv(s)
    ensures Inv(Taken(s, current, remove, now).1) && (Told(s) ==> Told(Taken(s, current, remove, now).1))
  {
    if HasQueue(current) {
      var q := QueueOf(s, current);
      if q.tail != q.head {
        DequeueKeeps(s, current);
      } else if NextDirty(s.owner, s.update, current, 1) != 0 {
        PaintKeeps(s, current, NextDirty(s.owner, s.update, current, 1));
      }
    }
  }

  lemma PostKeeps(s: State, tid: nat, m: Msg)
    requires Inv(s)
    ensures Inv(Posted(s, tid, m)) && (Told(s) ==> Told(Posted(s, tid, m)))
  {
    if HasQueue(tid) && !Full(QueueOf(s, tid)) {
      EnqueueKeeps(s, tid, m);
      SyncKeeps(Enqueued(s, tid, m), tid);
    }
  }

  /** Every step keeps the books, and keeps every event told exactly when it is not a miss. */
  lemma StepKeeps(s: State, a: Action)
    requires Inv(s)
    ensures Inv(Next(s, a))
    ensures Told(s) ==> (Told(Next(s, a)) <==> !Misses(s, a))
    ensures Misses(s, a) ==> !Told(Next(s, a))
  {
    match a
    case Post(current, m) => PostKeeps(s, Recipient(s, current, m.hwnd), m);
    case PostThread(target, m) => PostKeeps(s, target, m);
    case Invalidate(slot) => if 1 <= slot < SLOTS { MarkKeeps(s, slot, REDELIVERY); }
    case Validate(slot) => if 1 <= slot < SLOTS { MarkKeeps(s, slot, 0); }
    case Take(current, remove, now) => TakeKeeps(s, current, remove, now);
    case AskEvent(current, obtained) => if HasQueue(current) { AskKeeps(s, current, obtained); }
    case CreateWindow(creator) => CreateKeeps(s, creator);
    case DestroyWindow(slot) => if 1 <= slot < SLOTS { DestroyKeeps(s, slot); }
  }

  // ------------------------------------------------------------------ runs

  /** Nothing queued, no windows, no paints owed, no events. */
  predicate Start(s: State)
  {
    && Sized(s) && s.nextSlot == 1
    && (forall t :: 0 <= t < MAX_QUEUES ==> s.accepted[t] == s.removed[t] == [])
    && (forall t :: 0 <= t < MAX_QUEUES ==> s.queues[t].head == s.queues[t].tail && s.queues[t].event == None)
    && (forall slot :: 0 <= slot < SLOTS ==> s.update[slot] == s.paints[slot] == s.owner[slot] == 0)
  }

  ghost predicate Steps(s: State, a: Action, r: State)
  {
    Inv(s) ==> r == Next(s, a)
  }

  /** A run: any steps in any order. */
  ghost predicate IsRun(trace: seq<State>, actions: seq<Action>)
  {
    |trace| == |actions| + 1 && Start(trace[0])
    && forall k :: 0 <= k < |actions| ==> Steps(trace[k], actions[k], trace[k + 1])
  }

  lemma StartInv(s: State)
    requires Start(s)
    ensures Inv(s) && Told(s)
  {
    forall t | 0 <= t < MAX_QUEUES ensures Fifo(s, t) {
      AdvanceDrops(s.queues[t]);
    }
  }

  lemma {:induction false} InvAlong(trace: seq<State>, actions: seq<Action>, k: nat)
    requires IsRun(trace, actions) && k < |trace|
    ensures Inv(trace[k])
  {
    if k == 0 {
      StartInv(trace[0]);
    } else {
      InvAlong(trace, actions, k - 1);
      assert Steps(trace[k - 1], actions[k - 1], trace[k]);
      StepKeeps(trace[k - 1], actions[k - 1]);
    }
  }

  /** In every run: a thread's removed messages are a prefix of those its queue accepted, the
      rest is what is queued, and a window has had at most four WM_PAINTs since it was last
      invalidated. */
  lemma Delivery(trace: seq<State>, actions: seq<Action>, k: nat, tid: nat, slot: nat)
    requires IsRun(trace, actions) && k < |trace| && HasQueue(tid) && slot < SLOTS
    ensures Sized(trace[k])
    ensures trace[k].removed[tid - 1] <= trace[k].accepted[tid - 1]
    ensures trace[k].accepted[tid - 1][|trace[k].removed[tid - 1]|..] == Contents(QueueOf(trace[k], tid))
    ensures trace[k].paints[slot] <= REDELIVERY
  {
    InvAlong(trace, actions, k);
    var s := trace[k];
    assert Fifo(s, tid - 1) && SlotOk(s, slot);
  }

  /** Step k of the run hides work. */
  predicate MissAt(trace: seq<State>, actions: seq<Action>, k: nat)
    requires k < |trace| && k < |actions|
  {
    Sized(trace[k]) && Misses(trace[k], actions[k])
  }

  /** An existing event is signaled whenever its thread has a message or owes a paint, for
      every thread and in every state of a run. */
  ghost predicate AlwaysTold(trace: seq<State>)
  {
    forall k, tid: nat :: 0 <= k < |trace| && HasQueue(tid) && Sized(trace[k]) ==> Signaled(trace[k], tid)
  }

  predicate Signaled(s: State, tid: nat)
    requires Sized(s) && HasQueue(tid)
  {
    QueueOf(s, tid).event.Some? && Pending(s, tid) ==> QueueOf(s, tid).event.value
  }

  /** The search behind Pending and the invariant speak of the same windows. */
  lemma ToldMeansSignaled(s: State)
    requires Sized(s)
    ensures Told(s) <==> forall tid: nat :: HasQueue(tid) ==> Signaled(s, tid)
  {
    forall tid: nat, slot | HasQueue(tid) && 1 <= slot < SLOTS && s.update[slot] > 0 && s.owner[slot] == tid
      ensures Pending(s, tid)
    {
      NextDirtyMeaning(s, tid, 1, slot);
    }
    if Told(s) {
      forall tid: nat | HasQueue(tid) ensures Signaled(s, tid) {
        assert EventTold(s, tid - 1);
      }
    }
    if forall tid: nat :: HasQueue(tid) ==> Signaled(s, tid) {
      forall t | 0 <= t < MAX_QUEUES ensures EventTold(s, t) {
        assert HasQueue(t + 1) && Signaled(s, t + 1);
      }
    }
  }

  lemma {:induction false} ToldAlong(trace: seq<State>, actions: seq<Action>, k: nat)
    requires IsRun(trace, actions) && k < |trace| && forall j :: 0 <= j < |actions| ==> !MissAt(trace, actions, j)
    ensures Sized(trace[k]) && Told(trace[k])
  {
    if k == 0 {
      StartInv(trace[0]);
    } else {
      ToldAlong(trace, actions, k - 1);
      InvAlong(trace, actions, k - 1);
      assert Steps(trace[k - 1], actions[k - 1], trace[k]) && !MissAt(trace, actions, k - 1);
      StepKeeps(trace[k - 1], actions[k - 1]);
    }
  }

  /** The event never hides work, in any state of a run, if and only if no step of the run
      creates a window on a slot that owes a paint for a creator with an unsignaled event. */
  lemma EventsTold(trace: seq<State>, actions: seq<Action>)
    requires IsRun(trace, actions)
    ensures AlwaysTold(trace) <==> forall k :: 0 <= k < |actions| ==> !MissAt(trace, actions, k)
  {
    if forall k :: 0 <= k < |actions| ==> !MissAt(trace, actions, k) {
      forall k, tid: nat | 0 <= k < |trace| && HasQueue(tid) && Sized(trace[k]) ensures Signaled(trace[k], tid) {
        ToldAlong(trace, actions, k);
        ToldMeansSignaled(trace[k]);
      }
    }
    if AlwaysTold(trace) {
      forall k | 0 <= k < |actions| ensures !MissAt(trace, actions, k) {
        InvAlong(trace, actions, k);
        assert Steps(trace[k], actions[k], trace[k + 1]);
        StepKeeps(trace[k], actions[k]);
        ToldMeansSignaled(trace[k + 1]);
      }
    }
  }

  /** Histories only grow, message by message, so what was delivered stays delivered. */
  lemma {:induction false} HistoryGrows(trace: seq<State>, actions: seq<Action>, j: nat, k: nat, t: nat)
    requires IsRun(trace, actions) && j <= k < |trace| && t < MAX_QUEUES
    ensures Sized(trace[j]) && Sized(trace[k])
    ensures trace[j].accepted[t] <= trace[k].accepted[t] && trace[j].removed[t] <= trace[k].removed[t]
  {
    InvAlong(trace, actions, j);
    if j < k {
      HistoryGrows(trace, actions, j, k - 1, t);
      InvAlong(trace, actions, k - 1);
      InvAlong(trace, actions, k);
      assert Steps(trace[k - 1], actions[k - 1], trace[k]);
      OneStepGrows(trace[k - 1], actions[k - 1], t);
    }
  }

  lemma OneStepGrows(s: State, a: Action, t: nat)
    requires Inv(s) && t < MAX_QUEUES && Inv(Next(s, a))
    ensures s.accepted[t] <= Next(s, a).accepted[t] && s.removed[t] <= Next(s, a).removed[t]
  {
  }

  /** A post is accepted exactly when the recipient has a queue with fewer than 63 messages;
      an accepted message goes to the end of that queue and to no other. */
  lemma PostMeaning(s: State, tid: nat, m: Msg, other: nat)
    requires Inv(s) && HasQueue(other)
    ensures Sized(Posted(s, tid, m))
    ensures Contents(QueueOf(Posted(s, tid, m), other))
         == Contents(QueueOf(s, other))
            + if other == tid && Count(QueueOf(s, tid)) < CAPACITY - 1 then [m] else []
  {
    PostKeeps(s, tid, m);
    if HasQueue(tid) {
      PutAppends(QueueOf(s, tid), m);
    }
    assert Contents(QueueOf(s, other)) + [] == Contents(QueueOf(s, other));
    assert tid == other && !Full(QueueOf(s, tid)) ==>
      Contents(QueueOf(Posted(s, tid, m), other)) == Contents(Put(QueueOf(s, tid), m));
    assert tid != other || Full(QueueOf(s, tid)) ==>
      Contents(QueueOf(Posted(s, tid, m), other)) == Contents(QueueOf(s, other));
  }

  /** What a thread is handed: the oldest posted message; with none, a WM_PAINT for its first
      dirty window; with none of either, nothing. */
  lemma TakeMeaning(s: State, tid: nat, remove: bool, now: nat)
    requires Inv(s) && HasQueue(tid)
    ensures var got, queued := Taken(s, tid, remove, now).0, Contents(QueueOf(s, tid));
      && (queued != [] ==> got == Some(queued[0]))
      && (queued == [] && got.Some? ==> exists slot :: FirstDirty(s, tid, slot) && got.value == PaintFor(slot, now))
      && (got == None <==> queued == [] && NothingDirty(s, tid))
  {
    AdvanceDrops(QueueOf(s, tid));
    var slot := NextDirty(s.owner, s.update, tid, 1);
    forall x | 1 <= x < SLOTS && s.update[x] > 0 && s.owner[x] == tid ensures 1 <= slot <= x {
      NextDirtyMeaning(s, tid, 1, x);
    }
    if slot != 0 {
      assert FirstDirty(s, tid, slot);
    }
  }

  predicate FirstDirty(s: State, tid: nat, slot: nat)
    requires Sized(s)
  {
    Dirty(s, tid, slot) && forall x :: 1 <= x < slot && s.update[x] > 0 ==> s.owner[x] != tid
  }

  /** Removing hands over the message and takes it off; looking leaves the queue alone. */
  lemma RemoveMeaning(s: State, tid: nat, remove: bool, now: nat)
    requires Inv(s) && HasQueue(tid) && Contents(QueueOf(s, tid)) != []
    ensures var r, queued := Taken(s, tid, remove, now).1, Contents(QueueOf(s, tid));
      Sized(r) && Contents(QueueOf(r, tid)) == if remove then queued[1..] else queued
  {
    AdvanceDrops(QueueOf(s, tid));
    TakeKeeps(s, tid, remove, now);
    if remove {
      assert Contents(QueueOf(Dequeued(s, tid), tid)) == Contents(Advanced(QueueOf(s, tid)));
    }
  }

  function EarlyInvalidation(tid: nat): seq<Action>
  {
    [AskEvent(tid, true), Invalidate(1), CreateWindow(tid)]
  }

  /** A run that hides work: ask for the event, invalidate slot 1, create the window. */
  lemma EarlyInvalidationMissed(s: State, tid: nat)
    requires Start(s) && HasQueue(tid)
    ensures exists trace :: IsRun(trace, EarlyInvalidation(tid)) && trace[0] == s && !AlwaysTold(trace)
  {
    var actions := EarlyInvalidation(tid);
    StartInv(s);
    StepKeeps(s, actions[0]);
    var s1 := Next(s, actions[0]);
    StepKeeps(s1, actions[1]);
    var s2 := Next(s1, actions[1]);
    StepKeeps(s2, actions[2]);
    var trace := [s, s1, s2, Next(s2, actions[2])];
    assert IsRun(trace, actions);
    assert MissAt(trace, actions, 2);
    EventsTold(trace, actions);
  }

  // -------------------------------------------------------------- the code

  class Desktop {
    const queues: array<Queue>
    const owner: array<nat>
    const update: array<nat>
    var nextSlot: nat
    ghost var accepted: seq<seq<Msg>>
    ghost var removed: seq<seq<Msg>>
    ghost var paints: seq<nat>

    ghost function View(): State
      reads this, queues, owner, update
    {
      State(queues[..], owner[..], update[..], nextSlot, accepted, removed, paints)
    }

    ghost predicate Valid()
      reads this, queues, owner, update
    {
      queues.Length == MAX_QUEUES && owner.Length == update.Length == SLOTS && owner != update && Inv(View())
    }

    constructor (blank: Msg)
      ensures Valid() && Start(View()) && fresh(queues) && fresh(owner) && fresh(update)
    {
      queues := new Queue[MAX_QUEUES](_ => Queue(seq(CAPACITY, _ => blank), 0, 0, None));
      owner := new nat[SLOTS](_ => 0);
      update := new nat[SLOTS](_ => 0);
      nextSlot := 1;
      accepted := seq(MAX_QUEUES, _ => []);
      removed := seq(MAX_QUEUES, _ => []);
      paints := seq(SLOTS, _ => 0);
      new;
      StartInv(View());
    }

    /** KiUserNextUpdateWindow */
    method NextUpdateWindow(tid: nat) returns (slot: nat)
      requires owner.Length == update.Length == SLOTS && HasQueue(tid)
      ensures slot == NextDirty(owner[..], update[..], tid, 1)
    {
      slot := 1;
      while slot < SLOTS
        invariant 1 <= slot <= SLOTS
        invariant NextDirty(owner[..], update[..], tid, 1) == NextDirty(owner[..], update[..], tid, slot)
      {
        if update[slot] != 0 && owner[slot] == tid {
          return;
        }
        slot := slot + 1;
      }
      slot := 0;
    }

    /** KiUserSyncInputEvent */
    method SyncInputEvent(tid: nat)
      requires Sized(View()) && HasQueue(tid)
      modifies queues
      ensures View() == Synced(old(View()), tid)
    {
      var q := queues[tid - 1];
      if q.event == None {
        return;
      }
      if q.head != q.tail {
        queues[tid - 1] := q.(event := Some(true));
      } else {
        var slot := NextUpdateWindow(tid);
        queues[tid - 1] := q.(event := Some(slot != 0));
      }
      assert queues[..] == old(queues[..])[tid - 1 := queues[tid - 1]];
    }

    /** KiUserWindowOwner */
    method WindowOwner(hwnd: nat) returns (tid: nat)
      requires Valid()
      ensures tid == OwnerOf(View(), hwnd)
    {
      var slot := hwnd % 0x1_0000;
      tid := if slot == 0 || slot >= SLOTS then 0 else owner[slot];
    }

    /** KiUserEnqueueMessage */
    method EnqueueMessage(current: nat, m: Msg) returns (ok: bool)
      requires Valid()
      modifies this, queues
      ensures View() == Next(old(View()), Post(current, m))
      ensures var s, tid := old(View()), old(Recipient(View(), current, m.hwnd));
        ok <==> HasQueue(tid) && !Full(QueueOf(s, tid))
    {
      var tid := 0;
      if m.hwnd != 0 {
        tid := WindowOwner(m.hwnd);
      }
      if tid == 0 {
        tid := current;
      }
      ok := EnqueueThreadMessage(tid, m);
    }

    /** KiUserEnqueueThreadMessage, and the tail it shares with KiUserEnqueueMessage. */
    method EnqueueThreadMessage(target: nat, m: Msg) returns (ok: bool)
      requires Valid()
      modifies this, queues
      ensures View() == Next(old(View()), PostThread(target, m))
      ensures ok <==> HasQueue(target) && !old(Full(queues[target - 1]))
    {
      if target == 0 || target > MAX_QUEUES {
        return false;
      }
      var q := queues[target - 1];
      var next := (q.head + 1) % CAPACITY;
      if next == q.tail {
        return false;
      }
      PutAppends(q, m);
      queues[target - 1] := q.(msgs := q.msgs[q.head := m], head := next);
      accepted := accepted[target - 1 := accepted[target - 1] + [m]];
      assert View() == Enqueued(old(View()), target, m);
      EnqueueKeeps(old(View()), target, m);
      SyncInputEvent(target);
      ok := true;
    }

    /** The body shared by KiUserInvalidateWindow and KiUserValidateWindow. */
    method MarkWindow(slot: nat, count: nat)
      requires Valid() && 1 <= slot < SLOTS
      modifies this, queues, update
      ensures View() == Marked(old(View()), slot, count)
    {
      update[slot] := count;
      assert update[..] == old(update[..])[slot := count];
      if count > 0 {
        paints := paints[slot := 0];
      }
      var tid := owner[slot];
      if 1 <= tid <= MAX_QUEUES {
        SyncInputEvent(tid);
      }
    }

    /** KiUserInvalidateWindow */
    method InvalidateWindow(slot: nat)
      requires Valid()
      modifies this, queues, update
      ensures View() == Next(old(View()), Invalidate(slot))
    {
      if slot != 0 && slot < SLOTS {
        MarkWindow(slot, REDELIVERY);
      }
    }

    /** KiUserValidateWindow */
    method ValidateWindow(slot: nat)
      requires Valid()
      modifies this, queues, update
      ensures View() == Next(old(View()), Validate(slot))
    {
      if slot != 0 && slot < SLOTS {
        MarkWindow(slot, 0);
      }
    }

    /** KiUserTakeMessage */
    method TakeMessage(current: nat, remove: bool, now: nat) returns (got: Option<Msg>)
      requires Valid()
      modifies this, queues, update
      ensures got == Taken(old(View()), current, remove, now).0
      ensures View() == Next(old(View()), Take(current, remove, now))
    {
      if current == 0 || current > MAX_QUEUES {
        return None;
      }
      var q := queues[current - 1];
      if q.tail == q.head {
        got := TakePaint(current, now);
        return;
      }
      got := Some(q.msgs[q.tail]);
      if remove {
        RemoveOldest(current);
      }
    }

    /** The WM_PAINT branch. */
    method TakePaint(tid: nat, now: nat) returns (got: Option<Msg>)
      requires Valid() && HasQueue(tid) && queues[tid - 1].tail == queues[tid - 1].head
      modifies this, queues, update
      ensures got == Taken(old(View()), tid, false, now).0
      ensures View() == Taken(old(View()), tid, false, now).1
    {
      var slot := NextUpdateWindow(tid);
      if slot == 0 {
        return None;
      }
      got := Some(Msg(0x10000 + slot, WM_PAINT, 0, 0, now, 0, 0));
      update[slot] := update[slot] - 1;
      assert update[..] == old(update[..])[slot := old(update[slot]) - 1];
      paints := paints[slot := paints[slot] + 1];
      if update[slot] == 0 {
        SyncInputEvent(tid);
      }
    }

    /** The removal of a posted message. */
    method RemoveOldest(tid: nat)
      requires Valid() && HasQueue(tid) && queues[tid - 1].tail != queues[tid - 1].head
      modifies this, queues
      ensures View() == Dequeued(old(View()), tid)
    {
      var q := queues[tid - 1];
      queues[tid - 1] := q.(tail := (q.tail + 1) % CAPACITY);
      assert queues[..] == old(queues[..])[tid - 1 := Advanced(q)];
      removed := removed[tid - 1 := removed[tid - 1] + [q.msgs[q.tail]]];
      SyncInputEvent(tid);
    }

    /** KiUserGetInputEvent; `obtained` is whether an event object could be created. */
    method GetInputEvent(current: nat, obtained: bool) returns (ok: bool)
      requires Valid()
      modifies this, queues
      ensures View() == Next(old(View()), AskEvent(current, obtained))
      ensures ok <==> HasQueue(current) && (obtained || old(queues[current - 1].event).Some?)
    {
      if current == 0 || current > MAX_QUEUES {
        return false;
      }
      var q := queues[current - 1];
      if q.event == None {
        if !obtained {
          return false;
        }
        queues[current - 1] := q.(event := Some(false));
      }
      assert queues[..] == old(queues[..])[current - 1 := queues[current - 1]];
      SyncInputEvent(current);
      ok := true;
    }

    /** The slot NtUserCreateWindowEx hands out, or 0 when there is none left. */
    method TakeSlot(creator: nat) returns (slot: nat)
      requires Valid()
      modifies this, owner
      ensures View() == Next(old(View()), CreateWindow(creator))
      ensures slot == if old(nextSlot) < SLOTS then old(nextSlot) else 0
    {
      if nextSlot >= SLOTS {
        return 0;
      }
      slot := nextSlot;
      nextSlot := nextSlot + 1;
      owner[slot] := creator;
      assert owner[..] == old(owner[..])[slot := creator];
    }

    /** NtUserDestroyWindow: the window's slot loses its owner. */
    method GiveUpSlot(slot: nat)
      requires Valid()
      modifies this, owner
      ensures View() == Next(old(View()), DestroyWindow(slot))
    {
      if slot != 0 && slot < SLOTS {
        owner[slot] := 0;
        assert owner[..] == old(owner[..])[slot := 0];
      }
    }
  }
}

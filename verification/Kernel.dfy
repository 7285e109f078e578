/** The routines of kernel/ke/dispatcher.c and kernel/ke/thread.c as they run, loops and
    all, each proved to take the step of the state machine that specifies it. */
module Kernel {
  import opened Dispatcher
  import opened Prelude
  import opened WaitProtocol
  import DispatcherRuns

  /** Every linked block of `t` is in the list of the object its slot names. */
  ghost predicate BlocksAtHome(objects: map<ObjectId, Header>, t: ThreadId, blocks: seq<ObjectId>)
  {
    forall o, b {:trigger b in objects[o].waiters} :: o in objects && b in objects[o].waiters && b.thread == t ==>
      b.slot < |blocks| && blocks[b.slot] == o
  }

  ghost predicate AllAtHome(s: State)
  {
    && WaitersKnown(s)
    && forall t :: t in s.threads ==> BlocksAtHome(s.objects, t, s.threads[t].blocks)
  }

  /** RemoveEntryList. */
  function Remove(waiters: seq<Block>, b: Block): (r: seq<Block>)
  {
    if waiters == [] then []
    else if waiters[0] == b then Remove(waiters[1..], b)
    else [waiters[0]] + Remove(waiters[1..], b)
  }

  /** Unlinking slots one at a time is filtering them out. */
  lemma {:induction false} RemoveNext(waiters: seq<Block>, t: ThreadId, n: nat)
    ensures Without(waiters, t, n + 1) == Remove(Without(waiters, t, n), Block(t, n))
    ensures Block(t, n) !in waiters ==> Without(waiters, t, n + 1) == Without(waiters, t, n)
  {
    if waiters != [] {
      RemoveNext(waiters[1..], t, n);
      assert forall c :: c in waiters <==> c == waiters[0] || c in waiters[1..];
    }
  }

  lemma {:induction false} WithoutNone(waiters: seq<Block>, t: ThreadId)
    ensures Without(waiters, t, 0) == waiters
  {
    if waiters != [] {
      WithoutNone(waiters[1..], t);
    }
  }

  lemma UnlinkZero(objects: map<ObjectId, Header>, t: ThreadId)
    ensures Unlink(objects, t, 0) == objects
  {
    forall o | o in objects ensures Without(objects[o].waiters, t, 0) == objects[o].waiters {
      WithoutNone(objects[o].waiters, t);
    }
  }

  /** The loop of KiUnlinkThreadWait over the thread's wait blocks. */
  method UnlinkLoop(objects: map<ObjectId, Header>, t: ThreadId, blocks: seq<ObjectId>)
    returns (r: map<ObjectId, Header>)
    requires BlocksAtHome(objects, t, blocks) && KnownObjects(objects, blocks)
    ensures r == Unlink(objects, t, |blocks|)
  {
    r := objects;
    UnlinkZero(objects, t);
    var i := 0;
    while i < |blocks|
      invariant i <= |blocks| && r == Unlink(objects, t, i)
    {
      UnlinkNext(objects, t, blocks, i);
      r := UnlinkSlot(r, t, blocks[i], i);
      i := i + 1;
    }
  }

  class System {
    var objects: map<ObjectId, Header>
    var threads: map<ThreadId, Thread>
    var ready: seq<ThreadId>
    var current: ThreadId
    var tick: nat
    var order: seq<ThreadId>

    ghost function View(): State
      reads this
    {
      State(objects, threads, ready, current, tick, order)
    }

    /** KeInitializeScheduler. */
    constructor ()
      ensures View() == DispatcherRuns.Boot()
    {
      objects := map[];
      threads := map[IDLE := Thread(Running, 0, [], Pending, 0, None)];
      ready := [];
      current := IDLE;
      tick := 0;
      order := [IDLE];
    }

    /** KiUnlinkThreadWait. */
    method UnlinkThreadWait(t: ThreadId)
      requires t in threads && BlocksAtHome(objects, t, threads[t].blocks)
      requires KnownObjects(objects, threads[t].blocks)
      modifies `objects
      ensures objects == Unlink(old(objects), t, |threads[t].blocks|)
    {
      objects := UnlinkLoop(objects, t, threads[t].blocks);
    }

    /** KiWakeWaitingThread, with KiReadyThread. */
    method WakeWaitingThread(t: ThreadId, status: WaitStatus)
      requires t in threads
      requires threads[t].state == Waiting ==>
                 BlocksAtHome(objects, t, threads[t].blocks) && KnownObjects(objects, threads[t].blocks)
      modifies `objects, `threads, `ready
      ensures View() == Wake(old(View()), t, status)
    {
      if threads[t].state != Waiting {
        return;
      }
      UnlinkThreadWait(t);
      threads := threads[t := threads[t].(state := Ready, status := status, deadline := 0)];
      ready := ready + [t];
    }

    /** KiSignalObject. */
    method SignalAll(o: ObjectId)
      requires o in objects && AllAtHome(View()) && AllBlocksKnown(View())
      modifies `objects, `threads, `ready
      ensures View() == SignalObject(old(View()), o)
    {
      while objects[o].waiters != []
        invariant o in objects && AllAtHome(View()) && AllBlocksKnown(View())
        invariant tick == old(tick) && current == old(current) && order == old(order)
        invariant SignalObject(View(), o) == SignalObject(old(View()), o)
        decreases |objects[o].waiters|
      {
        ghost var was := View();
        var head := objects[o].waiters[0];
        assert head in objects[o].waiters;
        objects := objects[o := objects[o].(waiters := objects[o].waiters[1..])];
        PopAtHome(was, View(), o);
        ghost var popped := View();
        WakeWaitingThread(head.thread, Success);
        WakeAtHome(popped, head.thread, Success);
      }
    }

    /** KiSchedule; KiSwitchContext is the change of `current`. */
    method Reschedule()
      requires current in threads && IDLE in threads && (ready != [] ==> ready[0] in threads)
      modifies `threads, `ready, `current
      ensures View() == Schedule(old(View()))
    {
      var prev := current;
      var next := IDLE;
      if ready != [] {
        next := ready[0];
        ready := ready[1..];
      }
      if prev != IDLE && threads[prev].state == Running {
        threads := threads[prev := threads[prev].(state := Ready)];
        ready := ready + [prev];
      }
      if prev == next {
        threads := threads[prev := threads[prev].(state := Running)];
        return;
      }
      threads := threads[next := threads[next].(state := Running, quantum := DEFAULT_QUANTUM)];
      current := next;
    }

    /** The body of the retry loop in KeWaitForMultipleObjects. */
    method AcquireOrBlock(call: Call) returns (outcome: Outcome)
      requires current in threads && IDLE in threads && (ready != [] ==> ready[0] in threads)
      requires KnownObjects(objects, call.objects)
      modifies this
      ensures (View(), outcome) == TestOrBlock(old(View()), call)
    {
      var list := call.objects;
      if call.waitAll {
        var i := 0;
        while i < |list| && CanAcquire(objects[list[i]])
          invariant i <= |list| && forall j :: 0 <= j < i ==> CanAcquire(objects[list[j]])
        {
          i := i + 1;
        }
        if i == |list| {
          ConsumeAll(list);
          return Satisfied(0);
        }
        assert !AllSignaled(objects, list);
      } else {
        var i := 0;
        while i < |list|
          invariant i <= |list| && FirstSignaled(objects, list, i) == FirstSignaled(objects, list, 0)
        {
          if CanAcquire(objects[list[i]]) {
            objects := objects[list[i] := Consume(objects[list[i]])];
            return Satisfied(i);
          }
          i := i + 1;
        }
      }
      if call.timeout == 0 || (call.deadline != 0 && tick >= call.deadline) {
        return Expired;
      }
      EnlistAll(list);
      threads := threads[current := threads[current].(state := Waiting, blocks := list, status := Pending,
                                                      deadline := call.deadline, call := Some(call))];
      Reschedule();
      return Blocked;
    }

    method ConsumeAll(list: seq<ObjectId>)
      requires KnownObjects(objects, list)
      modifies `objects
      ensures objects == ConsumeEach(old(objects), list)
    {
      var i := 0;
      while i < |list|
        invariant i <= |list| && objects == ConsumeEach(old(objects), list[..i])
      {
        assert list[..i + 1][..i] == list[..i];
        objects := objects[list[i] := Consume(objects[list[i]])];
        i := i + 1;
      }
      assert list[..i] == list;
    }

    method EnlistAll(list: seq<ObjectId>)
      requires KnownObjects(objects, list)
      modifies `objects
      ensures objects == Enlist(old(objects), current, list)
    {
      var i := 0;
      while i < |list|
        invariant i <= |list| && objects == Enlist(old(objects), current, list[..i])
      {
        assert list[..i + 1][..i] == list[..i];
        objects := objects[list[i] := objects[list[i]].(waiters := objects[list[i]].waiters + [Block(current, i)])];
        i := i + 1;
      }
      assert list[..i] == list;
    }

    /** KeWaitForMultipleObjects until it returns or first blocks. */
    method WaitForMultipleObjects(list: seq<ObjectId>, waitAll: bool, timeout: nat) returns (outcome: Outcome)
      requires Inv(View()) && Enabled(View(), WaitStep(list, waitAll, timeout))
      modifies this
      ensures old(ready) != [] ==> old(ready)[0] in old(threads)
      ensures (View(), outcome) == Wait(old(View()), list, waitAll, timeout)
    {
      QueueKnown(View());
      if |list| == 0 || |list| > MAXIMUM_WAIT_OBJECTS {
        return InvalidParameter;
      }
      var deadline := if timeout == INFINITE then 0 else (tick + timeout) % TWO_64;
      outcome := AcquireOrBlock(Call(list, waitAll, timeout, deadline));
    }

    /** KeWaitForMultipleObjects after KiBlockCurrentThread returns. */
    method ResumeWait() returns (outcome: Outcome)
      requires Inv(View()) && Enabled(View(), ResumeStep)
      modifies this
      ensures old(ready) != [] ==> old(ready)[0] in old(threads)
      ensures (View(), outcome) == Resume(old(View()))
    {
      QueueKnown(View());
      var call := threads[current].call.value;
      NothingToUnlink(View(), current, |threads[current].blocks|);
      threads := threads[current := threads[current].(blocks := [], call := None)];
      if threads[current].status == TimedOut {
        return Expired;
      }
      outcome := AcquireOrBlock(call);
    }

    /** KeSetEvent and KeReleaseMutant: raise to one, wake everybody. */
    method RaiseToOne(o: ObjectId) returns (previous: int)
      requires Inv(View()) && (Enabled(View(), SetEvent(o)) || Enabled(View(), ReleaseMutant(o)))
      modifies `objects, `threads, `ready
      ensures Inv(View()) && previous == old(objects[o].signal)
      ensures WaitersKnown(SetSignal(old(View()), o, 1))
      ensures View() == SignalObject(SetSignal(old(View()), o, 1), o)
    {
      SignalStep(View(), o, 1);
      previous := objects[o].signal;
      HomeAfterSignal(View(), o, 1);
      objects := objects[o := objects[o].(signal := 1)];
      SignalAll(o);
    }

    /** KeResetEvent. */
    method Reset(o: ObjectId)
      requires Inv(View()) && Enabled(View(), ResetEvent(o))
      modifies `objects
      ensures Inv(View()) && View() == SetSignal(old(View()), o, 0)
    {
      StepKeeps(View(), ResetEvent(o));
      objects := objects[o := objects[o].(signal := 0)];
    }

    /** KeReleaseSemaphore. */
    method Release(o: ObjectId, count: int) returns (previous: int)
      requires Inv(View()) && Enabled(View(), ReleaseSemaphore(o, count))
      modifies `objects, `threads, `ready
      ensures previous == old(objects[o].signal)
      ensures WaitersKnown(SetSignal(old(View()), o, 1))
      ensures View() == SignalObject(SetSignal(old(View()), o, Released(old(objects[o]), count)), o)
    {
      LinksGiveKnown(View());
      previous := objects[o].signal;
      HomeAfterSignal(View(), o, Released(objects[o], count));
      ghost var raised := SetSignal(View(), o, Released(objects[o], count));
      objects := objects[o := objects[o].(signal := objects[o].signal + count)];
      if objects[o].limit != 0 && objects[o].signal > objects[o].limit {
        objects := objects[o := objects[o].(signal := objects[o].limit)];
      }
      assert objects == raised.objects;
      SignalAll(o);
    }

    /** KeTerminateThread: the thread dies, its object is signaled, somebody else runs. */
    method TerminateThread(termination: Option<ObjectId>)
      requires Inv(View()) && Enabled(View(), Terminate(termination))
      modifies this
      ensures View() == Next(old(View()), Terminate(termination)).0
    {
      ghost var was := View();
      LinksGiveKnown(was);
      EndedKeeps(was, termination);
      QueueKnown(Ended(was, termination));
      threads := threads[current := threads[current].(state := Terminated)];
      if termination.Some? {
        var o := termination.value;
        objects := objects[o := objects[o].(signal := 1)];
        SignalAll(o);
      }
      assert View() == Ended(was, termination);
      Reschedule();
    }

    /** KepEnqueueThread. */
    method CreateThread(t: ThreadId)
      requires Inv(View()) && Enabled(View(), Step.CreateThread(t))
      modifies `threads, `ready, `order
      ensures View() == Next(old(View()), Step.CreateThread(t)).0
    {
      threads := threads[t := NewThread()];
      ready := ready + [t];
      order := order + [t];
    }

    /** KeClockTick. */
    method ClockTick()
      requires Inv(View())
      modifies this
      ensures View() == AfterTick(old(View()))
    {
      ghost var was := View();
      ExpireAll(was);
      tick := tick + 1;
      assert View() == Ticked(was);
      ExpireDue();
      ghost var expired := ExpireWaits(Ticked(was), was.order);
      QueueKnown(expired);
      assert View() == expired;
      SpendTick();
    }

    /** The quantum half of KeClockTick. */
    method SpendTick()
      requires current in threads && IDLE in threads && (ready != [] ==> ready[0] in threads)
      modifies `threads, `ready, `current
      ensures View() == SpendQuantum(old(View()))
    {
      var th := threads[current];
      if th.quantum > 0 {
        th := th.(quantum := th.quantum - 1);
      }
      threads := threads[current := th];
      if th.quantum <= 0 {
        Reschedule();
      }
    }

    /** One round of the scan: the thread is woken if it is due. */
    method WakeDue(t: ThreadId)
      requires t in threads && Links(View()) && Calls(View())
      modifies `objects, `threads, `ready
      ensures View() == WakeIfDue(old(View()), t)
    {
      if threads[t].state == Waiting && threads[t].deadline != 0 && tick >= threads[t].deadline {
        WaitingAtHome(View(), t);
        WakeWaitingThread(t, TimedOut);
      }
    }

    /** The scan of the process's thread list for waits that are due. */
    method ExpireDue()
      requires Places(View()) && CurrentRuns(View()) && Links(View()) && Calls(View()) && Asleep(View(), {})
      modifies `objects, `threads, `ready
      ensures forall t :: t in old(order) ==> t in old(threads)
      ensures View() == ExpireWaits(old(View()), old(order))
    {
      ghost var was := View();
      var i := 0;
      while i < |order|
        invariant i <= |order| && order == old(order)
        invariant View() == ExpireWaits(was, order[..i])
      {
        ScanNext(was, order, i);
        WakeDue(order[i]);
        i := i + 1;
      }
      assert order[..i] == order;
    }
  }

  /** The scan of one more thread. */
  lemma ScanNext(s: State, list: seq<ThreadId>, i: nat)
    requires Places(s) && CurrentRuns(s) && Links(s) && Calls(s) && Asleep(s, {})
    requires i < |list| && forall t :: t in list ==> t in s.threads
    ensures forall t :: t in list[..i] ==> t in s.threads
    ensures forall t :: t in list[..i + 1] ==> t in s.threads
    ensures list[i] in s.threads
    ensures var before := ExpireWaits(s, list[..i]);
            && Links(before) && Calls(before)
            && ExpireWaits(s, list[..i + 1]) == WakeIfDue(before, list[i])
  {
    assert list[i] in list && list[..i + 1][..i] == list[..i];
    assert forall t :: t in list[..i + 1] ==> t in list;
    ExpireKeeps(s, list[..i]);
  }

  /** What one round of the unlink loop does. */
  function UnlinkSlot(objects: map<ObjectId, Header>, t: ThreadId, o: ObjectId, i: nat): map<ObjectId, Header>
    requires o in objects
  {
    if Block(t, i) in objects[o].waiters
    then objects[o := objects[o].(waiters := Remove(objects[o].waiters, Block(t, i)))]
    else objects
  }

  lemma UnlinkNext(objects: map<ObjectId, Header>, t: ThreadId, blocks: seq<ObjectId>, i: nat)
    requires BlocksAtHome(objects, t, blocks) && KnownObjects(objects, blocks) && i < |blocks|
    ensures Unlink(objects, t, i + 1) == UnlinkSlot(Unlink(objects, t, i), t, blocks[i], i)
  {
    var home := blocks[i];
    forall o | o in objects
      ensures Without(objects[o].waiters, t, i + 1)
           == if o == home then Remove(Without(objects[o].waiters, t, i), Block(t, i))
              else Without(objects[o].waiters, t, i)
    {
      RemoveNext(objects[o].waiters, t, i);
    }
    RemoveAbsentUnless(Without(objects[home].waiters, t, i), Block(t, i));
  }

  lemma RemoveAbsentUnless(waiters: seq<Block>, b: Block)
    ensures b !in waiters ==> Remove(waiters, b) == waiters
  {
    if b !in waiters {
      RemoveAbsent(waiters, b);
    }
  }

  lemma {:induction false} RemoveAbsent(waiters: seq<Block>, b: Block)
    requires b !in waiters
    ensures Remove(waiters, b) == waiters
  {
    if waiters != [] {
      assert waiters[0] in waiters && b !in waiters[1..];
      RemoveAbsent(waiters[1..], b);
    }
  }

  ghost predicate AllBlocksKnown(s: State)
  {
    forall t :: t in s.threads && s.threads[t].state == Waiting ==> KnownObjects(s.objects, s.threads[t].blocks)
  }

  /** `after` has the lists of `before`, or parts of them, and the same blocks. */
  lemma PopAtHome(before: State, after: State, o: ObjectId)
    requires AllAtHome(before) && AllBlocksKnown(before) && o in before.objects && before.objects[o].waiters != []
    requires var h := before.objects[o];
      after == before.(objects := before.objects[o := h.(waiters := h.waiters[1..])])
    ensures AllAtHome(after) && AllBlocksKnown(after)
  {
    assert forall b :: b in before.objects[o].waiters[1..] ==> b in before.objects[o].waiters;
  }

  lemma WakeAtHome(s: State, t: ThreadId, status: WaitStatus)
    requires t in s.threads && AllAtHome(s) && AllBlocksKnown(s)
    ensures AllAtHome(Wake(s, t, status)) && AllBlocksKnown(Wake(s, t, status))
  {
    WakeKnown(s, t, status);
    forall o | o in s.objects
      ensures forall b :: b in Without(s.objects[o].waiters, t, |s.threads[t].blocks|) ==> b in s.objects[o].waiters
    {
      WithoutMembers(s.objects[o].waiters, t, |s.threads[t].blocks|);
    }
  }

  lemma WaitingAtHome(s: State, t: ThreadId)
    requires Links(s) && t in s.threads && s.threads[t].state == Waiting
    ensures BlocksAtHome(s.objects, t, s.threads[t].blocks) && KnownObjects(s.objects, s.threads[t].blocks)
  {
  }

  lemma HomeAfterSignal(s: State, o: ObjectId, signal: int)
    requires Inv(s) && o in s.objects
    ensures AllAtHome(SetSignal(s, o, signal)) && AllBlocksKnown(SetSignal(s, o, signal))
  {
  }
}

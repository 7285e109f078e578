/** The wait machinery of kernel/ke/dispatcher.c and the scheduler of kernel/ke/thread.c
    as a state machine. Every section that runs with interrupts masked is one step; a
    blocked wait continues in a later step of its own. */
module Dispatcher {
  import opened Prelude

  type ThreadId = nat
  type ObjectId = nat

  const IDLE: ThreadId := 0
  const DEFAULT_QUANTUM := 2
  const MAXIMUM_WAIT_OBJECTS := 64
  const INFINITE := TWO_64 - 1

  // --------------------------------------------------------------- state

  datatype Kind = NotificationEvent | SynchronizationEvent | Semaphore | Mutant | ThreadObject

  /** A wait block: which thread waits, through which of its slots. */
  datatype Block = Block(thread: ThreadId, slot: nat)

  /** DISPATCHER_HEADER, with the semaphore's limit. */
  datatype Header = Header(kind: Kind, signal: int, limit: int, waiters: seq<Block>)

  datatype RunState = Ready | Running | Waiting | Terminated

  datatype WaitStatus = Pending | Success | TimedOut

  /** The parameters of a KeWaitForMultipleObjects call that has blocked. */
  datatype Call = Call(objects: seq<ObjectId>, waitAll: bool, timeout: nat, deadline: nat)

  /** KTHREAD. `blocks` holds the objects of the first WaitBlockCount wait blocks. */
  datatype Thread = Thread(state: RunState, quantum: int, blocks: seq<ObjectId>, status: WaitStatus,
                           deadline: nat, call: Option<Call>)

  datatype State = State(objects: map<ObjectId, Header>, threads: map<ThreadId, Thread>,
                         ready: seq<ThreadId>, current: ThreadId, tick: nat, order: seq<ThreadId>)

  /** What a wait returns: STATUS_WAIT_0 + index, STATUS_TIMEOUT, an error, or not yet. */
  datatype Outcome = Satisfied(index: nat) | Expired | InvalidParameter | Blocked

  // ------------------------------------------------------------- signals

  predicate CanAcquire(h: Header)
  {
    h.signal > 0
  }

  function Consume(h: Header): Header
  {
    match h.kind
    case NotificationEvent => h
    case ThreadObject => h
    case SynchronizationEvent => h.(signal := 0)
    case Semaphore => h.(signal := h.signal - 1)
    case Mutant => h.(signal := h.signal - 1)
  }

  predicate KnownObjects(objects: map<ObjectId, Header>, list: seq<ObjectId>)
  {
    forall i :: 0 <= i < |list| ==> list[i] in objects
  }

  predicate AllSignaled(objects: map<ObjectId, Header>, list: seq<ObjectId>)
    requires KnownObjects(objects, list)
  {
    forall i :: 0 <= i < |list| ==> CanAcquire(objects[list[i]])
  }

  predicate NoneSignaled(objects: map<ObjectId, Header>, list: seq<ObjectId>)
    requires KnownObjects(objects, list)
  {
    forall i :: 0 <= i < |list| ==> !CanAcquire(objects[list[i]])
  }

  /** The condition a wait is for. */
  predicate Met(objects: map<ObjectId, Header>, call: Call)
    requires KnownObjects(objects, call.objects)
  {
    if call.waitAll then AllSignaled(objects, call.objects) else !NoneSignaled(objects, call.objects)
  }

  /** KiConsumeSignal on each object of the list in turn. */
  function ConsumeEach(objects: map<ObjectId, Header>, list: seq<ObjectId>): (r: map<ObjectId, Header>)
    requires KnownObjects(objects, list)
    ensures r.Keys == objects.Keys
    decreases |list|
  {
    if list == [] then objects
    else
      var before := ConsumeEach(objects, list[..|list| - 1]);
      before[list[|list| - 1] := Consume(before[list[|list| - 1]])]
  }

  /** The first index at or after `i` whose object is signaled. */
  function FirstSignaled(objects: map<ObjectId, Header>, list: seq<ObjectId>, i: nat): (k: nat)
    requires KnownObjects(objects, list) && i <= |list|
    ensures i <= k <= |list|
    ensures forall j :: i <= j < k ==> !CanAcquire(objects[list[j]])
    ensures k < |list| ==> CanAcquire(objects[list[k]])
    decreases |list| - i
  {
    if i == |list| || CanAcquire(objects[list[i]]) then i else FirstSignaled(objects, list, i + 1)
  }

  // -------------------------------------------------------------- queues

  /** The list without the first `n` blocks of thread `t`. */
  function Without(waiters: seq<Block>, t: ThreadId, n: nat): (r: seq<Block>)
    ensures |r| <= |waiters|
  {
    if waiters == [] then []
    else if waiters[0].thread == t && waiters[0].slot < n then Without(waiters[1..], t, n)
    else [waiters[0]] + Without(waiters[1..], t, n)
  }

  lemma {:induction false} WithoutMembers(waiters: seq<Block>, t: ThreadId, n: nat)
    ensures forall b :: b in Without(waiters, t, n) <==> b in waiters && !(b.thread == t && b.slot < n)
  {
    if waiters != [] {
      WithoutMembers(waiters[1..], t, n);
      assert forall b :: b in waiters <==> b == waiters[0] || b in waiters[1..];
    }
  }

  lemma {:induction false} WithoutNoDup(waiters: seq<Block>, t: ThreadId, n: nat)
    requires NoDup(waiters)
    ensures NoDup(Without(waiters, t, n))
  {
    if waiters != [] {
      WithoutNoDup(waiters[1..], t, n);
      WithoutMembers(waiters[1..], t, n);
      assert waiters[0] !in waiters[1..];
    }
  }

  /** KiUnlinkThreadWait: every wait block the thread owns leaves its list. */
  function Unlink(objects: map<ObjectId, Header>, t: ThreadId, n: nat): (r: map<ObjectId, Header>)
    ensures r.Keys == objects.Keys
  {
    map o | o in objects :: objects[o].(waiters := Without(objects[o].waiters, t, n))
  }

  /** KiWakeWaitingThread. */
  function Wake(s: State, t: ThreadId, status: WaitStatus): State
    requires t in s.threads
  {
    var th := s.threads[t];
    if th.state != Waiting then s
    else s.(objects := Unlink(s.objects, t, |th.blocks|),
            threads := s.threads[t := th.(state := Ready, status := status, deadline := 0)],
            ready := s.ready + [t])
  }

  predicate WaitersKnown(s: State)
  {
    forall o, b :: o in s.objects && b in s.objects[o].waiters ==> b.thread in s.threads
  }

  lemma WakeKnown(s: State, t: ThreadId, status: WaitStatus)
    requires t in s.threads && WaitersKnown(s)
    ensures WaitersKnown(Wake(s, t, status))
  {
    forall o | o in s.objects
      ensures forall b :: b in Without(s.objects[o].waiters, t, |s.threads[t].blocks|) ==> b in s.objects[o].waiters
    {
      WithoutMembers(s.objects[o].waiters, t, |s.threads[t].blocks|);
    }
  }

  /** KiSignalObject: wake from the head of the list until the list is empty. */
  function SignalObject(s: State, o: ObjectId): (r: State)
    requires o in s.objects && WaitersKnown(s)
    decreases |s.objects[o].waiters|
  {
    var waiters := s.objects[o].waiters;
    if waiters == [] then s
    else
      var popped := s.(objects := s.objects[o := s.objects[o].(waiters := waiters[1..])]);
      assert forall b :: b in waiters[1..] ==> b in waiters;
      assert waiters[0] in waiters;
      WakeKnown(popped, waiters[0].thread, Success);
      SignalObject(Wake(popped, waiters[0].thread, Success), o)
  }

  /** KiSchedule. */
  function Schedule(s: State): State
    requires s.current in s.threads && IDLE in s.threads
    requires s.ready != [] ==> s.ready[0] in s.threads
  {
    var next := if s.ready == [] then IDLE else s.ready[0];
    var rest := if s.ready == [] then [] else s.ready[1..];
    var prev := s.current;
    var requeue := prev != IDLE && s.threads[prev].state == Running;
    var threads := if requeue then s.threads[prev := s.threads[prev].(state := Ready)] else s.threads;
    var queue := if requeue then rest + [prev] else rest;
    if prev == next then s.(threads := threads[prev := threads[prev].(state := Running)], ready := queue)
    else s.(threads := threads[next := threads[next].(state := Running, quantum := DEFAULT_QUANTUM)],
            ready := queue, current := next)
  }

  // --------------------------------------------------------------- waits

  /** Try to satisfy the call without blocking. */
  function TryAcquire(objects: map<ObjectId, Header>, call: Call): Option<(map<ObjectId, Header>, nat)>
    requires KnownObjects(objects, call.objects)
  {
    if call.waitAll then
      if AllSignaled(objects, call.objects) then Some((ConsumeEach(objects, call.objects), 0)) else None
    else
      var i := FirstSignaled(objects, call.objects, 0);
      if i < |call.objects| then
        var o := call.objects[i];
        Some((objects[o := Consume(objects[o])], i))
      else None
  }

  /** InsertTailList of the thread's first `n` blocks, slot by slot. */
  function Enlist(objects: map<ObjectId, Header>, t: ThreadId, list: seq<ObjectId>): (r: map<ObjectId, Header>)
    requires KnownObjects(objects, list)
    ensures r.Keys == objects.Keys
    decreases |list|
  {
    if list == [] then objects
    else
      var n := |list| - 1;
      var before := Enlist(objects, t, list[..n]);
      before[list[n] := before[list[n]].(waiters := before[list[n]].waiters + [Block(t, n)])]
  }

  /** The current thread with its blocks filled in, linked and marked waiting. */
  function FallAsleep(s: State, call: Call): State
    requires s.current in s.threads && KnownObjects(s.objects, call.objects)
  {
    var th := s.threads[s.current].(state := Waiting, blocks := call.objects, status := Pending,
                                    deadline := call.deadline, call := Some(call));
    s.(objects := Enlist(s.objects, s.current, call.objects), threads := s.threads[s.current := th])
  }

  /** One round of the loop in KeWaitForMultipleObjects, run by the current thread:
      acquire, give up, or block and reschedule. */
  function TestOrBlock(s: State, call: Call): (State, Outcome)
    requires s.current in s.threads && IDLE in s.threads && KnownObjects(s.objects, call.objects)
    requires s.ready != [] ==> s.ready[0] in s.threads
  {
    match TryAcquire(s.objects, call)
    case Some((objects, i)) => (s.(objects := objects), Satisfied(i))
    case None =>
      if call.timeout == 0 || (call.deadline != 0 && s.tick >= call.deadline) then (s, Expired)
      else (Schedule(FallAsleep(s, call)), Blocked)
  }

  function Deadline(s: State, timeout: nat): nat
  {
    if timeout == INFINITE then 0 else (s.tick + timeout) % TWO_64
  }

  /** KeWaitForMultipleObjects up to its return or its first block. */
  function Wait(s: State, list: seq<ObjectId>, waitAll: bool, timeout: nat): (State, Outcome)
    requires s.current in s.threads && IDLE in s.threads && KnownObjects(s.objects, list)
    requires s.ready != [] ==> s.ready[0] in s.threads
  {
    if |list| == 0 || |list| > MAXIMUM_WAIT_OBJECTS then (s, InvalidParameter)
    else TestOrBlock(s, Call(list, waitAll, timeout, Deadline(s, timeout)))
  }

  /** A wait whose thread runs again: unlink, then time out or go round the loop. */
  function Resume(s: State): (State, Outcome)
    requires s.current in s.threads && IDLE in s.threads && s.threads[s.current].call.Some?
    requires KnownObjects(s.objects, s.threads[s.current].call.value.objects)
    requires s.ready != [] ==> s.ready[0] in s.threads
  {
    var th := s.threads[s.current];
    var objects := Unlink(s.objects, s.current, |th.blocks|);
    var back := s.(objects := objects, threads := s.threads[s.current := th.(blocks := [], call := None)]);
    if th.status == TimedOut then (back, Expired) else TestOrBlock(back, th.call.value)
  }

  // ---------------------------------------------------- other operations

  function SetSignal(s: State, o: ObjectId, signal: int): (r: State)
    requires o in s.objects
    ensures WaitersKnown(s) ==> WaitersKnown(r)
  {
    s.(objects := s.objects[o := s.objects[o].(signal := signal)])
  }

  /** What KeReleaseSemaphore leaves in SignalState. */
  function Released(h: Header, count: int): int
  {
    if h.limit != 0 && h.signal + count > h.limit then h.limit else h.signal + count
  }

  /** One round of the timeout scan: the thread is woken if it is due. */
  function WakeIfDue(s: State, t: ThreadId): (r: State)
    requires t in s.threads
    ensures r.threads.Keys == s.threads.Keys && r.objects.Keys == s.objects.Keys
    ensures r.current == s.current && r.tick == s.tick && r.order == s.order
  {
    var th := s.threads[t];
    if th.state == Waiting && th.deadline != 0 && s.tick >= th.deadline then Wake(s, t, TimedOut) else s
  }

  /** The timeout scan of KeClockTick over the threads of `list`. */
  function ExpireWaits(s: State, list: seq<ThreadId>): (r: State)
    requires forall t :: t in list ==> t in s.threads
    ensures r.threads.Keys == s.threads.Keys && r.objects.Keys == s.objects.Keys
    ensures r.current == s.current && r.tick == s.tick && r.order == s.order
    decreases |list|
  {
    if list == [] then s
    else
      var n := |list| - 1;
      assert forall t :: t in list[..n] ==> t in list;
      assert list[n] in list;
      WakeIfDue(ExpireWaits(s, list[..n]), list[n])
  }

  function Spent(s: State): State
    requires s.current in s.threads
  {
    var th := s.threads[s.current];
    s.(threads := s.threads[s.current := th.(quantum := if th.quantum > 0 then th.quantum - 1 else th.quantum)])
  }

  /** The quantum half of KeClockTick. */
  function SpendQuantum(s: State): State
    requires s.current in s.threads && IDLE in s.threads
    requires s.ready != [] ==> s.ready[0] in s.threads
  {
    if Spent(s).threads[s.current].quantum <= 0 then Schedule(Spent(s)) else Spent(s)
  }

  function NewThread(): Thread
  {
    Thread(Ready, DEFAULT_QUANTUM, [], Pending, 0, None)
  }
}

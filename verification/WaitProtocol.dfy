/** Safety of the wait protocol over every run: any interleaving of waits, resumptions,
    signals, resets, releases, clock ticks, yields, creations and terminations. */
module WaitProtocol {
  import opened Dispatcher
  import opened Prelude

  // ---------------------------------------------------------- the invariant

  /** Every non-idle thread is in one place: current, in the ready queue (once), waiting
      or terminated. */
  ghost predicate Places(s: State)
  {
    && s.current in s.threads && IDLE in s.threads && s.threads[IDLE].state == Running
    && s.threads[s.current].state != Ready
    && NoDup(s.ready)
    && (forall t :: t in s.ready ==> t in s.threads)
    && (forall t :: t in s.threads ==> Placed(s, t))
    && (forall t :: t in s.order <==> t in s.threads)
  }

  ghost predicate Placed(s: State, t: ThreadId)
    requires t in s.threads
  {
    && (t in s.ready <==> s.threads[t].state == Ready)
    && (s.threads[t].state == Running ==> t == s.current || t == IDLE)
    && 0 <= s.threads[t].quantum <= DEFAULT_QUANTUM
  }

  /** Wait blocks are linked exactly where a waiting thread says, and once each. */
  ghost predicate Links(s: State)
  {
    && (forall o :: o in s.objects ==> NoDup(s.objects[o].waiters))
    && (forall o, b {:trigger b in s.objects[o].waiters} :: o in s.objects && b in s.objects[o].waiters ==>
          && b.thread in s.threads && s.threads[b.thread].state == Waiting
          && b.slot < |s.threads[b.thread].blocks| && s.threads[b.thread].blocks[b.slot] == o)
    && (forall t, i {:trigger s.threads[t].blocks[i]} ::
          t in s.threads && s.threads[t].state == Waiting && 0 <= i < |s.threads[t].blocks| ==>
            && s.threads[t].blocks[i] in s.objects
            && Block(t, i) in s.objects[s.threads[t].blocks[i]].waiters)
  }

  ghost predicate CallOk(objects: map<ObjectId, Header>, call: Call)
  {
    0 < |call.objects| <= MAXIMUM_WAIT_OBJECTS && KnownObjects(objects, call.objects)
  }

  ghost predicate Calls(s: State)
  {
    forall t :: t in s.threads ==>
      && (s.threads[t].call.Some? ==> t != IDLE && CallOk(s.objects, s.threads[t].call.value))
      && (s.threads[t].state == Waiting ==>
            && s.threads[t].call.Some? && s.threads[t].blocks == s.threads[t].call.value.objects
            && s.threads[t].deadline == s.threads[t].call.value.deadline)
  }

  /** No lost wakeup: what a waiting thread waits for is not the case now. Objects in
      `except` are excused while their waiters are being woken. */
  ghost predicate Asleep(s: State, except: set<ObjectId>)
    requires Calls(s)
  {
    forall t :: t in s.threads && s.threads[t].state == Waiting ==>
      !Met(s.objects, s.threads[t].call.value)
      || exists i :: 0 <= i < |s.threads[t].blocks| && s.threads[t].blocks[i] in except
  }

  /** No waiting thread sleeps past its deadline. */
  ghost predicate Punctual(s: State)
  {
    forall t :: t in s.threads && s.threads[t].state == Waiting && s.threads[t].deadline != 0 ==>
      s.tick < s.threads[t].deadline
  }

  ghost predicate CurrentRuns(s: State)
  {
    s.current in s.threads && s.threads[s.current].state == Running
  }

  ghost predicate Inv(s: State)
  {
    Places(s) && CurrentRuns(s) && Links(s) && Calls(s) && Asleep(s, {}) && Punctual(s)
  }

  // ------------------------------------------------------------------ steps

  datatype Step =
    | WaitStep(list: seq<ObjectId>, waitAll: bool, timeout: nat)
    | ResumeStep
    | SetEvent(o: ObjectId)
    | ResetEvent(o: ObjectId)
    | ReleaseSemaphore(o: ObjectId, count: int)
    | ReleaseMutant(o: ObjectId)
    | Tick
    | Yield
    | CreateThread(t: ThreadId)
    | Terminate(termination: Option<ObjectId>)
    | CreateObject(o: ObjectId, kind: Kind, initial: int, limit: int)

  /** What the callers of each routine guarantee. The idle thread never waits or ends,
      and a thread inside a wait does nothing else of its own accord. */
  ghost predicate Enabled(s: State, step: Step)
  {
    match step
    case WaitStep(list, _, timeout) =>
      s.current != IDLE && s.current in s.threads && s.threads[s.current].call == None
      && KnownObjects(s.objects, list) && timeout < TWO_64
    case ResumeStep => s.current in s.threads && s.threads[s.current].call.Some?
    case SetEvent(o) => o in s.objects && s.objects[o].kind in {NotificationEvent, SynchronizationEvent}
    case ResetEvent(o) => o in s.objects && s.objects[o].kind in {NotificationEvent, SynchronizationEvent}
    case ReleaseSemaphore(o, count) => o in s.objects && s.objects[o].kind == Semaphore && count > 0
    case ReleaseMutant(o) => o in s.objects && s.objects[o].kind == Mutant
    case Tick => true
    case Yield => true
    case CreateThread(t) => t !in s.threads
    case Terminate(termination) =>
      s.current != IDLE && s.current in s.threads && s.threads[s.current].call == None
      && (termination.Some? ==> termination.value in s.objects && s.objects[termination.value].kind == ThreadObject)
    case CreateObject(o, kind, initial, limit) =>
      o !in s.objects
      && if kind == Semaphore then 0 <= initial <= limit && limit > 0
         else if kind == ThreadObject then initial == 0
         else 0 <= initial <= 1
  }

  lemma LinksGiveKnown(s: State)
    requires Links(s)
    ensures WaitersKnown(s)
  {
  }

  // ------------------------------------------------------- waking preserves

  lemma WakePlaces(s: State, t: ThreadId, status: WaitStatus)
    requires t in s.threads && Places(s) && s.threads[s.current].state != Waiting
    ensures Places(Wake(s, t, status))
  {
    if s.threads[t].state == Waiting {
      assert t !in s.ready;
      assert forall u :: u in s.ready + [t] <==> u in s.ready || u == t;
    }
  }

  lemma WakeLinks(s: State, t: ThreadId, status: WaitStatus)
    requires t in s.threads && Links(s)
    ensures Links(Wake(s, t, status))
  {
    var r := Wake(s, t, status);
    if s.threads[t].state == Waiting {
      forall o, b | o in r.objects && b in r.objects[o].waiters
        ensures b.thread != t && b in s.objects[o].waiters
      {
        WithoutMembers(s.objects[o].waiters, t, |s.threads[t].blocks|);
      }
      forall o | o in r.objects
        ensures NoDup(r.objects[o].waiters)
        ensures forall b :: b in s.objects[o].waiters && b.thread != t ==> b in r.objects[o].waiters
      {
        WithoutNoDup(s.objects[o].waiters, t, |s.threads[t].blocks|);
        WithoutMembers(s.objects[o].waiters, t, |s.threads[t].blocks|);
      }
    }
  }

  /** Unlinking changes no signal. */
  lemma UnlinkKeepsMet(objects: map<ObjectId, Header>, t: ThreadId, n: nat, call: Call)
    requires KnownObjects(objects, call.objects)
    ensures KnownObjects(Unlink(objects, t, n), call.objects)
    ensures Met(Unlink(objects, t, n), call) == Met(objects, call)
  {
    var r := Unlink(objects, t, n);
    assert forall o :: o in objects ==> r[o].signal == objects[o].signal;
    assert forall i :: 0 <= i < |call.objects| ==>
      CanAcquire(r[call.objects[i]]) == CanAcquire(objects[call.objects[i]]);
  }

  lemma WakeCalls(s: State, t: ThreadId, status: WaitStatus, except: set<ObjectId>)
    requires t in s.threads && Calls(s) && Asleep(s, except)
    ensures Calls(Wake(s, t, status)) && Asleep(Wake(s, t, status), except)
  {
    var n := |s.threads[t].blocks|;
    forall u | u in s.threads && s.threads[u].call.Some?
      ensures CallOk(Unlink(s.objects, t, n), s.threads[u].call.value)
      ensures Met(Unlink(s.objects, t, n), s.threads[u].call.value) == Met(s.objects, s.threads[u].call.value)
    {
      UnlinkKeepsMet(s.objects, t, n, s.threads[u].call.value);
    }
  }

  lemma WakeKeeps(s: State, t: ThreadId, status: WaitStatus, except: set<ObjectId>)
    requires t in s.threads && Places(s) && Links(s) && Calls(s) && Asleep(s, except)
    requires s.threads[s.current].state != Waiting
    ensures var r := Wake(s, t, status); Places(r) && Links(r) && Calls(r) && Asleep(r, except)
    ensures var r := Wake(s, t, status); r.current == s.current && r.threads[s.current] == s.threads[s.current]
  {
    WakePlaces(s, t, status);
    WakeLinks(s, t, status);
    WakeCalls(s, t, status, except);
  }

  /** Waking everyone on `o` after its signal rose restores the whole condition. */
  lemma {:induction false} SignalKeeps(s: State, o: ObjectId)
    requires o in s.objects && Places(s) && Links(s) && Calls(s) && Asleep(s, {o})
    requires s.threads[s.current].state != Waiting
    ensures WaitersKnown(s)
    ensures var r := SignalObject(s, o); Places(r) && Links(r) && Calls(r) && Asleep(r, {})
    ensures var r := SignalObject(s, o); r.current == s.current && r.threads[s.current] == s.threads[s.current]
    decreases |s.objects[o].waiters|
  {
    LinksGiveKnown(s);
    var waiters := s.objects[o].waiters;
    if waiters != [] {
      var t := waiters[0].thread;
      assert waiters[0] in waiters;
      PopThenWake(s, o);
      WakeKeeps(s, t, Success, {o});
      var next := Wake(s, t, Success);
      HeadLeaves(s, o);
      SignalKeeps(next, o);
    } else {
      forall t | t in s.threads && s.threads[t].state == Waiting
        ensures !Met(s.objects, s.threads[t].call.value)
      {
        forall i | 0 <= i < |s.threads[t].blocks| ensures s.threads[t].blocks[i] != o {
          assert Block(t, i) in s.objects[s.threads[t].blocks[i]].waiters;
        }
      }
    }
  }

  /** Detaching the head before waking its thread is the same as waking it: the wake
      unlinks the head along with the thread's other blocks. */
  lemma PopThenWake(s: State, o: ObjectId)
    requires o in s.objects && s.objects[o].waiters != [] && Links(s)
    ensures s.objects[o].waiters[0].thread in s.threads
    ensures var waiters := s.objects[o].waiters;
            var popped := s.(objects := s.objects[o := s.objects[o].(waiters := waiters[1..])]);
            Wake(popped, waiters[0].thread, Success) == Wake(s, waiters[0].thread, Success)
  {
    var waiters := s.objects[o].waiters;
    assert waiters[0] in waiters;
    var t, n := waiters[0].thread, |s.threads[waiters[0].thread].blocks|;
    assert Without(waiters, t, n) == Without(waiters[1..], t, n);
    var popped := s.objects[o := s.objects[o].(waiters := waiters[1..])];
    assert Unlink(popped, t, n) == Unlink(s.objects, t, n);
  }

  lemma HeadLeaves(s: State, o: ObjectId)
    requires o in s.objects && s.objects[o].waiters != [] && Links(s)
    ensures s.objects[o].waiters[0].thread in s.threads
    ensures |Wake(s, s.objects[o].waiters[0].thread, Success).objects[o].waiters| < |s.objects[o].waiters|
  {
    var waiters := s.objects[o].waiters;
    assert waiters[0] in waiters;
    var t, n := waiters[0].thread, |s.threads[waiters[0].thread].blocks|;
    assert Without(waiters, t, n) == Without(waiters[1..], t, n);
  }

  // ------------------------------------------------------------- acquiring

  lemma {:induction false} ConsumeEachSignals(objects: map<ObjectId, Header>, list: seq<ObjectId>)
    requires KnownObjects(objects, list)
    ensures forall o :: o in objects ==>
              var r := ConsumeEach(objects, list)[o];
              r == objects[o].(signal := r.signal) && (objects[o].signal <= 0 ==> r.signal <= 0)
    decreases |list|
  {
    if list != [] {
      ConsumeEachSignals(objects, list[..|list| - 1]);
    }
  }

  /** Acquiring only lowers signals and touches nothing else. */
  lemma AcquireLowers(objects: map<ObjectId, Header>, call: Call)
    requires KnownObjects(objects, call.objects) && TryAcquire(objects, call).Some?
    ensures var r := TryAcquire(objects, call).value.0;
            r.Keys == objects.Keys
            && forall o :: o in objects ==>
                 r[o] == objects[o].(signal := r[o].signal) && (objects[o].signal <= 0 ==> r[o].signal <= 0)
  {
    ConsumeEachSignals(objects, call.objects);
  }

  /** Lower signals wake nobody who should sleep and unlink nobody. */
  lemma LowerKeeps(s: State, objects: map<ObjectId, Header>)
    requires Links(s) && Calls(s) && Asleep(s, {})
    requires objects.Keys == s.objects.Keys
    requires forall o :: o in s.objects ==>
               objects[o] == s.objects[o].(signal := objects[o].signal)
               && (s.objects[o].signal <= 0 ==> objects[o].signal <= 0)
    ensures var r := s.(objects := objects); Links(r) && Calls(r) && Asleep(r, {})
  {
    var r := s.(objects := objects);
    forall t | t in s.threads && s.threads[t].call.Some?
      ensures CallOk(objects, s.threads[t].call.value)
      ensures Met(objects, s.threads[t].call.value) ==> Met(s.objects, s.threads[t].call.value)
    {
      var list := s.threads[t].call.value.objects;
      assert forall i :: 0 <= i < |list| && CanAcquire(objects[list[i]]) ==> CanAcquire(s.objects[list[i]]);
    }
  }

  // -------------------------------------------------------------- blocking

  lemma {:induction false} EnlistEffect(objects: map<ObjectId, Header>, t: ThreadId, list: seq<ObjectId>)
    requires KnownObjects(objects, list)
    requires forall o, b :: o in objects && b in objects[o].waiters ==> b.thread != t
    ensures var r := Enlist(objects, t, list);
            && (forall o :: o in objects ==> r[o] == objects[o].(waiters := r[o].waiters))
            && (forall o, b {:trigger b in r[o].waiters} :: o in objects ==>
                  (b in r[o].waiters <==> b in objects[o].waiters
                                          || (b.thread == t && b.slot < |list| && list[b.slot] == o)))
    decreases |list|
  {
    if list != [] {
      var n := |list| - 1;
      EnlistEffect(objects, t, list[..n]);
      var before := Enlist(objects, t, list[..n])[list[n]].waiters;
      assert forall b :: b in before + [Block(t, n)] <==> b in before || b == Block(t, n);
    }
  }

  lemma {:induction false} EnlistOnce(objects: map<ObjectId, Header>, t: ThreadId, list: seq<ObjectId>)
    requires KnownObjects(objects, list)
    requires forall o, b :: o in objects && b in objects[o].waiters ==> b.thread != t
    requires forall o :: o in objects ==> NoDup(objects[o].waiters)
    ensures forall o :: o in objects ==> NoDup(Enlist(objects, t, list)[o].waiters)
    decreases |list|
  {
    if list != [] {
      var n := |list| - 1;
      EnlistOnce(objects, t, list[..n]);
      EnlistEffect(objects, t, list[..n]);
      assert Block(t, n) !in Enlist(objects, t, list[..n])[list[n]].waiters;
    }
  }

  /** A thread that blocks with its condition false is properly asleep. */
  lemma BlockKeeps(s: State, call: Call)
    requires Places(s) && CurrentRuns(s) && Links(s) && Calls(s) && Asleep(s, {}) && Punctual(s)
    requires s.current != IDLE && CallOk(s.objects, call) && !Met(s.objects, call)
    requires call.deadline == 0 || s.tick < call.deadline
    ensures var r := FallAsleep(s, call); Places(r) && Links(r) && Calls(r) && Asleep(r, {}) && Punctual(r)
  {
    BlockLinks(s, call);
    forall c | CallOk(s.objects, c)
      ensures CallOk(FallAsleep(s, call).objects, c) && Met(FallAsleep(s, call).objects, c) == Met(s.objects, c)
    {
      EnlistMeets(s.objects, s.current, call.objects, c);
    }
  }

  lemma BlockLinks(s: State, call: Call)
    requires Places(s) && CurrentRuns(s) && Links(s) && Calls(s)
    requires s.current != IDLE && CallOk(s.objects, call)
    ensures Places(FallAsleep(s, call)) && Links(FallAsleep(s, call))
  {
    EnlistEffect(s.objects, s.current, call.objects);
    EnlistOnce(s.objects, s.current, call.objects);
  }

  /** Linking blocks makes no wait's condition true or false. */
  lemma EnlistMeets(objects: map<ObjectId, Header>, t: ThreadId, list: seq<ObjectId>, call: Call)
    requires KnownObjects(objects, list) && CallOk(objects, call)
    requires forall o, b :: o in objects && b in objects[o].waiters ==> b.thread != t
    ensures CallOk(Enlist(objects, t, list), call)
    ensures Met(Enlist(objects, t, list), call) == Met(objects, call)
  {
    EnlistEffect(objects, t, list);
    var after := Enlist(objects, t, list);
    assert forall i :: 0 <= i < |call.objects| ==>
      CanAcquire(after[call.objects[i]]) == CanAcquire(objects[call.objects[i]]);
  }

  // ------------------------------------------------------------ scheduling

  /** KiSchedule takes the queue's head and puts a thread that still runs at its tail. */
  lemma SchedulePlaces(s: State)
    requires Places(s)
    ensures s.ready != [] ==> s.ready[0] in s.threads
    ensures Places(Schedule(s)) && CurrentRuns(Schedule(s))
  {
    if s.ready != [] {
      assert s.ready[0] in s.ready;
      assert forall t :: t in s.ready <==> t == s.ready[0] || t in s.ready[1..];
      assert s.ready[0] !in s.ready[1..];
    }
    var rest := if s.ready == [] then [] else s.ready[1..];
    assert forall t :: t in rest + [s.current] <==> t in rest || t == s.current;
  }

  lemma ScheduleKeeps(s: State)
    requires Places(s) && Links(s) && Calls(s) && Asleep(s, {}) && Punctual(s)
    ensures s.ready != [] ==> s.ready[0] in s.threads
    ensures Inv(Schedule(s))
  {
    SchedulePlaces(s);
    ScheduleFrame(s);
    SameWaits(s, Schedule(s));
  }

  /** Scheduling touches run states and one quantum, and wakes nobody. */
  lemma ScheduleFrame(s: State)
    requires Places(s) && (s.ready != [] ==> s.ready[0] in s.threads)
    ensures var r := Schedule(s);
            r.threads.Keys == s.threads.Keys && r.objects == s.objects && r.tick == s.tick && r.order == s.order
    ensures forall t :: t in s.threads ==>
              var after := Schedule(s).threads[t];
              after == s.threads[t].(state := after.state, quantum := after.quantum)
              && (after.state == Waiting <==> s.threads[t].state == Waiting)
  {
    if s.ready != [] {
      assert s.ready[0] in s.ready;
    }
  }

  /** The wait invariants only look at objects, blocks, calls and who is waiting. */
  lemma SameWaits(s: State, r: State)
    requires Links(s) && Calls(s) && Asleep(s, {}) && Punctual(s)
    requires r.threads.Keys == s.threads.Keys && r.objects == s.objects && r.tick == s.tick
    requires forall t :: t in s.threads ==>
               && r.threads[t] == s.threads[t].(state := r.threads[t].state, quantum := r.threads[t].quantum)
               && (r.threads[t].state == Waiting <==> s.threads[t].state == Waiting)
    ensures Links(r) && Calls(r) && Asleep(r, {}) && Punctual(r)
  {
  }

  lemma TestOrBlockKeeps(s: State, call: Call)
    requires Inv(s) && s.current != IDLE && CallOk(s.objects, call)
    ensures s.ready != [] ==> s.ready[0] in s.threads
    ensures Inv(TestOrBlock(s, call).0)
  {
    SchedulePlaces(s);
    if TryAcquire(s.objects, call).Some? {
      AcquireLowers(s.objects, call);
      LowerKeeps(s, TryAcquire(s.objects, call).value.0);
    } else if !(call.timeout == 0 || (call.deadline != 0 && s.tick >= call.deadline)) {
      BlockKeeps(s, call);
      ScheduleKeeps(FallAsleep(s, call));
    }
  }

  /** A running thread owns no linked block, so the defensive unlink finds nothing. */
  lemma NothingToUnlink(s: State, t: ThreadId, n: nat)
    requires Links(s) && t in s.threads && s.threads[t].state != Waiting
    ensures Unlink(s.objects, t, n) == s.objects
  {
    forall o | o in s.objects ensures Without(s.objects[o].waiters, t, n) == s.objects[o].waiters {
      WithoutNothing(s.objects[o].waiters, t, n);
    }
  }

  lemma {:induction false} WithoutNothing(waiters: seq<Block>, t: ThreadId, n: nat)
    requires forall b :: b in waiters ==> b.thread != t
    ensures Without(waiters, t, n) == waiters
  {
    if waiters != [] {
      assert waiters[0] in waiters;
      WithoutNothing(waiters[1..], t, n);
    }
  }

  /** The running thread's own fields, other than its state, are nobody else's business. */
  lemma UpdateCurrent(s: State, th: Thread)
    requires Inv(s) && th.state == Running && 0 <= th.quantum <= DEFAULT_QUANTUM
    requires th.call == None || th.call == s.threads[s.current].call
    ensures Inv(s.(threads := s.threads[s.current := th]))
  {
    var r := s.(threads := s.threads[s.current := th]);
    assert forall t :: t in s.threads && r.threads[t].state == Waiting ==> r.threads[t] == s.threads[t];
  }

  lemma ResumeKeeps(s: State)
    requires Inv(s) && s.threads[s.current].call.Some?
    ensures KnownObjects(s.objects, s.threads[s.current].call.value.objects)
    ensures s.ready != [] ==> s.ready[0] in s.threads
    ensures Inv(Resume(s).0)
  {
    SchedulePlaces(s);
    var th := s.threads[s.current];
    NothingToUnlink(s, s.current, |th.blocks|);
    var back := s.(threads := s.threads[s.current := th.(blocks := [], call := None)]);
    UpdateCurrent(s, th.(blocks := [], call := None));
    if th.status != TimedOut {
      TestOrBlockKeeps(back, th.call.value);
    }
  }

  // ------------------------------------------------------ signals and ticks

  /** Raising one object's signal excuses exactly that object's waiters. */
  lemma RaiseKeeps(s: State, o: ObjectId, signal: int)
    requires Links(s) && Calls(s) && Asleep(s, {}) && o in s.objects
    ensures var r := SetSignal(s, o, signal); Links(r) && Calls(r) && Asleep(r, {o})
    ensures signal <= 0 ==> Asleep(SetSignal(s, o, signal), {})
  {
    var r := SetSignal(s, o, signal);
    forall t | t in s.threads && s.threads[t].state == Waiting
      ensures !Met(r.objects, s.threads[t].call.value)
              || (signal > 0 && exists i :: 0 <= i < |s.threads[t].blocks| && s.threads[t].blocks[i] == o)
    {
      var call := s.threads[t].call.value;
      assert KnownObjects(r.objects, call.objects);
      if signal <= 0 || forall i :: 0 <= i < |s.threads[t].blocks| ==> s.threads[t].blocks[i] != o {
        assert forall i :: 0 <= i < |call.objects| && CanAcquire(r.objects[call.objects[i]]) ==>
            CanAcquire(s.objects[call.objects[i]]);
      }
    }
  }

  /** The timeout scan wakes exactly the threads that are due. */
  lemma {:induction false} ExpireKeeps(s: State, list: seq<ThreadId>)
    requires Places(s) && CurrentRuns(s) && Links(s) && Calls(s) && Asleep(s, {})
    requires forall t :: t in list ==> t in s.threads
    ensures var r := ExpireWaits(s, list);
            && Places(r) && CurrentRuns(r) && Links(r) && Calls(r) && Asleep(r, {})
            && (forall t :: t in s.threads && r.threads[t].state == Waiting ==> r.threads[t] == s.threads[t])
            && (forall t :: t in list && r.threads[t].state == Waiting && r.threads[t].deadline != 0 ==>
                  r.tick < r.threads[t].deadline)
    decreases |list|
  {
    if list != [] {
      var n := |list| - 1;
      assert forall t :: t in list <==> t in list[..n] || t == list[n];
      ExpireKeeps(s, list[..n]);
      var before := ExpireWaits(s, list[..n]);
      WakeKeeps(before, list[n], TimedOut, {});
    }
  }

  lemma SpentKeeps(s: State)
    requires Inv(s)
    ensures Inv(Spent(s))
  {
    var th := s.threads[s.current];
    assert Placed(s, s.current);
    UpdateCurrent(s, th.(quantum := if th.quantum > 0 then th.quantum - 1 else th.quantum));
  }

  lemma SpendKeeps(s: State)
    requires Inv(s)
    ensures s.ready != [] ==> s.ready[0] in s.threads
    ensures Inv(SpendQuantum(s))
  {
    SpentKeeps(s);
    ScheduleKeeps(Spent(s));
  }

  // ------------------------------------------------------------- the system

  lemma QueueKnown(s: State)
    requires Places(s)
    ensures s.ready != [] ==> s.ready[0] in s.threads
  {
    if s.ready != [] {
      assert s.ready[0] in s.ready;
    }
  }

  /** KeTerminateThread up to its reschedule: the thread is dead, its object signaled. */
  ghost function Ended(s: State, termination: Option<ObjectId>): State
    requires s.current in s.threads && WaitersKnown(s)
    requires termination.Some? ==> termination.value in s.objects
  {
    var dead := s.(threads := s.threads[s.current := s.threads[s.current].(state := Terminated)]);
    match termination
    case None => dead
    case Some(o) => SignalObject(SetSignal(dead, o, 1), o)
  }

  /** KeClockTick. */
  ghost function AfterTick(s: State): State
    requires Inv(s)
  {
    ExpireAll(s);
    QueueKnown(ExpireWaits(Ticked(s), s.order));
    SpendQuantum(ExpireWaits(Ticked(s), s.order))
  }

  /** The state after a step, and what the wait returned if the step was part of one. */
  ghost function Next(s: State, step: Step): (State, Option<Outcome>)
    requires Inv(s) && Enabled(s, step)
  {
    QueueKnown(s);
    LinksGiveKnown(s);
    match step
    case WaitStep(list, waitAll, timeout) =>
      var (r, outcome) := Wait(s, list, waitAll, timeout);
      (r, Some(outcome))
    case ResumeStep =>
      var (r, outcome) := Resume(s);
      (r, Some(outcome))
    case SetEvent(o) => (SignalObject(SetSignal(s, o, 1), o), None)
    case ResetEvent(o) => (SetSignal(s, o, 0), None)
    case ReleaseSemaphore(o, count) =>
      (SignalObject(SetSignal(s, o, Released(s.objects[o], count)), o), None)
    case ReleaseMutant(o) => (SignalObject(SetSignal(s, o, 1), o), None)
    case Tick =>
      (AfterTick(s), None)
    case Yield => (Schedule(s), None)
    case CreateThread(t) =>
      (s.(threads := s.threads[t := NewThread()], ready := s.ready + [t], order := s.order + [t]), None)
    case Terminate(termination) =>
      var ended := Ended(s, termination);
      EndedKeeps(s, termination);
      QueueKnown(ended);
      (Schedule(ended), None)
    case CreateObject(o, kind, initial, limit) =>
      (s.(objects := s.objects[o := Header(kind, initial, limit, [])]), None)
  }

  lemma EndedKeeps(s: State, termination: Option<ObjectId>)
    requires Inv(s) && s.current != IDLE && s.threads[s.current].call == None
    requires termination.Some? ==> termination.value in s.objects
    ensures WaitersKnown(s)
    ensures var r := Ended(s, termination); Places(r) && Links(r) && Calls(r) && Asleep(r, {}) && Punctual(r)
  {
    LinksGiveKnown(s);
    var dead := s.(threads := s.threads[s.current := s.threads[s.current].(state := Terminated)]);
    assert forall t :: t in s.threads && dead.threads[t].state == Waiting ==> dead.threads[t] == s.threads[t];
    assert Links(dead) && Calls(dead) && Asleep(dead, {}) && Punctual(dead);
    if termination.Some? {
      RaiseKeeps(dead, termination.value, 1);
      SignalKeeps(SetSignal(dead, termination.value, 1), termination.value);
      SignalPunctual(SetSignal(dead, termination.value, 1), termination.value);
    }
  }

  lemma {:induction false} SignalPunctual(s: State, o: ObjectId)
    requires o in s.objects && WaitersKnown(s)
    ensures SignalObject(s, o).tick == s.tick && SignalObject(s, o).threads.Keys == s.threads.Keys
    ensures SignalObject(s, o).order == s.order
    ensures forall t :: t in s.threads && SignalObject(s, o).threads[t].state == Waiting ==>
              SignalObject(s, o).threads[t] == s.threads[t]
    decreases |s.objects[o].waiters|
  {
    var waiters := s.objects[o].waiters;
    if waiters != [] {
      var popped := s.(objects := s.objects[o := s.objects[o].(waiters := waiters[1..])]);
      assert forall b :: b in waiters[1..] ==> b in waiters;
      assert waiters[0] in waiters;
      WakeKnown(popped, waiters[0].thread, Success);
      SignalPunctual(Wake(popped, waiters[0].thread, Success), o);
    }
  }

  /** A signal step: raise, then wake. */
  lemma SignalStep(s: State, o: ObjectId, signal: int)
    requires Inv(s) && o in s.objects
    ensures WaitersKnown(SetSignal(s, o, signal)) && Inv(SignalObject(SetSignal(s, o, signal), o))
  {
    LinksGiveKnown(s);
    RaiseKeeps(s, o, signal);
    SignalKeeps(SetSignal(s, o, signal), o);
    SignalPunctual(SetSignal(s, o, signal), o);
  }

  function Ticked(s: State): State
  {
    s.(tick := s.tick + 1)
  }

  lemma ExpireAll(s: State)
    requires Inv(s)
    ensures forall t :: t in s.order ==> t in s.threads
    ensures Inv(ExpireWaits(Ticked(s), s.order))
  {
    ExpireKeeps(Ticked(s), s.order);
  }

  lemma CreateKeeps(s: State, t: ThreadId)
    requires Inv(s) && t !in s.threads
    ensures Inv(s.(threads := s.threads[t := NewThread()], ready := s.ready + [t], order := s.order + [t]))
  {
    var r := s.(threads := s.threads[t := NewThread()], ready := s.ready + [t], order := s.order + [t]);
    assert forall u :: u in r.ready <==> u in s.ready || u == t;
    assert forall u :: u in r.threads && r.threads[u].state == Waiting ==> r.threads[u] == s.threads[u];
    assert forall u :: u in r.order <==> u in s.order || u == t;
  }

  lemma CreateObjectKeeps(s: State, o: ObjectId, h: Header)
    requires Inv(s) && o !in s.objects && h.waiters == []
    ensures Inv(s.(objects := s.objects[o := h]))
  {
    var r := s.(objects := s.objects[o := h]);
    forall call | CallOk(s.objects, call)
      ensures CallOk(r.objects, call) && Met(r.objects, call) == Met(s.objects, call)
    {
      assert forall i :: 0 <= i < |call.objects| ==> r.objects[call.objects[i]] == s.objects[call.objects[i]];
    }
  }

  /** Every step keeps the invariant. */
  lemma StepKeeps(s: State, step: Step)
    requires Inv(s) && Enabled(s, step)
    ensures Inv(Next(s, step).0)
  {
    match step
    case WaitStep(list, waitAll, timeout) =>
      if 0 < |list| <= MAXIMUM_WAIT_OBJECTS {
        TestOrBlockKeeps(s, Call(list, waitAll, timeout, Deadline(s, timeout)));
      }
    case ResumeStep => ResumeKeeps(s);
    case SetEvent(o) => SignalStep(s, o, 1);
    case ResetEvent(o) => RaiseKeeps(s, o, 0);
    case ReleaseSemaphore(o, count) => SignalStep(s, o, Released(s.objects[o], count));
    case ReleaseMutant(o) => SignalStep(s, o, 1);
    case Tick =>
      ExpireAll(s);
      SpendKeeps(ExpireWaits(Ticked(s), s.order));
    case Yield => ScheduleKeeps(s);
    case CreateThread(t) => CreateKeeps(s, t);
    case Terminate(termination) =>
      EndedKeeps(s, termination);
      ScheduleKeeps(Ended(s, termination));
    case CreateObject(o, kind, initial, limit) => CreateObjectKeeps(s, o, Header(kind, initial, limit, []));
  }
}

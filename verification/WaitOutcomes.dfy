/** What waits return and when, what each step does to threads, and what becomes of a
    call: stated on the steps' results, over signals, ticks and deadlines. */
module WaitOutcomes {
  import opened Dispatcher
  import opened Prelude
  import opened WaitProtocol
  import opened DispatcherRuns

  /** All the objects listed, or one of them, are signaled. */
  predicate Signaled(objects: map<ObjectId, Header>, list: seq<ObjectId>, waitAll: bool)
    requires KnownObjects(objects, list)
  {
    if waitAll then forall i :: 0 <= i < |list| ==> objects[list[i]].signal > 0
    else exists i :: 0 <= i < |list| && objects[list[i]].signal > 0
  }

  /** The tick a wait falls due, 0 for never: 64-bit arithmetic, and the all-ones timeout. */
  function Due(tick: nat, timeout: nat): nat
  {
    if timeout == 0xFFFF_FFFF_FFFF_FFFF then 0 else (tick + timeout) % 0x1_0000_0000_0000_0000
  }

  predicate Passed(tick: nat, due: nat)
  {
    due != 0 && due <= tick
  }

  /** The result of testing a call: satisfied at the lowest signaled index (0 for all of
      them) whenever its condition holds; if not, a timeout if the call's is zero or its
      deadline has passed; otherwise the thread blocks. */
  ghost predicate Tested(objects: map<ObjectId, Header>, tick: nat, call: Call, outcome: Outcome)
  {
    && KnownObjects(objects, call.objects)
    && var met := Signaled(objects, call.objects, call.waitAll);
    && (outcome.Satisfied? <==> met)
    && (outcome.Satisfied? && call.waitAll ==> outcome.index == 0)
    && (outcome.Satisfied? && !call.waitAll ==> IsLowest(objects, call.objects, outcome.index))
    && (outcome == Expired <==> !met && (call.timeout == 0 || Passed(tick, call.deadline)))
    && (outcome == Blocked <==> !met && call.timeout != 0 && !Passed(tick, call.deadline))
  }

  predicate IsLowest(objects: map<ObjectId, Header>, list: seq<ObjectId>, i: nat)
    requires KnownObjects(objects, list)
  {
    i < |list| && objects[list[i]].signal > 0 && forall j :: 0 <= j < i ==> objects[list[j]].signal <= 0
  }

  /** A thread that blocked waits, for the call it made. */
  ghost predicate BlockedIn(s: State, t: ThreadId, call: Call)
  {
    t in s.threads && s.threads[t].state == Waiting && s.threads[t].call == Some(call)
  }

  lemma TestResult(s: State, call: Call)
    requires Inv(s) && s.current != IDLE && CallOk(s.objects, call)
    ensures s.ready != [] ==> s.ready[0] in s.threads
    ensures var (r, outcome) := TestOrBlock(s, call);
      Tested(s.objects, s.tick, call, outcome) && (outcome == Blocked ==> BlockedIn(r, s.current, call))
  {
    QueueKnown(s);
    if !call.waitAll {
      var i := FirstSignaled(s.objects, call.objects, 0);
      assert i < |call.objects| ==> CanAcquire(s.objects[call.objects[i]]);
    }
    assert forall i :: 0 <= i < |call.objects| ==>
      (CanAcquire(s.objects[call.objects[i]]) <==> s.objects[call.objects[i]].signal > 0);
    if TestOrBlock(s, call).1 == Blocked {
      SleepsOn(s, call);
    }
  }

  /** The thread that blocks is not one that the reschedule can pick. */
  lemma SleepsOn(s: State, call: Call)
    requires Inv(s) && s.current != IDLE && CallOk(s.objects, call)
    ensures s.ready != [] ==> s.ready[0] in s.threads
    ensures BlockedIn(Schedule(FallAsleep(s, call)), s.current, call)
  {
    QueueKnown(s);
    assert Placed(s, s.current);
    assert s.current !in s.ready;
    assert s.ready != [] ==> s.ready[0] in s.ready;
  }

  /** KeWaitForMultipleObjects: an error exactly for no or more than 64 objects; otherwise
      the call is tested. */
  lemma WaitResult(s: State, list: seq<ObjectId>, waitAll: bool, timeout: nat)
    requires Inv(s) && Enabled(s, WaitStep(list, waitAll, timeout))
    ensures var (r, outcome) := Next(s, WaitStep(list, waitAll, timeout));
      var call := Call(list, waitAll, timeout, Due(s.tick, timeout));
      && outcome.Some? && (outcome.value == InvalidParameter <==> |list| == 0 || |list| > 64)
      && (outcome.value != InvalidParameter ==> Tested(s.objects, s.tick, call, outcome.value))
      && (outcome.value == Blocked ==> BlockedIn(r, s.current, call))
  {
    var call := Call(list, waitAll, timeout, Due(s.tick, timeout));
    assert Deadline(s, timeout) == Due(s.tick, timeout);
    if 0 < |list| <= MAXIMUM_WAIT_OBJECTS {
      TestResult(s, call);
    }
  }

  /** A wait that resumes: a timeout if the clock woke it; otherwise its call is tested
      again. Either way the call is over unless the thread blocks. */
  lemma ResumeResult(s: State)
    requires Inv(s) && Enabled(s, ResumeStep)
    ensures var (r, outcome) := Next(s, ResumeStep);
      var th := s.threads[s.current];
      && outcome.Some? && outcome.value != InvalidParameter
      && (th.status == TimedOut ==> outcome.value == Expired)
      && (th.status != TimedOut ==> Tested(s.objects, s.tick, th.call.value, outcome.value))
      && (outcome.value == Blocked ==> BlockedIn(r, s.current, th.call.value))
      && (outcome.value != Blocked ==> s.current in r.threads && r.threads[s.current].call == None)
  {
    QueueKnown(s);
    var th := s.threads[s.current];
    NothingToUnlink(s, s.current, |th.blocks|);
    var back := s.(threads := s.threads[s.current := th.(blocks := [], call := None)]);
    UpdateCurrent(s, th.(blocks := [], call := None));
    if th.status != TimedOut {
      TestResult(back, th.call.value);
    }
  }

  // ------------------------------------------------- what steps do to threads

  /** Some waiting threads were woken with the status, and nothing else happened to any. */
  ghost predicate Woken(before: map<ThreadId, Thread>, after: map<ThreadId, Thread>, status: WaitStatus)
  {
    after.Keys == before.Keys && forall t :: t in before ==> WokenOrSame(before[t], after[t], status)
  }

  predicate WokenOrSame(a: Thread, b: Thread, status: WaitStatus)
  {
    b == a || (a.state == Waiting && b == a.(state := Ready, status := status, deadline := 0))
  }

  lemma {:induction false} SignalWakes(s: State, o: ObjectId)
    requires o in s.objects && WaitersKnown(s)
    ensures Woken(s.threads, SignalObject(s, o).threads, Success)
    decreases |s.objects[o].waiters|
  {
    var waiters := s.objects[o].waiters;
    if waiters != [] {
      var popped := s.(objects := s.objects[o := s.objects[o].(waiters := waiters[1..])]);
      assert forall b :: b in waiters[1..] ==> b in waiters;
      assert waiters[0] in waiters;
      WakeKnown(popped, waiters[0].thread, Success);
      SignalWakes(Wake(popped, waiters[0].thread, Success), o);
    }
  }

  /** The timeout scan wakes those of the list that are due, and nobody else. */
  lemma {:induction false} ScanWakes(s: State, list: seq<ThreadId>)
    requires forall t :: t in list ==> t in s.threads
    ensures Woken(s.threads, ExpireWaits(s, list).threads, TimedOut)
    ensures forall t :: t in s.threads && s.threads[t].state == Waiting ==>
      (ExpireWaits(s, list).threads[t].state != Waiting <==> t in list && Passed(s.tick, s.threads[t].deadline))
    decreases |list|
  {
    if list != [] {
      var n := |list| - 1;
      assert forall t :: t in list <==> t in list[..n] || t == list[n];
      ScanWakes(s, list[..n]);
    }
  }

  /** The thread's call goes on, unless it is the one that returns now. */
  ghost predicate CallGoesOn(s: State, step: Step, t: ThreadId, outcome: Option<Outcome>)
  {
    !(t == s.current && step == ResumeStep && outcome != Some(Blocked))
  }

  /** What one step does to one thread: calls go on until they return; who stops waiting was
      woken by the clock, exactly when due, or else by a signal; the dead stay dead. */
  ghost predicate ThreadStep(s: State, step: Step, r: State, outcome: Option<Outcome>, t: ThreadId)
  {
    t in s.threads && t in r.threads
    && var a, b := s.threads[t], r.threads[t];
    && (a.call.Some? && CallGoesOn(s, step, t, outcome) ==> b.call == a.call)
    && (a.call == None ==> b.call == None || b.state == Waiting)
    && (a.state == Waiting && b.state != Waiting ==> b.status == if step == Tick then TimedOut else Success)
    && (a.state == Waiting && step == Tick ==> (b.state != Waiting <==> Passed(r.tick, a.deadline)))
    && (a.state != Waiting && b.state != Waiting ==> b.status == a.status)
    && (a.state == Terminated ==> b.state == Terminated)
  }

  /** A schedule moves threads between ready and running only. */
  lemma ScheduleThread(s: State, t: ThreadId)
    requires Places(s) && t in s.threads
    ensures s.ready != [] ==> s.ready[0] in s.threads
    ensures var r := Schedule(s);
      && t in r.threads && r.tick == s.tick
      && (r.threads[t].state == Waiting <==> s.threads[t].state == Waiting)
      && (s.threads[t].state == Terminated ==> r.threads[t].state == Terminated)
      && r.threads[t].status == s.threads[t].status && r.threads[t].call == s.threads[t].call
      && r.threads[t].deadline == s.threads[t].deadline
  {
    QueueKnown(s);
    assert Placed(s, t);
    assert s.ready != [] ==> s.ready[0] in s.ready;
    assert s.ready != [] ==> Placed(s, s.ready[0]);
  }

  lemma TestThread(s: State, call: Call, step: Step, t: ThreadId)
    requires Inv(s) && s.current != IDLE && CallOk(s.objects, call) && t in s.threads && step != Tick
    requires s.threads[s.current].call == None
    ensures s.ready != [] ==> s.ready[0] in s.threads
    ensures var (r, outcome) := TestOrBlock(s, call); r.tick == s.tick && ThreadStep(s, step, r, Some(outcome), t)
  {
    QueueKnown(s);
    if TestOrBlock(s, call).1 == Blocked {
      BlockKeepsPlaces(s, call);
      ScheduleThread(FallAsleep(s, call), t);
    }
  }

  lemma BlockKeepsPlaces(s: State, call: Call)
    requires Inv(s) && s.current != IDLE && CallOk(s.objects, call)
    ensures Places(FallAsleep(s, call))
  {
    BlockLinks(s, call);
  }

  lemma ResumeThread(s: State, t: ThreadId)
    requires Inv(s) && Enabled(s, ResumeStep) && t in s.threads
    ensures var (r, outcome) := Next(s, ResumeStep); r.tick == s.tick && ThreadStep(s, ResumeStep, r, outcome, t)
  {
    QueueKnown(s);
    var th := s.threads[s.current];
    NothingToUnlink(s, s.current, |th.blocks|);
    var back := s.(threads := s.threads[s.current := th.(blocks := [], call := None)]);
    UpdateCurrent(s, th.(blocks := [], call := None));
    if th.status != TimedOut {
      TestThread(back, th.call.value, ResumeStep, t);
      if TestOrBlock(back, th.call.value).1 == Blocked {
        SleepsOn(back, th.call.value);
      }
    }
  }

  lemma SignalThread(s: State, o: ObjectId, signal: int, step: Step, t: ThreadId)
    requires Inv(s) && o in s.objects && t in s.threads && step != Tick && step != ResumeStep
    ensures WaitersKnown(SetSignal(s, o, signal))
    ensures var r := SignalObject(SetSignal(s, o, signal), o); r.tick == s.tick && ThreadStep(s, step, r, None, t)
  {
    LinksGiveKnown(s);
    SignalWakes(SetSignal(s, o, signal), o);
    SignalPunctual(SetSignal(s, o, signal), o);
  }

  /** The timeout scan of a tick. */
  lemma ScanThread(s: State, t: ThreadId)
    requires Inv(s) && t in s.threads
    ensures forall u :: u in s.order ==> u in s.threads
    ensures var r := ExpireWaits(Ticked(s), s.order);
      Inv(r) && r.tick == s.tick + 1 && ThreadStep(s, Tick, r, None, t)
  {
    ExpireAll(s);
    ScanWakes(Ticked(s), s.order);
  }

  lemma SpentThread(s: State, t: ThreadId)
    requires Inv(s) && t in s.threads
    ensures s.ready != [] ==> s.ready[0] in s.threads
    ensures var r := SpendQuantum(s);
      && t in r.threads && r.tick == s.tick
      && (r.threads[t].state == Waiting <==> s.threads[t].state == Waiting)
      && (s.threads[t].state == Terminated ==> r.threads[t].state == Terminated)
      && r.threads[t].status == s.threads[t].status && r.threads[t].call == s.threads[t].call
  {
    QueueKnown(s);
    SpentKeeps(s);
    ScheduleThread(Spent(s), t);
  }

  lemma TickThread(s: State, t: ThreadId)
    requires Inv(s) && t in s.threads
    ensures var r := Next(s, Tick).0; r.tick == s.tick + 1 && ThreadStep(s, Tick, r, None, t)
  {
    ScanThread(s, t);
    SpentThread(ExpireWaits(Ticked(s), s.order), t);
  }

  lemma TerminateThread(s: State, termination: Option<ObjectId>, t: ThreadId)
    requires Inv(s) && Enabled(s, Terminate(termination)) && t in s.threads
    ensures var r := Next(s, Terminate(termination)).0;
      && r.tick == s.tick && ThreadStep(s, Terminate(termination), r, None, t)
      && s.current in r.threads && r.threads[s.current].state == Terminated
  {
    LinksGiveKnown(s);
    EndedKeeps(s, termination);
    var dead := s.(threads := s.threads[s.current := s.threads[s.current].(state := Terminated)]);
    if termination.Some? {
      SignalWakes(SetSignal(dead, termination.value, 1), termination.value);
      SignalPunctual(SetSignal(dead, termination.value, 1), termination.value);
    }
    ScheduleThread(Ended(s, termination), t);
    ScheduleThread(Ended(s, termination), s.current);
  }

  lemma StepThread(s: State, step: Step, t: ThreadId)
    requires Inv(s) && Enabled(s, step) && t in s.threads
    ensures var (r, outcome) := Next(s, step);
      && r.tick == s.tick + (if step == Tick then 1 else 0) && ThreadStep(s, step, r, outcome, t)
  {
    match step
    case WaitStep(list, waitAll, timeout) =>
      if 0 < |list| <= MAXIMUM_WAIT_OBJECTS {
        TestThread(s, Call(list, waitAll, timeout, Deadline(s, timeout)), step, t);
      }
    case ResumeStep => ResumeThread(s, t);
    case SetEvent(o) => SignalThread(s, o, 1, step, t);
    case ReleaseSemaphore(o, count) => SignalThread(s, o, Released(s.objects[o], count), step, t);
    case ReleaseMutant(o) => SignalThread(s, o, 1, step, t);
    case Tick => TickThread(s, t);
    case Yield => ScheduleThread(s, t);
    case Terminate(termination) => TerminateThread(s, termination, t);
    case _ =>
  }

  /** A new thread is ready, last in the queue, with a full quantum and outside any wait. */
  lemma CreatedThread(s: State, t: ThreadId)
    requires Inv(s) && Enabled(s, CreateThread(t))
    ensures var r := Next(s, CreateThread(t)).0;
      && t in r.threads && r.threads[t].state == Ready && r.threads[t].call == None
      && r.threads[t].quantum == DEFAULT_QUANTUM && r.ready == s.ready + [t]
      && forall u :: u in s.threads ==> u in r.threads && r.threads[u] == s.threads[u]
  {
  }

  /** A new object has the signal, kind and limit asked for, and nobody waits for it. */
  lemma CreatedObject(s: State, o: ObjectId, kind: Kind, initial: int, limit: int)
    requires Inv(s) && Enabled(s, CreateObject(o, kind, initial, limit))
    ensures var r := Next(s, CreateObject(o, kind, initial, limit)).0;
      && o in r.objects && r.objects[o].kind == kind && r.objects[o].signal == initial
      && r.objects[o].limit == limit && r.objects[o].waiters == []
      && forall x :: x in s.objects ==> x in r.objects && r.objects[x] == s.objects[x]
  {
  }

  /** Whoever is switched to starts with a full quantum; with nobody ready that is the idle
      thread. */
  lemma SwitchedTo(s: State)
    requires Places(s)
    ensures s.ready != [] ==> s.ready[0] in s.threads
    ensures var r := Schedule(s);
      && r.current == (if s.ready == [] then IDLE else s.ready[0]) && r.current in r.threads
      && (r.current != s.current ==> r.threads[r.current].quantum == DEFAULT_QUANTUM)
  {
    QueueKnown(s);
  }

  /** A yield: the head of the queue runs, or the idle thread, and who ran goes to the tail
      unless it is the idle thread. */
  lemma YieldMeaning(s: State)
    requires Inv(s)
    ensures var r := Next(s, Yield).0;
      var rest := if s.ready == [] then [] else s.ready[1..];
      && r.current == (if s.ready == [] then IDLE else s.ready[0])
      && r.ready == rest + if s.current == IDLE then [] else [s.current]
  {
    QueueKnown(s);
  }

  lemma SpendSwitches(s: State)
    requires Places(s)
    ensures s.ready != [] ==> s.ready[0] in s.threads
    ensures var r := SpendQuantum(s);
      && (s.threads[s.current].quantum > 1 ==> r.current == s.current)
      && (r.current != s.current ==> r.current in r.threads && r.threads[r.current].quantum == DEFAULT_QUANTUM)
  {
    QueueKnown(s);
  }

  lemma ScanCurrent(s: State)
    requires Inv(s)
    ensures forall u :: u in s.order ==> u in s.threads
    ensures var r := ExpireWaits(Ticked(s), s.order);
      Places(r) && r.current == s.current && r.threads[s.current] == s.threads[s.current]
  {
    ExpireAll(s);
    ExpireAppends(Ticked(s), s.order);
  }

  /** A tick takes the processor from the running thread only at the end of its quantum. */
  lemma TickSwitches(s: State)
    requires Inv(s)
    ensures var r := Next(s, Tick).0;
      && (s.threads[s.current].quantum > 1 ==> r.current == s.current)
      && (r.current != s.current ==> r.current in r.threads && r.threads[r.current].quantum == DEFAULT_QUANTUM)
  {
    ScanCurrent(s);
    SpendSwitches(ExpireWaits(Ticked(s), s.order));
  }

  // ----------------------------------------------------------- whole runs

  /** A thread that was woken by the clock was due, and one that is to resume was woken. */
  ghost predicate WokenRightly(s: State)
  {
    forall t :: t in s.threads && s.threads[t].call.Some? && s.threads[t].state != Waiting ==>
      && s.threads[t].status != Pending
      && (s.threads[t].status == TimedOut ==> Passed(s.tick, s.threads[t].call.value.deadline))
  }

  lemma SpendKeys(s: State)
    requires Places(s)
    ensures s.ready != [] ==> s.ready[0] in s.threads
    ensures SpendQuantum(s).threads.Keys == s.threads.Keys && Schedule(s).threads.Keys == s.threads.Keys
  {
    QueueKnown(s);
  }

  lemma EndedKeys(s: State, termination: Option<ObjectId>)
    requires Inv(s) && Enabled(s, Terminate(termination))
    ensures WaitersKnown(s) && Ended(s, termination).threads.Keys == s.threads.Keys
  {
    LinksGiveKnown(s);
    if termination.Some? {
      var dead := s.(threads := s.threads[s.current := s.threads[s.current].(state := Terminated)]);
      SignalPunctual(SetSignal(dead, termination.value, 1), termination.value);
    }
  }

  lemma SignalKeys(s: State, o: ObjectId, signal: int)
    requires Inv(s) && o in s.objects
    ensures WaitersKnown(SetSignal(s, o, signal))
    ensures SignalObject(SetSignal(s, o, signal), o).threads.Keys == s.threads.Keys
  {
    LinksGiveKnown(s);
    SignalPunctual(SetSignal(s, o, signal), o);
  }

  lemma TestKeys(s: State, call: Call)
    requires Inv(s) && KnownObjects(s.objects, call.objects)
    ensures s.ready != [] ==> s.ready[0] in s.threads
    ensures TestOrBlock(s, call).0.threads.Keys == s.threads.Keys
  {
    QueueKnown(s);
  }

  lemma ResumeKeys(s: State)
    requires Inv(s) && Enabled(s, ResumeStep)
    ensures Next(s, ResumeStep).0.threads.Keys == s.threads.Keys
  {
    QueueKnown(s);
    var th := s.threads[s.current];
    NothingToUnlink(s, s.current, |th.blocks|);
    UpdateCurrent(s, th.(blocks := [], call := None));
    TestKeys(s.(threads := s.threads[s.current := th.(blocks := [], call := None)]), th.call.value);
  }

  lemma ScanKeys(s: State)
    requires Inv(s)
    ensures forall u :: u in s.order ==> u in s.threads
    ensures var r := ExpireWaits(Ticked(s), s.order); Places(r) && r.threads.Keys == s.threads.Keys
  {
    ExpireAll(s);
  }

  lemma TickKeys(s: State)
    requires Inv(s)
    ensures Next(s, Tick).0.threads.Keys == s.threads.Keys
  {
    ScanKeys(s);
    SpendKeys(ExpireWaits(Ticked(s), s.order));
  }

  lemma TerminateKeys(s: State, termination: Option<ObjectId>)
    requires Inv(s) && Enabled(s, Terminate(termination))
    ensures Next(s, Terminate(termination)).0.threads.Keys == s.threads.Keys
  {
    EndedKeeps(s, termination);
    EndedKeys(s, termination);
    SpendKeys(Ended(s, termination));
  }

  /** Threads come by creation only, and none goes. */
  lemma StepKeys(s: State, step: Step)
    requires Inv(s) && Enabled(s, step)
    ensures Next(s, step).0.threads.Keys == s.threads.Keys + if step.CreateThread? then {step.t} else {}
  {
    match step
    case WaitStep(list, waitAll, timeout) => TestKeys(s, Call(list, waitAll, timeout, Deadline(s, timeout)));
    case ResumeStep => ResumeKeys(s);
    case SetEvent(o) => SignalKeys(s, o, 1);
    case ReleaseSemaphore(o, count) => SignalKeys(s, o, Released(s.objects[o], count));
    case ReleaseMutant(o) => SignalKeys(s, o, 1);
    case Tick => TickKeys(s);
    case Yield => SpendKeys(s);
    case Terminate(termination) => TerminateKeys(s, termination);
    case _ =>
  }

  lemma StepWokenRightly(s: State, step: Step)
    requires Inv(s) && Enabled(s, step) && WokenRightly(s)
    ensures WokenRightly(Next(s, step).0)
  {
    var (r, outcome) := Next(s, step);
    forall t | t in r.threads && r.threads[t].call.Some? && r.threads[t].state != Waiting
      ensures r.threads[t].status != Pending
      ensures r.threads[t].status == TimedOut ==> Passed(r.tick, r.threads[t].call.value.deadline)
    {
      StepKeys(s, step);
      if t in s.threads {
        StepThread(s, step, t);
        CallBefore(s, step, t);
      }
    }
  }

  /** A call that is pending after a step and not waiting was pending before. */
  lemma CallBefore(s: State, step: Step, t: ThreadId)
    requires Inv(s) && Enabled(s, step) && t in s.threads
    ensures var r := Next(s, step).0;
      t in r.threads && r.threads[t].call.Some? && r.threads[t].state != Waiting ==>
        s.threads[t].call == r.threads[t].call
  {
    StepThread(s, step, t);
    if step == ResumeStep && t == s.current {
      ResumeResult(s);
    }
  }

  lemma {:induction false} WokenRightlyAlong(trace: seq<State>, steps: seq<Step>, k: nat)
    requires IsRun(trace, steps) && trace[0] == Boot() && k < |trace|
    ensures Inv(trace[k]) && WokenRightly(trace[k])
  {
    BootInv();
    InvAlong(trace, steps, k);
    if k > 0 {
      WokenRightlyAlong(trace, steps, k - 1);
      assert Follows(trace[k - 1], steps[k - 1], trace[k]);
      StepWokenRightly(trace[k - 1], steps[k - 1]);
    }
  }

  /** The call a step is part of, and what the step returned. */
  ghost function CallOf(s: State, step: Step): Call
    requires Inv(s) && Enabled(s, step) && (step.WaitStep? || step == ResumeStep)
  {
    if step.WaitStep? then Call(step.list, step.waitAll, step.timeout, Due(s.tick, step.timeout))
    else s.threads[s.current].call.value
  }

  /** In every run: a wait returns a timeout only if its timeout is zero or its deadline has
      passed, and is satisfied whenever its condition holds and no deadline has passed. */
  lemma TimeoutsJust(trace: seq<State>, steps: seq<Step>, k: nat)
    requires IsRun(trace, steps) && trace[0] == Boot() && k < |steps|
    requires steps[k] == ResumeStep || (steps[k].WaitStep? && 0 < |steps[k].list| <= 64)
    ensures Inv(trace[k]) && Enabled(trace[k], steps[k])
    ensures var s, call, outcome := trace[k], CallOf(trace[k], steps[k]), Next(trace[k], steps[k]).1;
      && KnownObjects(s.objects, call.objects)
      && (outcome == Some(Expired) ==> call.timeout == 0 || Passed(s.tick, call.deadline))
      && (Signaled(s.objects, call.objects, call.waitAll) && !Passed(s.tick, call.deadline) ==>
            outcome.Some? && outcome.value.Satisfied?)
  {
    WokenRightlyAlong(trace, steps, k);
    assert Follows(trace[k], steps[k], trace[k + 1]);
    if steps[k].WaitStep? {
      WaitResult(trace[k], steps[k].list, steps[k].waitAll, steps[k].timeout);
    } else {
      ResumeResult(trace[k]);
    }
  }

  /** The clock counts ticks. */
  lemma {:induction false} TickCount(trace: seq<State>, steps: seq<Step>, k: nat)
    requires IsRun(trace, steps) && Inv(trace[0]) && k < |trace|
    ensures trace[k].tick == trace[0].tick + Ticks(steps[..k])
  {
    if k > 0 {
      TickCount(trace, steps, k - 1);
      InvAlong(trace, steps, k - 1);
      assert Follows(trace[k - 1], steps[k - 1], trace[k]);
      StepThread(trace[k - 1], steps[k - 1], trace[k - 1].current);
      assert steps[..k][..k - 1] == steps[..k - 1];
    }
  }

  /** Step l is the return of thread t's call. */
  ghost predicate ReturnsAt(trace: seq<State>, steps: seq<Step>, l: nat, t: ThreadId)
    requires l < |steps| && |trace| == |steps| + 1
  {
    Inv(trace[l]) && Enabled(trace[l], steps[l]) && !CallGoesOn(trace[l], steps[l], t, Next(trace[l], steps[l]).1)
  }

  /** A call goes on, unchanged, until it returns. */
  lemma {:induction false} CallAlong(trace: seq<State>, steps: seq<Step>, j: nat, k: nat, t: ThreadId)
    requires IsRun(trace, steps) && Inv(trace[0]) && j <= k < |trace|
    requires t in trace[j].threads && trace[j].threads[t].call.Some?
    requires forall l :: j <= l < k ==> !ReturnsAt(trace, steps, l, t)
    ensures t in trace[k].threads && trace[k].threads[t].call == trace[j].threads[t].call
  {
    if j < k {
      CallAlong(trace, steps, j, k - 1, t);
      InvAlong(trace, steps, k - 1);
      assert Follows(trace[k - 1], steps[k - 1], trace[k]) && !ReturnsAt(trace, steps, k - 1, t);
      StepThread(trace[k - 1], steps[k - 1], t);
    }
  }

  /** A wait of `timeout` ticks, finite and short of the end of the 64-bit clock, is no
      longer asleep once that many ticks have passed. */
  lemma AwakeInTime(trace: seq<State>, steps: seq<Step>, j: nat, k: nat, t: ThreadId)
    requires IsRun(trace, steps) && Inv(trace[0]) && j < k < |trace|
    requires BlocksAt(trace, steps, j, t) && trace[j].tick + steps[j].timeout < 0x1_0000_0000_0000_0000 - 1
    requires forall l :: j < l < k ==> !ReturnsAt(trace, steps, l, t)
    ensures t in trace[k].threads
    ensures Ticks(steps[..k]) - Ticks(steps[..j]) >= steps[j].timeout ==> trace[k].threads[t].state != Waiting
  {
    BlockedCall(trace, steps, j, t);
    CallAlong(trace, steps, j + 1, k, t);
    InvAlong(trace, steps, k);
    TicksBetween(trace, steps, j, k);
    DueMeaning(trace[j].tick, steps[j].timeout);
    AsleepBeforeDue(trace[k], t, trace[j].tick + steps[j].timeout);
  }

  lemma TicksBetween(trace: seq<State>, steps: seq<Step>, j: nat, k: nat)
    requires IsRun(trace, steps) && Inv(trace[0]) && j < k < |trace|
    ensures trace[k].tick - trace[j].tick == Ticks(steps[..k]) - Ticks(steps[..j])
  {
    TickCount(trace, steps, j);
    TickCount(trace, steps, k);
  }

  /** Step j is a wait that blocks thread t. */
  ghost predicate BlocksAt(trace: seq<State>, steps: seq<Step>, j: nat, t: ThreadId)
    requires j < |steps| && |trace| == |steps| + 1
  {
    && steps[j].WaitStep? && Inv(trace[j]) && Enabled(trace[j], steps[j]) && t == trace[j].current
    && Next(trace[j], steps[j]).1 == Some(Blocked)
  }

  lemma BlockedCall(trace: seq<State>, steps: seq<Step>, j: nat, t: ThreadId)
    requires IsRun(trace, steps) && j < |steps| && BlocksAt(trace, steps, j, t)
    ensures BlockedIn(trace[j + 1], t, Call(steps[j].list, steps[j].waitAll, steps[j].timeout,
                                            Due(trace[j].tick, steps[j].timeout)))
    ensures steps[j].timeout > 0
  {
    assert Follows(trace[j], steps[j], trace[j + 1]);
    WaitResult(trace[j], steps[j].list, steps[j].waitAll, steps[j].timeout);
  }

  lemma DueMeaning(tick: nat, timeout: nat)
    requires tick + timeout < 0x1_0000_0000_0000_0000 - 1
    ensures Due(tick, timeout) == tick + timeout
  {
  }

  /** Besides the all-ones timeout, exactly one per tick never falls due: the sum that wraps
      to zero. */
  lemma NeverDue(tick: nat, timeout: nat)
    requires timeout < 0x1_0000_0000_0000_0000
    ensures Due(tick, timeout) == 0 <==>
            timeout == 0xFFFF_FFFF_FFFF_FFFF || (tick + timeout) % 0x1_0000_0000_0000_0000 == 0
  {
  }

  lemma AsleepBeforeDue(s: State, t: ThreadId, due: nat)
    requires Inv(s) && t in s.threads && s.threads[t].call.Some? && s.threads[t].call.value.deadline == due > 0
    ensures s.threads[t].state == Waiting ==> s.tick < due
  {
  }

  /** The dead do not come back. */
  lemma {:induction false} DeadStayDead(trace: seq<State>, steps: seq<Step>, j: nat, k: nat, t: ThreadId)
    requires IsRun(trace, steps) && Inv(trace[0]) && j < k < |trace|
    requires steps[j].Terminate? && t == trace[j].current
    ensures Dead(trace[k], t)
  {
    InvAlong(trace, steps, k - 1);
    assert Follows(trace[k - 1], steps[k - 1], trace[k]);
    if j == k - 1 {
      TerminateThread(trace[j], steps[j].termination, t);
    } else {
      DeadStayDead(trace, steps, j, k - 1, t);
      StepThread(trace[k - 1], steps[k - 1], t);
    }
    StepKeeps(trace[k - 1], steps[k - 1]);
  }

  /** Dead, and not running. */
  ghost predicate Dead(s: State, t: ThreadId)
  {
    t in s.threads && s.threads[t].state == Terminated && s.current != t
  }
}

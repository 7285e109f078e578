/** Whole runs of the wait protocol: safety at every reachable state, how long a ready
    thread can be passed over, and where every unit of signal went. */
module DispatcherRuns {
  import opened Dispatcher
  import opened Prelude
  import opened WaitProtocol

  // ------------------------------------------------------------------- runs

  /** One step of a run: enabled, and leading where Next says. */
  ghost predicate Follows(s: State, step: Step, r: State)
  {
    Inv(s) ==> Enabled(s, step) && r == Next(s, step).0
  }

  /** The states a list of steps goes through. */
  ghost predicate IsRun(trace: seq<State>, steps: seq<Step>)
  {
    |trace| == |steps| + 1 && forall i :: 0 <= i < |steps| ==> Follows(trace[i], steps[i], trace[i + 1])
  }

  /** KeInitializeScheduler: the boot context becomes the idle thread. */
  function Boot(): State
  {
    State(map[], map[IDLE := Thread(Running, 0, [], Pending, 0, None)], [], IDLE, 0, [IDLE])
  }

  lemma BootInv()
    ensures Inv(Boot())
  {
  }

  lemma {:induction false} InvAlong(trace: seq<State>, steps: seq<Step>, i: nat)
    requires IsRun(trace, steps) && Inv(trace[0]) && i < |trace|
    ensures Inv(trace[i])
  {
    if i > 0 {
      InvAlong(trace, steps, i - 1);
      assert Follows(trace[i - 1], steps[i - 1], trace[i]);
      StepKeeps(trace[i - 1], steps[i - 1]);
    }
  }

  /** In every state any run reaches: a thread that waits waits for something that is not
      the case (no lost wakeup), and before its deadline; each of its blocks is in the
      list of the object it names, once, and lists hold nothing else; and a non-idle
      thread is in exactly one of the four places. */
  lemma NoLostWakeup(trace: seq<State>, steps: seq<Step>)
    requires IsRun(trace, steps) && trace[0] == Boot()
    ensures var s := trace[|steps|];
      && (forall t :: t in s.threads && s.threads[t].state == Waiting ==>
            && s.threads[t].call.Some? && KnownObjects(s.objects, s.threads[t].blocks)
            && s.threads[t].blocks == s.threads[t].call.value.objects
            && (if s.threads[t].call.value.waitAll
                then !AllSignaled(s.objects, s.threads[t].blocks)
                else NoneSignaled(s.objects, s.threads[t].blocks))
            && (s.threads[t].deadline != 0 ==> s.tick < s.threads[t].deadline))
      && (forall o, b {:trigger b in s.objects[o].waiters} :: o in s.objects ==>
            (b in s.objects[o].waiters <==>
             && b.thread in s.threads && s.threads[b.thread].state == Waiting
             && b.slot < |s.threads[b.thread].blocks| && s.threads[b.thread].blocks[b.slot] == o))
      && (forall o :: o in s.objects ==> NoDup(s.objects[o].waiters))
      && NoDup(s.ready)
      && (forall t :: t in s.threads && t != IDLE ==> ExactlyOnePlace(s, t))
  {
    BootInv();
    InvAlong(trace, steps, |steps|);
    var s := trace[|steps|];
    forall t | t in s.threads && s.threads[t].state == Waiting
      ensures s.threads[t].call.Some? && CallOk(s.objects, s.threads[t].call.value)
      ensures s.threads[t].blocks == s.threads[t].call.value.objects && !Met(s.objects, s.threads[t].call.value)
    {
    }
    forall t | t in s.threads && t != IDLE ensures ExactlyOnePlace(s, t) {
      assert Placed(s, t) && Placed(s, s.current);
    }
  }

  function One(b: bool): nat
  {
    if b then 1 else 0
  }

  ghost predicate ExactlyOnePlace(s: State, t: ThreadId)
    requires t in s.threads
  {
    One(t == s.current) + One(t in s.ready) + One(s.threads[t].state == Waiting)
    + One(s.threads[t].state == Terminated) == 1
  }

  // --------------------------------------------------------- bounded bypass

  /** How many times a step calls KiSchedule. */
  ghost function Schedules(s: State, step: Step): nat
    requires Inv(s) && Enabled(s, step)
  {
    match step
    case WaitStep(_, _, _) => if Next(s, step).1 == Some(Blocked) then 1 else 0
    case ResumeStep => if Next(s, step).1 == Some(Blocked) then 1 else 0
    case Tick => if s.threads[s.current].quantum <= 1 then 1 else 0
    case Yield => 1
    case Terminate(_) => 1
    case _ => 0
  }

  ghost predicate Prefix<T>(a: seq<T>, b: seq<T>)
  {
    |a| <= |b| && forall i :: 0 <= i < |a| ==> b[i] == a[i]
  }

  /** The ready queue is FIFO: a step without a reschedule only appends, and one with a
      reschedule takes exactly the head. */
  ghost predicate QueueMoved(s: State, r: State, schedules: nat)
  {
    && (schedules == 0 ==> Prefix(s.ready, r.ready) && r.current == s.current)
    && (schedules == 1 && s.ready != [] ==> r.current == s.ready[0] && Prefix(s.ready[1..], r.ready))
  }

  lemma ScheduleMoves(s: State, mid: State)
    requires Prefix(s.ready, mid.ready)
    requires mid.current in mid.threads && IDLE in mid.threads && (mid.ready != [] ==> mid.ready[0] in mid.threads)
    ensures s.ready != [] ==> Schedule(mid).current == s.ready[0] && Prefix(s.ready[1..], Schedule(mid).ready)
  {
  }

  lemma {:induction false} SignalAppends(s: State, o: ObjectId)
    requires o in s.objects && WaitersKnown(s)
    ensures var r := SignalObject(s, o); Prefix(s.ready, r.ready) && r.current == s.current
    decreases |s.objects[o].waiters|
  {
    var waiters := s.objects[o].waiters;
    if waiters != [] {
      var popped := s.(objects := s.objects[o := s.objects[o].(waiters := waiters[1..])]);
      assert forall b :: b in waiters[1..] ==> b in waiters;
      assert waiters[0] in waiters;
      WakeKnown(popped, waiters[0].thread, Success);
      SignalAppends(Wake(popped, waiters[0].thread, Success), o);
    }
  }

  lemma {:induction false} ExpireAppends(s: State, list: seq<ThreadId>)
    requires forall t :: t in list ==> t in s.threads
    ensures Prefix(s.ready, ExpireWaits(s, list).ready)
    ensures s.current in s.threads && s.threads[s.current].state != Waiting ==>
              ExpireWaits(s, list).threads[s.current] == s.threads[s.current]
    decreases |list|
  {
    if list != [] {
      assert forall t :: t in list[..|list| - 1] ==> t in list;
      ExpireAppends(s, list[..|list| - 1]);
    }
  }

  lemma TickMovesQueue(s: State)
    requires Inv(s)
    ensures QueueMoved(s, Next(s, Tick).0, Schedules(s, Tick))
  {
    ExpireAll(s);
    ExpireAppends(Ticked(s), s.order);
    var expired := ExpireWaits(Ticked(s), s.order);
    QueueKnown(expired);
    if Schedules(s, Tick) == 1 {
      ScheduleMoves(s, Spent(expired));
    }
  }

  lemma TerminateMovesQueue(s: State, termination: Option<ObjectId>)
    requires Inv(s) && Enabled(s, Terminate(termination))
    ensures QueueMoved(s, Next(s, Terminate(termination)).0, 1)
  {
    LinksGiveKnown(s);
    EndedKeeps(s, termination);
    var dead := s.(threads := s.threads[s.current := s.threads[s.current].(state := Terminated)]);
    if termination.Some? {
      SignalAppends(SetSignal(dead, termination.value, 1), termination.value);
    }
    QueueKnown(Ended(s, termination));
    ScheduleMoves(s, Ended(s, termination));
  }

  lemma WaitMovesQueue(s: State, call: Call)
    requires Inv(s) && KnownObjects(s.objects, call.objects)
    ensures s.ready != [] ==> s.ready[0] in s.threads
    ensures var (r, outcome) := TestOrBlock(s, call); QueueMoved(s, r, if outcome == Blocked then 1 else 0)
  {
    QueueKnown(s);
  }

  lemma StepMovesQueue(s: State, step: Step)
    requires Inv(s) && Enabled(s, step)
    ensures QueueMoved(s, Next(s, step).0, Schedules(s, step))
  {
    LinksGiveKnown(s);
    QueueKnown(s);
    match step
    case WaitStep(list, waitAll, timeout) => WaitMovesQueue(s, Call(list, waitAll, timeout, Deadline(s, timeout)));
    case ResumeStep => ResumeMovesQueue(s);
    case SetEvent(o) => SignalAppends(SetSignal(s, o, 1), o);
    case ResetEvent(o) =>
    case ReleaseSemaphore(o, count) => SignalAppends(SetSignal(s, o, Released(s.objects[o], count)), o);
    case ReleaseMutant(o) => SignalAppends(SetSignal(s, o, 1), o);
    case Tick => TickMovesQueue(s);
    case Yield => ScheduleMoves(s, s);
    case CreateThread(t) =>
    case Terminate(termination) => TerminateMovesQueue(s, termination);
    case CreateObject(o, kind, initial, limit) =>
  }

  lemma ResumeMovesQueue(s: State)
    requires Inv(s) && Enabled(s, ResumeStep)
    ensures QueueMoved(s, Next(s, ResumeStep).0, Schedules(s, ResumeStep))
  {
    QueueKnown(s);
    var th := s.threads[s.current];
    NothingToUnlink(s, s.current, |th.blocks|);
    UpdateCurrent(s, th.(blocks := [], call := None));
    WaitMovesQueue(s.(threads := s.threads[s.current := th.(blocks := [], call := None)]), th.call.value);
  }

  lemma PositionMoves(s: State, r: State, n: nat, k: nat)
    requires n <= 1 && QueueMoved(s, r, n) && k < |s.ready|
    ensures if k < n then r.current == s.ready[k] else k - n < |r.ready| && r.ready[k - n] == s.ready[k]
  {
  }

  function Sum(counts: seq<nat>): nat
  {
    if counts == [] then 0 else Sum(counts[..|counts| - 1]) + counts[|counts| - 1]
  }

  lemma SumSnoc(counts: seq<nat>, i: nat)
    requires i < |counts|
    ensures Sum(counts[..i + 1]) == Sum(counts[..i]) + counts[i]
  {
    assert counts[..i + 1][..i] == counts[..i];
  }

  /** counts[i] is the number of reschedules in step i of the run. */
  ghost predicate Counts(trace: seq<State>, steps: seq<Step>, counts: seq<nat>)
    requires |trace| == |steps| + 1
  {
    |counts| == |steps| && forall i :: 0 <= i < |steps| ==> CountsStep(trace[i], steps[i], counts[i])
  }

  ghost predicate CountsStep(s: State, step: Step, count: nat)
  {
    Inv(s) && Enabled(s, step) ==> count == Schedules(s, step)
  }

  ghost predicate QueueRun(trace: seq<State>, counts: seq<nat>)
  {
    |trace| == |counts| + 1
    && forall i :: 0 <= i < |counts| ==> counts[i] <= 1 && QueueMoved(trace[i], trace[i + 1], counts[i])
  }

  lemma RunsAreQueueRuns(trace: seq<State>, steps: seq<Step>, counts: seq<nat>)
    requires IsRun(trace, steps) && Inv(trace[0]) && Counts(trace, steps, counts)
    ensures QueueRun(trace, counts)
  {
    forall i | 0 <= i < |counts| ensures counts[i] <= 1 && QueueMoved(trace[i], trace[i + 1], counts[i]) {
      InvAlong(trace, steps, i);
      assert Follows(trace[i], steps[i], trace[i + 1]) && CountsStep(trace[i], steps[i], counts[i]);
      StepMovesQueue(trace[i], steps[i]);
    }
  }

  lemma {:induction false} PositionAfter(trace: seq<State>, counts: seq<nat>, k: nat, i: nat)
    requires QueueRun(trace, counts) && k < |trace[0].ready| && i <= |counts| && Sum(counts[..i]) <= k
    ensures k - Sum(counts[..i]) < |trace[i].ready|
    ensures trace[i].ready[k - Sum(counts[..i])] == trace[0].ready[k]
  {
    if i > 0 {
      SumSnoc(counts, i - 1);
      PositionAfter(trace, counts, k, i - 1);
      PositionMoves(trace[i - 1], trace[i], counts[i - 1], k - Sum(counts[..i - 1]));
    }
  }

  /** A thread at position k moves up one place per reschedule and is the current thread
      right after the (k+1)-th, whatever else happens in between. */
  lemma BoundedBypass(trace: seq<State>, steps: seq<Step>, counts: seq<nat>, k: nat)
    requires IsRun(trace, steps) && Inv(trace[0]) && Counts(trace, steps, counts)
    requires k < |trace[0].ready|
    ensures forall i {:trigger trace[i].ready} :: 0 <= i <= |steps| && Sum(counts[..i]) <= k ==>
              k - Sum(counts[..i]) < |trace[i].ready| && trace[i].ready[k - Sum(counts[..i])] == trace[0].ready[k]
    ensures forall i {:trigger counts[i]} :: 0 <= i < |steps| && Sum(counts[..i]) == k && counts[i] == 1 ==>
              trace[i + 1].current == trace[0].ready[k]
  {
    RunsAreQueueRuns(trace, steps, counts);
    forall i | 0 <= i <= |steps| && Sum(counts[..i]) <= k
      ensures k - Sum(counts[..i]) < |trace[i].ready| && trace[i].ready[k - Sum(counts[..i])] == trace[0].ready[k]
    {
      PositionAfter(trace, counts, k, i);
    }
    forall i | 0 <= i < |steps| && Sum(counts[..i]) == k && counts[i] == 1
      ensures trace[i + 1].current == trace[0].ready[k]
    {
      PositionAfter(trace, counts, k, i);
      PositionMoves(trace[i], trace[i + 1], counts[i], 0);
    }
  }

  /** Ticks left before the running thread's quantum forces a reschedule. */
  ghost function Patience(s: State): int
    requires s.current in s.threads
  {
    if s.threads[s.current].quantum > 1 then s.threads[s.current].quantum else 1
  }

  lemma StepSpendsPatience(s: State, step: Step)
    requires Inv(s) && Enabled(s, step)
    ensures Inv(Next(s, step).0)
    ensures var r := Next(s, step).0;
            2 * Schedules(s, step) - Patience(r) >= (if step == Tick then 1 else 0) - Patience(s)
  {
    StepKeeps(s, step);
    var r := Next(s, step).0;
    assert Placed(r, r.current) && Placed(s, s.current);
    if Schedules(s, step) == 0 {
      QuantumKept(s, step);
    }
  }

  lemma QuantumKept(s: State, step: Step)
    requires Inv(s) && Enabled(s, step) && Schedules(s, step) == 0
    ensures s.current in Next(s, step).0.threads && Next(s, step).0.current == s.current
    ensures Next(s, step).0.threads[s.current].quantum
         == s.threads[s.current].quantum - (if step == Tick then 1 else 0)
  {
    LinksGiveKnown(s);
    QueueKnown(s);
    StepMovesQueue(s, step);
    match step
    case SetEvent(o) => SignalStepFrame(s, o, 1);
    case ReleaseSemaphore(o, count) => SignalStepFrame(s, o, Released(s.objects[o], count));
    case ReleaseMutant(o) => SignalStepFrame(s, o, 1);
    case Tick =>
      ExpireAll(s);
      ExpireAppends(Ticked(s), s.order);
      QueueKnown(ExpireWaits(Ticked(s), s.order));
    case _ =>
  }

  lemma SignalStepFrame(s: State, o: ObjectId, signal: int)
    requires Inv(s) && o in s.objects
    ensures WaitersKnown(SetSignal(s, o, signal))
    ensures SignalObject(SetSignal(s, o, signal), o).current == s.current
    ensures s.current in SignalObject(SetSignal(s, o, signal), o).threads
    ensures SignalObject(SetSignal(s, o, signal), o).threads[s.current] == s.threads[s.current]
  {
    LinksGiveKnown(s);
    RaiseKeeps(s, o, signal);
    SignalKeeps(SetSignal(s, o, signal), o);
  }

  function Ticks(steps: seq<Step>): nat
  {
    if steps == [] then 0 else Ticks(steps[..|steps| - 1]) + One(steps[|steps| - 1] == Tick)
  }

  lemma {:induction false} TicksForceSchedules(trace: seq<State>, steps: seq<Step>, counts: seq<nat>, i: nat)
    requires IsRun(trace, steps) && Inv(trace[0]) && Counts(trace, steps, counts) && i <= |steps|
    ensures trace[0].current in trace[0].threads && trace[i].current in trace[i].threads
    ensures 2 * Sum(counts[..i]) - Patience(trace[i]) >= Ticks(steps[..i]) - Patience(trace[0])
  {
    InvAlong(trace, steps, i);
    if i > 0 {
      TicksForceSchedules(trace, steps, counts, i - 1);
      InvAlong(trace, steps, i - 1);
      assert Follows(trace[i - 1], steps[i - 1], trace[i]) && CountsStep(trace[i - 1], steps[i - 1], counts[i - 1]);
      StepSpendsPatience(trace[i - 1], steps[i - 1]);
      SumSnoc(counts, i - 1);
      assert steps[..i][..i - 1] == steps[..i - 1];
    }
  }

  lemma {:induction false} SumReaches(counts: seq<nat>, k: nat, n: nat)
    requires forall i :: 0 <= i < |counts| ==> counts[i] <= 1
    requires n <= |counts| && Sum(counts[..n]) > k
    ensures exists i :: 0 <= i < n && Sum(counts[..i]) == k && counts[i] == 1
  {
    if n > 0 {
      SumSnoc(counts, n - 1);
      if Sum(counts[..n - 1]) > k {
        SumReaches(counts, k, n - 1);
      } else {
        assert Sum(counts[..n - 1]) == k && counts[n - 1] == 1;
      }
    }
  }

  /** Hence a thread at position k has run by the time 2(k+1) clock ticks have passed. */
  lemma BypassInTicks(trace: seq<State>, steps: seq<Step>, counts: seq<nat>, k: nat)
    requires IsRun(trace, steps) && Inv(trace[0]) && Counts(trace, steps, counts)
    requires k < |trace[0].ready| && Ticks(steps) >= 2 * (k + 1)
    ensures exists i :: 0 <= i < |steps| && Sum(counts[..i]) == k && counts[i] == 1
                        && trace[i + 1].current == trace[0].ready[k]
  {
    TicksForceSchedules(trace, steps, counts, |steps|);
    assert steps[..|steps|] == steps;
    InvAlong(trace, steps, |steps|);
    assert Placed(trace[0], trace[0].current) && Placed(trace[|steps|], trace[|steps|].current);
    RunsAreQueueRuns(trace, steps, counts);
    SumReaches(counts, k, |steps|);
    BoundedBypass(trace, steps, counts, k);
  }
}

/** Where every unit of signal goes: what a satisfied wait consumes, what a release adds,
    and the books over whole runs. */
module SignalAccounting {
  import opened Dispatcher
  import opened Prelude
  import opened WaitProtocol
  import opened DispatcherRuns

  function Multiplicity(o: ObjectId, list: seq<ObjectId>): nat
  {
    if list == [] then 0 else Multiplicity(o, list[..|list| - 1]) + One(list[|list| - 1] == o)
  }

  lemma {:induction false} MultiplicityMeaning(o: ObjectId, list: seq<ObjectId>)
    ensures Multiplicity(o, list) == 0 <==> o !in list
    ensures NoDup(list) && o in list ==> Multiplicity(o, list) == 1
  {
    if list != [] {
      var n := |list| - 1;
      MultiplicityMeaning(o, list[..n]);
      assert o in list <==> o in list[..n] || o == list[n];
    }
  }

  predicate Counted(kind: Kind)
  {
    kind == Semaphore || kind == Mutant
  }

  /** Consuming a list takes one unit per mention from a counted object, empties an
      auto-reset event that is mentioned, and leaves the rest alone. */
  lemma {:induction false} ConsumeEachExactly(objects: map<ObjectId, Header>, list: seq<ObjectId>, o: ObjectId)
    requires KnownObjects(objects, list) && o in objects
    ensures ConsumeEach(objects, list)[o].signal
         == if Counted(objects[o].kind) then objects[o].signal - Multiplicity(o, list)
            else if objects[o].kind == SynchronizationEvent && Multiplicity(o, list) > 0 then 0
            else objects[o].signal
    ensures ConsumeEach(objects, list)[o] == objects[o].(signal := ConsumeEach(objects, list)[o].signal)
    decreases |list|
  {
    if list != [] {
      ConsumeEachExactly(objects, list[..|list| - 1], o);
    }
  }

  /** A wait is satisfied exactly when its condition holds. Wait-any then consumes the
      lowest signaled index and nothing else; wait-all over distinct objects consumes
      every object once and nothing else. A wait that is not satisfied consumes nothing,
      since TryAcquire then returns no new objects. */
  lemma AcquireMeaning(objects: map<ObjectId, Header>, call: Call)
    requires KnownObjects(objects, call.objects)
    ensures var r := TryAcquire(objects, call);
      && (r.Some? <==> Met(objects, call))
      && (r.Some? && !call.waitAll ==>
            var i := r.value.1;
            i < |call.objects| && CanAcquire(objects[call.objects[i]])
            && (forall j :: 0 <= j < i ==> !CanAcquire(objects[call.objects[j]]))
            && r.value.0 == objects[call.objects[i] := Consume(objects[call.objects[i]])])
      && (r.Some? && call.waitAll && NoDup(call.objects) ==>
            forall o :: o in objects ==>
              r.value.0[o] == if o in call.objects then Consume(objects[o]) else objects[o])
  {
    if call.waitAll && AllSignaled(objects, call.objects) {
      forall o | o in objects && NoDup(call.objects)
        ensures ConsumeEach(objects, call.objects)[o]
             == if o in call.objects then Consume(objects[o]) else objects[o]
      {
        ConsumeEachExactly(objects, call.objects, o);
        MultiplicityMeaning(o, call.objects);
      }
    }
  }

  // ------------------------------------------------------------------ range

  ghost predicate InRange(h: Header)
  {
    if h.kind == Semaphore then 0 <= h.signal <= h.limit && h.limit > 0 else 0 <= h.signal <= 1
  }

  ghost predicate AllInRange(objects: map<ObjectId, Header>)
  {
    forall o :: o in objects ==> InRange(objects[o])
  }

  /** A wait-all keeps every signal in range exactly when no counted object is listed more
      often than it is signaled; the code does not reject such lists. */
  lemma WaitAllRange(objects: map<ObjectId, Header>, list: seq<ObjectId>)
    requires KnownObjects(objects, list) && AllInRange(objects) && AllSignaled(objects, list)
    ensures AllInRange(ConsumeEach(objects, list)) <==>
            forall o :: o in objects && Counted(objects[o].kind) ==> Multiplicity(o, list) <= objects[o].signal
  {
    forall o | o in objects
      ensures InRange(ConsumeEach(objects, list)[o]) <==>
              (Counted(objects[o].kind) ==> Multiplicity(o, list) <= objects[o].signal)
    {
      assert InRange(objects[o]);
      ConsumeEachExactly(objects, list, o);
    }
    assert forall o :: o in objects <==> o in ConsumeEach(objects, list);
  }

  /** The failing case: one permit, listed twice, is taken twice. */
  lemma DuplicateWaitAll()
    ensures var objects := map[7 := Header(Semaphore, 1, 1, [])];
            var call := Call([7, 7], true, INFINITE, 0);
            TryAcquire(objects, call).Some? && TryAcquire(objects, call).value.0[7].signal == -1
  {
    var objects := map[7 := Header(Semaphore, 1, 1, [])];
    ConsumeEachExactly(objects, [7, 7], 7);
    assert [7, 7][..1] == [7] && [7][..0] == [];
    assert Multiplicity(7, [7]) == 1;
    assert Multiplicity(7, [7, 7]) == 2;
  }

  // ------------------------------------------------------- signals in a step

  /** No bookkeeping of queues and threads touches signals, kinds or limits. */
  ghost predicate SameSignals(a: map<ObjectId, Header>, b: map<ObjectId, Header>)
  {
    a.Keys == b.Keys && forall o :: o in a ==> b[o] == a[o].(waiters := b[o].waiters)
  }

  lemma WakeSame(s: State, t: ThreadId, status: WaitStatus)
    requires t in s.threads
    ensures SameSignals(s.objects, Wake(s, t, status).objects)
  {
  }

  lemma SameTwice(a: map<ObjectId, Header>, b: map<ObjectId, Header>, c: map<ObjectId, Header>)
    requires SameSignals(a, b) && SameSignals(b, c)
    ensures SameSignals(a, c)
  {
  }

  lemma {:induction false} SignalSame(s: State, o: ObjectId)
    requires o in s.objects && WaitersKnown(s)
    ensures SameSignals(s.objects, SignalObject(s, o).objects)
    decreases |s.objects[o].waiters|
  {
    var waiters := s.objects[o].waiters;
    if waiters != [] {
      var popped := s.(objects := s.objects[o := s.objects[o].(waiters := waiters[1..])]);
      assert forall b :: b in waiters[1..] ==> b in waiters;
      assert waiters[0] in waiters;
      WakeKnown(popped, waiters[0].thread, Success);
      var woken := Wake(popped, waiters[0].thread, Success);
      WakeSame(popped, waiters[0].thread, Success);
      SignalSame(woken, o);
      SameTwice(s.objects, popped.objects, woken.objects);
      SameTwice(s.objects, woken.objects, SignalObject(woken, o).objects);
    }
  }

  lemma {:induction false} ExpireSame(s: State, list: seq<ThreadId>)
    requires forall t :: t in list ==> t in s.threads
    ensures SameSignals(s.objects, ExpireWaits(s, list).objects)
    decreases |list|
  {
    if list != [] {
      assert forall t :: t in list[..|list| - 1] ==> t in list;
      ExpireSame(s, list[..|list| - 1]);
    }
  }

  lemma {:induction false} EnlistSame(objects: map<ObjectId, Header>, t: ThreadId, list: seq<ObjectId>)
    requires KnownObjects(objects, list)
    ensures SameSignals(objects, Enlist(objects, t, list))
    decreases |list|
  {
    if list != [] {
      EnlistSame(objects, t, list[..|list| - 1]);
    }
  }

  /** What a step does to signals: nothing, set one object's, satisfy a wait (at the index
      the wait returns), or create an object. */
  datatype Effect = Quiet | Raised(o: ObjectId, signal: int) | Acquired(call: Call, index: nat) | Created

  ghost function WaitEffect(outcome: Outcome, call: Call): Effect
  {
    match outcome
    case Satisfied(i) => Acquired(call, i)
    case _ => Quiet
  }

  ghost function EffectOf(s: State, step: Step): Effect
    requires Inv(s) && Enabled(s, step)
  {
    match step
    case WaitStep(list, waitAll, timeout) =>
      WaitEffect(Next(s, step).1.value, Call(list, waitAll, timeout, Deadline(s, timeout)))
    case ResumeStep => WaitEffect(Next(s, step).1.value, s.threads[s.current].call.value)
    case SetEvent(o) => Raised(o, 1)
    case ResetEvent(o) => Raised(o, 0)
    case ReleaseSemaphore(o, count) => Raised(o, Released(s.objects[o], count))
    case ReleaseMutant(o) => Raised(o, 1)
    case Terminate(termination) => if termination.Some? then Raised(termination.value, 1) else Quiet
    case CreateObject(_, _, _, _) => Created
    case _ => Quiet
  }

  /** The signals after a step with the given effect. */
  ghost predicate Effected(before: map<ObjectId, Header>, after: map<ObjectId, Header>, effect: Effect)
  {
    match effect
    case Quiet => SameSignals(before, after)
    case Raised(o, signal) => o in before && SameSignals(before[o := before[o].(signal := signal)], after)
    case Acquired(call, index) =>
      KnownObjects(before, call.objects) && TryAcquire(before, call).Some?
      && TryAcquire(before, call).value.1 == index
      && SameSignals(TryAcquire(before, call).value.0, after)
    case Created => forall o :: o in before ==> o in after && after[o] == before[o]
  }

  lemma TestOrBlockEffect(s: State, call: Call)
    requires Inv(s) && KnownObjects(s.objects, call.objects)
    ensures s.ready != [] ==> s.ready[0] in s.threads
    ensures Effected(s.objects, TestOrBlock(s, call).0.objects, WaitEffect(TestOrBlock(s, call).1, call))
  {
    QueueKnown(s);
    EnlistSame(s.objects, s.current, call.objects);
  }

  lemma ResumeEffect(s: State)
    requires Inv(s) && Enabled(s, ResumeStep)
    ensures Effected(s.objects, Next(s, ResumeStep).0.objects, EffectOf(s, ResumeStep))
  {
    QueueKnown(s);
    var th := s.threads[s.current];
    NothingToUnlink(s, s.current, |th.blocks|);
    UpdateCurrent(s, th.(blocks := [], call := None));
    TestOrBlockEffect(s.(threads := s.threads[s.current := th.(blocks := [], call := None)]), th.call.value);
  }

  lemma TickEffect(s: State)
    requires Inv(s)
    ensures SameSignals(s.objects, Next(s, Tick).0.objects)
  {
    ExpireAll(s);
    ExpireSame(Ticked(s), s.order);
    QueueKnown(ExpireWaits(Ticked(s), s.order));
  }

  lemma TerminateEffect(s: State, termination: Option<ObjectId>)
    requires Inv(s) && Enabled(s, Terminate(termination))
    ensures Effected(s.objects, Next(s, Terminate(termination)).0.objects, EffectOf(s, Terminate(termination)))
  {
    LinksGiveKnown(s);
    EndedKeeps(s, termination);
    QueueKnown(Ended(s, termination));
    if termination.Some? {
      var dead := s.(threads := s.threads[s.current := s.threads[s.current].(state := Terminated)]);
      SignalSame(SetSignal(dead, termination.value, 1), termination.value);
    }
  }

  lemma StepEffect(s: State, step: Step)
    requires Inv(s) && Enabled(s, step)
    ensures Effected(s.objects, Next(s, step).0.objects, EffectOf(s, step))
  {
    LinksGiveKnown(s);
    QueueKnown(s);
    match step
    case WaitStep(list, waitAll, timeout) =>
      TestOrBlockEffect(s, Call(list, waitAll, timeout, Deadline(s, timeout)));
    case ResumeStep => ResumeEffect(s);
    case SetEvent(o) => SignalSame(SetSignal(s, o, 1), o);
    case ReleaseSemaphore(o, count) => SignalSame(SetSignal(s, o, Released(s.objects[o], count)), o);
    case ReleaseMutant(o) => SignalSame(SetSignal(s, o, 1), o);
    case Tick => TickEffect(s);
    case Terminate(termination) => TerminateEffect(s, termination);
    case _ =>
  }

  // ------------------------------------------------------------------ books

  /** Units of `o` added by a step. */
  ghost function Added(before: map<ObjectId, Header>, effect: Effect, o: ObjectId): int
    requires o in before
  {
    if effect.Raised? && effect.o == o then effect.signal - before[o].signal else 0
  }

  /** Mentions of `o` that a step's satisfied wait consumes. */
  ghost function Taken(effect: Effect, o: ObjectId): nat
  {
    match effect
    case Acquired(call, index) =>
      if call.waitAll then Multiplicity(o, call.objects)
      else One(index < |call.objects| && call.objects[index] == o)
    case _ => 0
  }

  /** Only a release adds to a semaphore, and it adds its count as far as the limit allows. */
  lemma ReleaseAdds(s: State, step: Step, o: ObjectId)
    requires Inv(s) && Enabled(s, step) && o in s.objects && s.objects[o].kind == Semaphore
    ensures Added(s.objects, EffectOf(s, step), o) != 0 ==> step.ReleaseSemaphore? && step.o == o
    ensures step.ReleaseSemaphore? && step.o == o
            && 0 < s.objects[o].limit && s.objects[o].signal <= s.objects[o].limit ==>
              var room := s.objects[o].limit - s.objects[o].signal;
              Added(s.objects, EffectOf(s, step), o) == if step.count <= room then step.count else room
  {
  }

  /** What one effect does to one object. */
  lemma EffectOnObject(before: map<ObjectId, Header>, after: map<ObjectId, Header>, effect: Effect, o: ObjectId)
    requires Effected(before, after, effect) && o in before
    ensures o in after && after[o].kind == before[o].kind && after[o].limit == before[o].limit
    ensures Counted(before[o].kind) ==>
              after[o].signal == before[o].signal + Added(before, effect, o) - Taken(effect, o)
    ensures before[o].kind == SynchronizationEvent ==>
              if Taken(effect, o) > 0 then before[o].signal > 0 && after[o].signal == 0
              else after[o].signal == before[o].signal + Added(before, effect, o)
    ensures !Counted(before[o].kind) && before[o].kind != SynchronizationEvent ==>
              after[o].signal == before[o].signal + Added(before, effect, o)
  {
    match effect
    case Acquired(call, index) =>
      AcquireMeaning(before, call);
      if call.waitAll {
        ConsumeEachExactly(before, call.objects, o);
        MultiplicityMeaning(o, call.objects);
        if o in call.objects {
          var i :| 0 <= i < |call.objects| && call.objects[i] == o;
          assert CanAcquire(before[call.objects[i]]);
        }
      }
    case _ =>
  }

  // ----------------------------------------------------------- over a run

  /** effects[i] is what step i of the run did to signals. */
  ghost predicate Recorded(trace: seq<State>, steps: seq<Step>, effects: seq<Effect>)
    requires |trace| == |steps| + 1
  {
    |effects| == |steps| && forall i :: 0 <= i < |steps| ==> RecordedStep(trace[i], steps[i], effects[i])
  }

  ghost predicate RecordedStep(s: State, step: Step, effect: Effect)
  {
    Inv(s) && Enabled(s, step) ==> effect == EffectOf(s, step)
  }

  lemma EffectAlong(trace: seq<State>, steps: seq<Step>, effects: seq<Effect>, i: nat)
    requires IsRun(trace, steps) && Inv(trace[0]) && Recorded(trace, steps, effects) && i < |steps|
    ensures Effected(trace[i].objects, trace[i + 1].objects, effects[i])
  {
    InvAlong(trace, steps, i);
    assert Follows(trace[i], steps[i], trace[i + 1]) && RecordedStep(trace[i], steps[i], effects[i]);
    StepEffect(trace[i], steps[i]);
  }

  ghost function TotalAdded(trace: seq<State>, effects: seq<Effect>, o: ObjectId, i: nat): int
    requires i <= |effects| && i < |trace|
  {
    if i == 0 then 0
    else TotalAdded(trace, effects, o, i - 1)
         + if o in trace[i - 1].objects then Added(trace[i - 1].objects, effects[i - 1], o) else 0
  }

  ghost function TotalTaken(effects: seq<Effect>, o: ObjectId, i: nat): nat
    requires i <= |effects|
  {
    if i == 0 then 0 else TotalTaken(effects, o, i - 1) + Taken(effects[i - 1], o)
  }

  /** Conservation: a semaphore holds what it held at the start, plus all that releases
      added, minus one unit for every satisfied wait on it. */
  lemma {:induction false} Conservation(trace: seq<State>, steps: seq<Step>, effects: seq<Effect>, o: ObjectId, i: nat)
    requires IsRun(trace, steps) && Inv(trace[0]) && Recorded(trace, steps, effects) && i <= |steps|
    requires o in trace[0].objects && trace[0].objects[o].kind == Semaphore
    ensures o in trace[i].objects && trace[i].objects[o].kind == Semaphore
    ensures trace[i].objects[o].limit == trace[0].objects[o].limit
    ensures trace[i].objects[o].signal
         == trace[0].objects[o].signal + TotalAdded(trace, effects, o, i) - TotalTaken(effects, o, i)
  {
    if i > 0 {
      Conservation(trace, steps, effects, o, i - 1);
      EffectAlong(trace, steps, effects, i - 1);
      EffectOnObject(trace[i - 1].objects, trace[i].objects, effects[i - 1], o);
    }
  }

  ghost function SetsOf(effects: seq<Effect>, o: ObjectId, i: nat): nat
    requires i <= |effects|
  {
    if i == 0 then 0 else SetsOf(effects, o, i - 1) + One(effects[i - 1] == Raised(o, 1))
  }

  ghost function WaitsSatisfied(effects: seq<Effect>, o: ObjectId, i: nat): nat
    requires i <= |effects|
  {
    if i == 0 then 0 else WaitsSatisfied(effects, o, i - 1) + One(Taken(effects[i - 1], o) > 0)
  }

  /** Each KeSetEvent on an auto-reset event satisfies at most one wait. */
  lemma {:induction false} OneWaitPerSet(trace: seq<State>, steps: seq<Step>, effects: seq<Effect>, o: ObjectId, i: nat)
    requires IsRun(trace, steps) && Inv(trace[0]) && Recorded(trace, steps, effects) && i <= |steps|
    requires o in trace[0].objects && trace[0].objects[o].kind == SynchronizationEvent
    requires 0 <= trace[0].objects[o].signal <= 1
    ensures o in trace[i].objects && trace[i].objects[o].kind == SynchronizationEvent
    ensures 0 <= trace[i].objects[o].signal <= 1
    ensures WaitsSatisfied(effects, o, i) + trace[i].objects[o].signal
         <= trace[0].objects[o].signal + SetsOf(effects, o, i)
  {
    if i > 0 {
      OneWaitPerSet(trace, steps, effects, o, i - 1);
      EffectAlong(trace, steps, effects, i - 1);
      EffectOnObject(trace[i - 1].objects, trace[i].objects, effects[i - 1], o);
      InvAlong(trace, steps, i - 1);
      RaisesToZeroOrOne(trace, steps, effects, i - 1, o);
    }
  }

  lemma RaisesToZeroOrOne(trace: seq<State>, steps: seq<Step>, effects: seq<Effect>, i: nat, o: ObjectId)
    requires IsRun(trace, steps) && Recorded(trace, steps, effects) && i < |steps| && Inv(trace[i])
    requires o in trace[i].objects && trace[i].objects[o].kind != Semaphore
    ensures effects[i].Raised? && effects[i].o == o ==> effects[i].signal == 0 || effects[i].signal == 1
  {
    assert Follows(trace[i], steps[i], trace[i + 1]) && RecordedStep(trace[i], steps[i], effects[i]);
  }

  // --------------------------------------------------- range over whole runs

  /** A satisfied wait-all lists a counted object more often than it is signaled. */
  ghost predicate Overdraws(objects: map<ObjectId, Header>, effect: Effect)
  {
    && effect.Acquired? && effect.call.waitAll
    && exists o :: o in objects && OverdrawsObject(objects, effect.call.objects, o)
  }

  ghost predicate OverdrawsObject(objects: map<ObjectId, Header>, list: seq<ObjectId>, o: ObjectId)
    requires o in objects
  {
    Counted(objects[o].kind) && Multiplicity(o, list) > objects[o].signal
  }

  lemma EffectOnRange(before: map<ObjectId, Header>, after: map<ObjectId, Header>, effect: Effect, o: ObjectId)
    requires Effected(before, after, effect) && AllInRange(before) && !effect.Created? && o in before
    requires effect.Raised? ==> InRange(before[effect.o].(signal := effect.signal))
    ensures o in after
    ensures InRange(after[o]) <==>
            !(effect.Acquired? && effect.call.waitAll && OverdrawsObject(before, effect.call.objects, o))
  {
    assert InRange(before[o]);
    EffectOnObject(before, after, effect, o);
    if effect.Acquired? {
      AcquireMeaning(before, effect.call);
      MultiplicityMeaning(o, effect.call.objects);
    }
  }

  /** An effect other than a creation keeps all signals in range exactly when it is no
      overdraft. */
  lemma EffectRange(before: map<ObjectId, Header>, after: map<ObjectId, Header>, effect: Effect)
    requires Effected(before, after, effect) && AllInRange(before) && !effect.Created?
    requires effect.Raised? ==> InRange(before[effect.o].(signal := effect.signal))
    ensures AllInRange(after) <==> !Overdraws(before, effect)
  {
    assert after.Keys == before.Keys by {
      if effect.Acquired? {
        AcquireMeaning(before, effect.call);
      }
    }
    forall o | o in before
      ensures InRange(after[o]) <==>
              !(effect.Acquired? && effect.call.waitAll && OverdrawsObject(before, effect.call.objects, o))
    {
      EffectOnRange(before, after, effect, o);
    }
  }

  lemma StepRange(s: State, step: Step)
    requires Inv(s) && Enabled(s, step) && AllInRange(s.objects)
    ensures AllInRange(Next(s, step).0.objects) <==> !Overdraws(s.objects, EffectOf(s, step))
  {
    StepEffect(s, step);
    if EffectOf(s, step).Raised? {
      RaisedInRange(s, step);
    }
    if !step.CreateObject? {
      EffectRange(s.objects, Next(s, step).0.objects, EffectOf(s, step));
    }
  }

  /** Step k of the run overdraws. */
  ghost predicate OverdrawsAt(trace: seq<State>, steps: seq<Step>, k: nat)
    requires k < |trace| && k < |steps|
  {
    Inv(trace[k]) && Enabled(trace[k], steps[k]) && Overdraws(trace[k].objects, EffectOf(trace[k], steps[k]))
  }

  lemma {:induction false} RangeAlong(trace: seq<State>, steps: seq<Step>, i: nat)
    requires IsRun(trace, steps) && trace[0] == Boot() && i < |trace|
    requires forall k :: 0 <= k < i ==> !OverdrawsAt(trace, steps, k)
    ensures AllInRange(trace[i].objects)
  {
    if i > 0 {
      BootInv();
      RangeAlong(trace, steps, i - 1);
      InvAlong(trace, steps, i - 1);
      assert Follows(trace[i - 1], steps[i - 1], trace[i]) && !OverdrawsAt(trace, steps, i - 1);
      StepRange(trace[i - 1], steps[i - 1]);
    }
  }

  /** Every signal of every state of a run is in range (a semaphore between zero and its
      limit, everything else zero or one) if and only if no step of it overdraws. */
  lemma RangeExactly(trace: seq<State>, steps: seq<Step>)
    requires IsRun(trace, steps) && trace[0] == Boot()
    ensures (forall i :: 0 <= i < |trace| ==> AllInRange(trace[i].objects))
       <==> (forall k :: 0 <= k < |steps| ==> !OverdrawsAt(trace, steps, k))
  {
    if forall k :: 0 <= k < |steps| ==> !OverdrawsAt(trace, steps, k) {
      forall i | 0 <= i < |trace| ensures AllInRange(trace[i].objects) {
        RangeAlong(trace, steps, i);
      }
    }
    if forall i :: 0 <= i < |trace| ==> AllInRange(trace[i].objects) {
      forall k | 0 <= k < |steps| ensures !OverdrawsAt(trace, steps, k) {
        BootInv();
        InvAlong(trace, steps, k);
        assert AllInRange(trace[k].objects) && AllInRange(trace[k + 1].objects);
        assert Follows(trace[k], steps[k], trace[k + 1]);
        StepRange(trace[k], steps[k]);
      }
    }
  }

  /** Waits that are still pending list no object twice if they want all of them. */
  ghost predicate DistinctCalls(s: State)
  {
    forall t :: t in s.threads && s.threads[t].call.Some? ==> DistinctCall(s.threads[t].call.value)
  }

  predicate DistinctCall(call: Call)
  {
    call.waitAll ==> NoDup(call.objects)
  }

  /** The caller's side: wait-all lists are distinct. */
  predicate DistinctWait(step: Step)
  {
    step.WaitStep? && step.waitAll ==> NoDup(step.list)
  }

  /** Threads keep their pending calls; only a wait can give the running thread one. */
  ghost predicate CallsKept(before: map<ThreadId, Thread>, after: map<ThreadId, Thread>)
  {
    forall t :: t in before ==> t in after && after[t].call == before[t].call
  }

  lemma {:induction false} SignalCalls(s: State, o: ObjectId)
    requires o in s.objects && WaitersKnown(s)
    ensures CallsKept(s.threads, SignalObject(s, o).threads)
    ensures SignalObject(s, o).threads.Keys == s.threads.Keys
    decreases |s.objects[o].waiters|
  {
    var waiters := s.objects[o].waiters;
    if waiters != [] {
      var popped := s.(objects := s.objects[o := s.objects[o].(waiters := waiters[1..])]);
      assert forall b :: b in waiters[1..] ==> b in waiters;
      assert waiters[0] in waiters;
      WakeKnown(popped, waiters[0].thread, Success);
      SignalCalls(Wake(popped, waiters[0].thread, Success), o);
    }
  }

  lemma {:induction false} ExpireCalls(s: State, list: seq<ThreadId>)
    requires forall t :: t in list ==> t in s.threads
    ensures CallsKept(s.threads, ExpireWaits(s, list).threads)
    decreases |list|
  {
    if list != [] {
      assert forall t :: t in list[..|list| - 1] ==> t in list;
      ExpireCalls(s, list[..|list| - 1]);
    }
  }

  lemma TestOrBlockDistinct(s: State, call: Call)
    requires Inv(s) && KnownObjects(s.objects, call.objects) && DistinctCalls(s) && DistinctCall(call)
    ensures s.ready != [] ==> s.ready[0] in s.threads
    ensures DistinctCalls(TestOrBlock(s, call).0)
  {
    QueueKnown(s);
  }

  lemma ScheduleCalls(s: State)
    requires Places(s)
    ensures s.ready != [] ==> s.ready[0] in s.threads
    ensures CallsKept(s.threads, Schedule(s).threads) && Schedule(s).threads.Keys == s.threads.Keys
  {
    QueueKnown(s);
  }

  lemma KeptDistinct(s: State, r: State)
    requires DistinctCalls(s) && CallsKept(s.threads, r.threads) && r.threads.Keys == s.threads.Keys
    ensures DistinctCalls(r)
  {
  }

  lemma SpendCalls(s: State)
    requires Inv(s)
    ensures s.ready != [] ==> s.ready[0] in s.threads
    ensures CallsKept(s.threads, SpendQuantum(s).threads) && SpendQuantum(s).threads.Keys == s.threads.Keys
  {
    SpentKeeps(s);
    ScheduleCalls(Spent(s));
  }

  lemma TickDistinct(s: State)
    requires Inv(s) && DistinctCalls(s)
    ensures DistinctCalls(Next(s, Tick).0)
  {
    ExpireAll(s);
    ExpireCalls(Ticked(s), s.order);
    var expired := ExpireWaits(Ticked(s), s.order);
    KeptDistinct(s, expired);
    SpendCalls(expired);
    KeptDistinct(expired, SpendQuantum(expired));
  }

  lemma TerminateDistinct(s: State, termination: Option<ObjectId>)
    requires Inv(s) && Enabled(s, Terminate(termination)) && DistinctCalls(s)
    ensures DistinctCalls(Next(s, Terminate(termination)).0)
  {
    LinksGiveKnown(s);
    EndedKeeps(s, termination);
    var dead := s.(threads := s.threads[s.current := s.threads[s.current].(state := Terminated)]);
    if termination.Some? {
      SignalCalls(SetSignal(dead, termination.value, 1), termination.value);
    }
    KeptDistinct(s, Ended(s, termination));
    ScheduleCalls(Ended(s, termination));
    KeptDistinct(Ended(s, termination), Schedule(Ended(s, termination)));
  }

  lemma SignalDistinct(s: State, o: ObjectId, signal: int)
    requires Inv(s) && o in s.objects && DistinctCalls(s)
    ensures WaitersKnown(SetSignal(s, o, signal))
    ensures DistinctCalls(SignalObject(SetSignal(s, o, signal), o))
  {
    LinksGiveKnown(s);
    SignalCalls(SetSignal(s, o, signal), o);
  }

  lemma StepDistinct(s: State, step: Step)
    requires Inv(s) && Enabled(s, step) && DistinctCalls(s) && DistinctWait(step)
    ensures DistinctCalls(Next(s, step).0)
    ensures EffectOf(s, step).Acquired? ==> DistinctCall(EffectOf(s, step).call)
  {
    QueueKnown(s);
    match step
    case WaitStep(list, waitAll, timeout) =>
      TestOrBlockDistinct(s, Call(list, waitAll, timeout, Deadline(s, timeout)));
    case ResumeStep =>
      var th := s.threads[s.current];
      NothingToUnlink(s, s.current, |th.blocks|);
      UpdateCurrent(s, th.(blocks := [], call := None));
      TestOrBlockDistinct(s.(threads := s.threads[s.current := th.(blocks := [], call := None)]), th.call.value);
    case SetEvent(o) => SignalDistinct(s, o, 1);
    case ReleaseSemaphore(o, count) => SignalDistinct(s, o, Released(s.objects[o], count));
    case ReleaseMutant(o) => SignalDistinct(s, o, 1);
    case Tick => TickDistinct(s);
    case Yield => ScheduleCalls(s);
    case Terminate(termination) => TerminateDistinct(s, termination);
    case _ =>
  }

  lemma RaisedInRange(s: State, step: Step)
    requires Inv(s) && Enabled(s, step) && AllInRange(s.objects) && EffectOf(s, step).Raised?
    ensures EffectOf(s, step).o in s.objects
    ensures InRange(s.objects[EffectOf(s, step).o].(signal := EffectOf(s, step).signal))
  {
  }

  /** A wait-all of distinct objects does not overdraw. */
  lemma DistinctFits(before: map<ObjectId, Header>, after: map<ObjectId, Header>, effect: Effect)
    requires Effected(before, after, effect) && (effect.Acquired? ==> DistinctCall(effect.call))
    requires AllInRange(before)
    ensures !Overdraws(before, effect)
  {
    if effect.Acquired? && effect.call.waitAll {
      var list := effect.call.objects;
      AcquireMeaning(before, effect.call);
      forall o | o in before ensures !OverdrawsObject(before, list, o) {
        assert InRange(before[o]);
        MultiplicityMeaning(o, list);
        if o in list {
          var i :| 0 <= i < |list| && list[i] == o;
          assert CanAcquire(before[list[i]]);
        }
      }
    }
  }

  /** With distinct wait-alls, every signal of every reachable state is in range: a
      semaphore between zero and its limit, everything else zero or one. */
  lemma {:induction false} SignalsInRange(trace: seq<State>, steps: seq<Step>, i: nat)
    requires IsRun(trace, steps) && trace[0] == Boot() && i < |trace|
    requires forall j :: 0 <= j < |steps| ==> DistinctWait(steps[j])
    ensures AllInRange(trace[i].objects) && DistinctCalls(trace[i])
  {
    if i > 0 {
      BootInv();
      SignalsInRange(trace, steps, i - 1);
      InvAlong(trace, steps, i - 1);
      assert Follows(trace[i - 1], steps[i - 1], trace[i]);
      StepInRange(trace[i - 1], steps[i - 1]);
    }
  }

  lemma StepInRange(s: State, step: Step)
    requires Inv(s) && Enabled(s, step) && AllInRange(s.objects) && DistinctCalls(s) && DistinctWait(step)
    ensures AllInRange(Next(s, step).0.objects) && DistinctCalls(Next(s, step).0)
  {
    StepDistinct(s, step);
    StepEffect(s, step);
    StepRange(s, step);
    DistinctFits(s.objects, Next(s, step).0.objects, EffectOf(s, step));
  }
}

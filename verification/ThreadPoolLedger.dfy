/** Runs of the thread-pool queue counted from outside, by who did what when: every accepted
    submission is linked once, every linked item is taken and called back once, and nobody
    is stuck. */
module ThreadPoolLedger {
  import opened ThreadPool
  import opened Prelude

  /** What can be seen of one step of a run. */
  datatype Event = Accepted(item: ItemId) | Returned(item: ItemId) | Locked | Unlocked | Worked | Released | Passed

  /** The step at this state is such an event. A submission is accepted if the item is not
      submitted already. */
  predicate Happens(s: State, who: nat, a: Action, e: Event)
  {
    match e
    case Accepted(item) => a == Submit(item) && item in s.submitted && !s.submitted[item]
    case Returned(item) => a == CallbackReturns && who < |s.threads| && s.threads[who] == Running(item)
    case Locked => a == Lock
    case Unlocked => a == Unlock
    case Worked => a == Body
    case Released => a == Release
    case Passed => a == PassWait
  }

  function One(b: bool): nat
  {
    if b then 1 else 0
  }

  /** How often an event happened in the first k steps. */
  function Times(trace: seq<State>, actions: seq<(nat, Action)>, e: Event, k: nat): nat
    requires k <= |actions| && k <= |trace|
  {
    if k == 0 then 0
    else Times(trace, actions, e, k - 1) + One(Happens(trace[k - 1], actions[k - 1].0, actions[k - 1].1, e))
  }

  /** Where threads can be: on the way to linking an item, with an item taken and not called
      back, inside the lock, between linking and releasing, between the wait and taking. */
  datatype Stage = Submitting(item: ItemId) | Serving(item: ItemId) | Inside | ToAnnounce | Hungry

  predicate At(pc: Pc, stage: Stage)
  {
    match stage
    case Submitting(item) => pc == Claimed(item) || pc == Linking(item)
    case Serving(item) => pc == Unlinked(Some(item)) || pc == Running(item)
    case Inside => pc.Linking? || pc.LinkedUp? || pc.Unlinking? || pc.Unlinked?
    case ToAnnounce => pc.LinkedUp? || pc.ToRelease?
    case Hungry => pc.Woken? || pc.Unlinking?
  }

  function Threads(threads: seq<Pc>, stage: Stage, n: nat): nat
    requires n <= |threads|
  {
    if n == 0 then 0 else Threads(threads, stage, n - 1) + One(At(threads[n - 1], stage))
  }

  lemma {:induction false} ThreadsUpdate(threads: seq<Pc>, i: nat, pc: Pc, stage: Stage, n: nat)
    requires i < |threads| && n <= |threads|
    ensures Threads(threads[i := pc], stage, n)
         == Threads(threads, stage, n) + if i < n then One(At(pc, stage)) - One(At(threads[i], stage)) else 0
  {
    if n > 0 {
      ThreadsUpdate(threads, i, pc, stage, n - 1);
    }
  }

  function Population(s: State, stage: Stage): nat
  {
    Threads(s.threads, stage, |s.threads|)
  }

  /** What a step adds to a count of events. */
  function Adds(s: State, who: nat, a: Action, e: Event): nat
  {
    One(Happens(s, who, a, e))
  }

  lemma AppendOne(list: seq<ItemId>, x: ItemId, item: ItemId)
    ensures multiset(list + [x])[item] == multiset(list)[item] + One(x == item)
  {
  }

  /** How the acting thread's move changes a stage. */
  lemma Moved(s: State, i: nat, a: Action, stage: Stage)
    requires Inv(s) && Enabled(s, i, a)
    ensures var r := Next(s, i, a);
      && i < |r.threads| == |s.threads|
      && Population(r, stage) == Population(s, stage) + One(At(r.threads[i], stage)) - One(At(s.threads[i], stage))
  {
    var r := Next(s, i, a);
    ThreadsUpdate(s.threads, i, r.threads[i], stage, |s.threads|);
    assert r.threads == s.threads[i := r.threads[i]];
  }

  /** Linking accounts for submissions, item by item. */
  lemma LinkedStep(s: State, i: nat, a: Action, item: ItemId)
    requires Inv(s) && Enabled(s, i, a)
    ensures var r := Next(s, i, a);
      multiset(r.linked)[item] + Population(r, Submitting(item))
      == multiset(s.linked)[item] + Population(s, Submitting(item)) + Adds(s, i, a, Accepted(item))
  {
    Moved(s, i, a, Submitting(item));
    if a == Body {
      if s.threads[i].Linking? {
        AppendOne(s.linked, s.threads[i].item, item);
      }
    }
  }

  /** Callbacks account for what was taken. */
  lemma TakenStep(s: State, i: nat, a: Action, item: ItemId)
    requires Inv(s) && Enabled(s, i, a)
    ensures var r := Next(s, i, a);
      multiset(r.taken)[item] + Population(s, Serving(item))
      == multiset(s.taken)[item] + Population(r, Serving(item)) + Adds(s, i, a, Returned(item))
  {
    Moved(s, i, a, Serving(item));
    if a == Body {
      if s.threads[i] == Unlinking {
        UnlinkQueue(s, i);
        AppendOne(s.taken, s.head.value, item);
      }
    }
  }

  /** Linked items are announced. */
  lemma AnnounceStep(s: State, i: nat, a: Action)
    requires Inv(s) && Enabled(s, i, a)
    ensures var r := Next(s, i, a);
      |r.linked| + Population(s, ToAnnounce) == |s.linked| + Population(r, ToAnnounce) + Adds(s, i, a, Released)
  {
    Moved(s, i, a, ToAnnounce);
  }

  /** Those who pass take one each. */
  lemma PassStep(s: State, i: nat, a: Action)
    requires Inv(s) && Enabled(s, i, a)
    ensures var r := Next(s, i, a);
      |r.taken| + Population(r, Hungry) == |s.taken| + Population(s, Hungry) + Adds(s, i, a, Passed)
  {
    Moved(s, i, a, Hungry);
    if a == Body && s.threads[i] == Unlinking {
      UnlinkQueue(s, i);
    }
  }

  /** Each turn inside the lock links or takes one. */
  lemma WorkStep(s: State, i: nat, a: Action)
    requires Inv(s) && Enabled(s, i, a)
    ensures var r := Next(s, i, a); |r.linked| + |r.taken| == |s.linked| + |s.taken| + Adds(s, i, a, Worked)
  {
    if a == Body && s.threads[i] == Unlinking {
      UnlinkQueue(s, i);
    }
  }

  /** The semaphore is the difference of releases and passes. */
  lemma SemaphoreStep(s: State, i: nat, a: Action)
    requires Inv(s) && Enabled(s, i, a)
    ensures Next(s, i, a).semaphore + Adds(s, i, a, Passed) == s.semaphore + Adds(s, i, a, Released)
  {
    if a == Release {
      ReleaseSucceeds(s, i);
    }
  }

  /** The lock goes in and out. */
  lemma LockStep(s: State, i: nat, a: Action)
    requires Inv(s) && Enabled(s, i, a)
    ensures var r := Next(s, i, a);
      Population(r, Inside) + Adds(s, i, a, Unlocked) == Population(s, Inside) + Adds(s, i, a, Locked)
  {
    Moved(s, i, a, Inside);
  }

  lemma StartEmpty(s: State, stage: Stage, n: nat)
    requires Start(s) && n <= |s.threads|
    ensures Threads(s.threads, stage, n) == 0
  {
    if n > 0 {
      StartEmpty(s, stage, n - 1);
    }
  }

  /** Over a run: the submissions of an item that found it free are its links plus those on
      their way; its callbacks are its takings less those under way. */
  lemma {:induction false} ItemLedger(trace: seq<State>, actions: seq<(nat, Action)>, k: nat, item: ItemId)
    requires IsRun(trace, actions) && Start(trace[0]) && k < |trace|
    ensures Times(trace, actions, Accepted(item), k)
         == multiset(trace[k].linked)[item] + Population(trace[k], Submitting(item))
    ensures multiset(trace[k].taken)[item]
         == Times(trace, actions, Returned(item), k) + Population(trace[k], Serving(item))
  {
    if k == 0 {
      StartEmpty(trace[0], Submitting(item), |trace[0].threads|);
      StartEmpty(trace[0], Serving(item), |trace[0].threads|);
    } else {
      ItemLedger(trace, actions, k - 1, item);
      InvAlong(trace, actions, k - 1);
      LinkedStep(trace[k - 1], actions[k - 1].0, actions[k - 1].1, item);
      TakenStep(trace[k - 1], actions[k - 1].0, actions[k - 1].1, item);
    }
  }

  /** Over a run: what was linked is what was released for plus what is yet to be; whoever
      passed the wait took one or is about to; the semaphore is the releases less the passes. */
  lemma {:induction false} QueueLedger(trace: seq<State>, actions: seq<(nat, Action)>, k: nat)
    requires IsRun(trace, actions) && Start(trace[0]) && k < |trace|
    ensures |trace[k].linked| == Times(trace, actions, Released, k) + Population(trace[k], ToAnnounce)
    ensures |trace[k].taken| + Population(trace[k], Hungry) == Times(trace, actions, Passed, k)
    ensures trace[k].semaphore + Times(trace, actions, Passed, k) == Times(trace, actions, Released, k)
  {
    if k == 0 {
      StartEmpty(trace[0], ToAnnounce, |trace[0].threads|);
      StartEmpty(trace[0], Hungry, |trace[0].threads|);
    } else {
      QueueLedger(trace, actions, k - 1);
      InvAlong(trace, actions, k - 1);
      var s, i, a := trace[k - 1], actions[k - 1].0, actions[k - 1].1;
      AnnounceStep(s, i, a);
      PassStep(s, i, a);
      SemaphoreStep(s, i, a);
    }
  }

  /** And the lock was taken as often as given up, but for its holder; each turn inside it
      linked or took one item. */
  lemma {:induction false} LockLedger(trace: seq<State>, actions: seq<(nat, Action)>, k: nat)
    requires IsRun(trace, actions) && Start(trace[0]) && k < |trace|
    ensures Times(trace, actions, Locked, k) == Times(trace, actions, Unlocked, k) + Population(trace[k], Inside)
    ensures |trace[k].linked| + |trace[k].taken| == Times(trace, actions, Worked, k)
  {
    if k == 0 {
      StartEmpty(trace[0], Inside, |trace[0].threads|);
    } else {
      LockLedger(trace, actions, k - 1);
      InvAlong(trace, actions, k - 1);
      var s, i, a := trace[k - 1], actions[k - 1].0, actions[k - 1].1;
      WorkStep(s, i, a);
      LockStep(s, i, a);
    }
  }

  /** What thread i can do next, if anything is its own to do: between calls it can submit
      any item there is; at the wait it can pass while the count is positive; on its way it
      can go on, but for entering the lock while somebody is inside. */
  predicate CanAct(s: State, i: nat)
    requires i < |s.threads|
  {
    match s.threads[i]
    case Idle => forall item :: item in s.submitted ==> Enabled(s, i, Submit(item))
    case Waiting => s.semaphore > 0 ==> Enabled(s, i, PassWait)
    case Claimed(_) => s.lock == None ==> Enabled(s, i, Lock)
    case Woken => s.lock == None ==> Enabled(s, i, Lock)
    case Linking(_) => Enabled(s, i, Body)
    case Unlinking => Enabled(s, i, Body)
    case LinkedUp(_) => Enabled(s, i, Unlock)
    case Unlinked(_) => Enabled(s, i, Unlock)
    case ToRelease(_) => Enabled(s, i, Release)
    case Running(_) => Enabled(s, i, CallbackReturns)
  }

  lemma ActsOn(s: State, i: nat)
    requires Inv(s) && i < |s.threads|
    ensures CanAct(s, i)
  {
    match s.threads[i]
    case Linking(item) => assert Holds(s.threads[i], item) > 0;
    case Running(item) => assert Holds(s.threads[i], item) > 0;
    case _ =>
  }

  /** Nobody is stuck: whoever is inside the lock can go on, everyone else can when nobody
      is; the lock's word names exactly who is inside. */
  lemma NobodyStuck(trace: seq<State>, actions: seq<(nat, Action)>, k: nat, i: nat)
    requires IsRun(trace, actions) && Start(trace[0]) && k < |trace| && i < |trace[k].threads|
    ensures CanAct(trace[k], i)
    ensures trace[k].lock == Some(i) <==> InLock(trace[k].threads[i])
  {
    InvAlong(trace, actions, k);
    ActsOn(trace[k], i);
  }

  lemma {:induction false} LockNamesThread(trace: seq<State>, actions: seq<(nat, Action)>, k: nat)
    requires IsRun(trace, actions) && Start(trace[0]) && k < |trace|
    ensures |trace[k].threads| == |trace[0].threads|
    ensures trace[k].lock.Some? ==> trace[k].lock.value < |trace[k].threads|
  {
    if k > 0 {
      LockNamesThread(trace, actions, k - 1);
    }
  }

  predicate AtRest(s: State)
  {
    forall i :: 0 <= i < |s.threads| ==> s.threads[i] == Idle || s.threads[i] == Waiting
  }

  /** When all are between calls or at the wait, the count announces exactly what is queued. */
  lemma NothingForgotten(trace: seq<State>, actions: seq<(nat, Action)>, k: nat)
    requires IsRun(trace, actions) && Start(trace[0]) && k < |trace| && AtRest(trace[k])
    ensures Fifo(trace[k]) && trace[k].semaphore == |Queue(trace[k])|
  {
    InvAlong(trace, actions, k);
    NobodyHolds(trace[k].threads, 0, |trace[k].threads|);
  }
}

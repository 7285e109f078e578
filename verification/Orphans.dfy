/** Objects whose directory was deleted under them, which kernel/ob allows for directories
    that were never inserted: when they arise, what their counts say, and that they stay. */
module Orphans {
  import opened ObjectManager
  import opened ObjectTable

  /** A live directory lists o. */
  ghost predicate InDirectory(s: State, o: Ref)
  {
    exists d :: ListedIn(s, d, o)
  }

  predicate ListedIn(s: State, d: Ref, o: Ref)
  {
    d in s.objects && o in s.objects[d].entries
  }

  /** PointerCount is handle entries, being in a directory, references callers hold, and the
      manager's own reference to the root. */
  ghost predicate ExactlyCounted(s: State, o: Ref)
    requires o in s.objects
  {
    s.objects[o].pointerCount == HandlesTo(s, o) + Held(s, o) + (if InDirectory(s, o) then 1 else 0)
                                 + if o == s.root then 1 else 0
  }

  /** The exact account: it holds for all objects but the orphans, which are one too high. */
  lemma ExactAccount(s: State, o: Ref)
    requires Inv(s) && o in s.objects
    ensures ExactlyCounted(s, o) <==> o !in s.orphans
  {
    assert Balanced(s, o) && Listed(s, o);
    if InDirectory(s, o) {
      var d :| ListedIn(s, d, o);
      assert Lists(s, d);
      EntryOf(s, d, o);
    } else {
      assert !ListedIn(s, s.objects[o].parent, o);
    }
  }

  /** ParentDirectory names a live directory that lists the object, except for orphans. */
  lemma ParentLives(s: State, o: Ref)
    requires Inv(s) && o in s.objects && s.objects[o].parent != NULL
    ensures ListedIn(s, s.objects[o].parent, o) <==> o !in s.orphans
  {
    assert Listed(s, o);
    var d := s.objects[o].parent;
    if ListedIn(s, d, o) {
      assert Lists(s, d);
      EntryOf(s, d, o);
    }
  }

  /** The step takes the last reference of a directory that lists o. */
  ghost predicate Evicts(s: State, a: Action, d: Ref, o: Ref)
    requires Inv(s)
  {
    ListedIn(s, d, o) && TakesLast(s, a, d)
  }

  /** Orphans arise in exactly one way, and no orphan ceases to be one. */
  lemma OrphanStep(s: State, a: Action, o: Ref)
    requires Inv(s) && Enabled(s, a)
    ensures o in Next(s, a).orphans <==> o in s.orphans || exists d :: Evicts(s, a, d, o)
  {
    if a.Release? || (a.Close? && Resolve(s, a.handle) != NULL) {
      var d := if a.Release? then a.target else Resolve(s, a.handle);
      if a.Close? {
        assert Named(s, IndexOf(a.handle).value);
      }
      assert Next(s, a).orphans
          == if TakesLast(s, a, d) then s.orphans + set e | e in s.objects[d].entries else s.orphans;
      assert forall x :: Evicts(s, a, x, o) ==> x == d;
      assert Evicts(s, a, d, o) <==> d in s.objects && TakesLast(s, a, d) && o in s.objects[d].entries;
    } else {
      assert Next(s, a).orphans == s.orphans;
    }
  }

  /** Only a directory that was never inserted can be deleted under its entries. */
  lemma OnlyUninserted(s: State, a: Action, d: Ref, o: Ref)
    requires Inv(s) && Enabled(s, a) && Evicts(s, a, d, o)
    ensures s.objects[d].kind == DIRECTORY && s.objects[d].parent == NULL && d != s.root
  {
    DeletedExactly(s, a, d);
    DeletedUninserted(s, a, d);
    assert Lists(s, d);
  }

  // ------------------------------------------------------------------ runs

  /** Orphans stay live, and orphans, for the rest of the run. */
  lemma {:induction false} OrphansStay(trace: seq<State>, actions: seq<Action>, j: nat, k: nat, o: Ref)
    requires IsRun(trace, actions) && j <= k < |trace| && o in trace[j].orphans
    ensures o in trace[k].orphans && o in trace[k].objects
  {
    InvAlong(trace, actions, k);
    if j < k {
      OrphansStay(trace, actions, j, k - 1, o);
      InvAlong(trace, actions, k - 1);
      assert Steps(trace[k - 1], actions[k - 1], trace[k]);
      OrphanStep(trace[k - 1], actions[k - 1], o);
    }
  }

  /** Step k takes the last reference of a directory that has entries. */
  ghost predicate EvictsAt(trace: seq<State>, actions: seq<Action>, k: nat)
    requires k < |trace| && k < |actions|
  {
    Inv(trace[k]) && exists d, o :: Evicts(trace[k], actions[k], d, o)
  }

  lemma {:induction false} NoOrphans(trace: seq<State>, actions: seq<Action>, k: nat)
    requires IsRun(trace, actions) && trace[0].orphans == {} && k < |trace|
    requires forall j :: 0 <= j < k ==> !EvictsAt(trace, actions, j)
    ensures trace[k].orphans == {}
  {
    if k > 0 {
      NoOrphans(trace, actions, k - 1);
      InvAlong(trace, actions, k - 1);
      assert Steps(trace[k - 1], actions[k - 1], trace[k]) && !EvictsAt(trace, actions, k - 1);
      forall o ensures o !in trace[k].orphans {
        OrphanStep(trace[k - 1], actions[k - 1], o);
      }
    }
  }

  /** None arise if and only if no step takes the last reference of a directory with entries. */
  lemma OrphansArise(trace: seq<State>, actions: seq<Action>)
    requires IsRun(trace, actions) && trace[0].orphans == {}
    ensures (forall k :: 0 <= k < |trace| ==> trace[k].orphans == {})
       <==> (forall k :: 0 <= k < |actions| ==> !EvictsAt(trace, actions, k))
  {
    if forall k :: 0 <= k < |actions| ==> !EvictsAt(trace, actions, k) {
      forall k | 0 <= k < |trace| ensures trace[k].orphans == {} {
        NoOrphans(trace, actions, k);
      }
    }
    if forall k :: 0 <= k < |trace| ==> trace[k].orphans == {} {
      forall k | 0 <= k < |actions| ensures !EvictsAt(trace, actions, k) {
        if EvictsAt(trace, actions, k) {
          var d, o :| Evicts(trace[k], actions[k], d, o);
          assert Steps(trace[k], actions[k], trace[k + 1]);
          OrphanStep(trace[k], actions[k], o);
        }
      }
    }
  }

  /** Every object of every state of the run is counted exactly. */
  ghost predicate AlwaysExact(trace: seq<State>)
  {
    forall k, o :: 0 <= k < |trace| && o in trace[k].objects ==> ExactlyCounted(trace[k], o)
  }

  /** Over a run from the start, PointerCount is always handle entries, directory entry and
      held references if and only if no step takes the last reference of a directory that has
      entries. */
  lemma AccountsExact(trace: seq<State>, actions: seq<Action>)
    requires IsRun(trace, actions) && trace[0].orphans == {}
    ensures AlwaysExact(trace) <==> forall k :: 0 <= k < |actions| ==> !EvictsAt(trace, actions, k)
  {
    if forall k :: 0 <= k < |actions| ==> !EvictsAt(trace, actions, k) {
      forall k, o | 0 <= k < |trace| && o in trace[k].objects ensures ExactlyCounted(trace[k], o) {
        InvAlong(trace, actions, k);
        NoOrphans(trace, actions, k);
        ExactAccount(trace[k], o);
      }
    }
    if AlwaysExact(trace) {
      forall k | 0 <= k < |actions| ensures !EvictsAt(trace, actions, k) {
        if EvictsAt(trace, actions, k) {
          Eviction(trace, actions, k);
        }
      }
    }
  }

  /** An eviction leaves an object that is not counted exactly. */
  lemma Eviction(trace: seq<State>, actions: seq<Action>, k: nat)
    requires IsRun(trace, actions) && k < |actions| && EvictsAt(trace, actions, k)
    ensures !AlwaysExact(trace)
  {
    var d, o :| Evicts(trace[k], actions[k], d, o);
    assert Steps(trace[k], actions[k], trace[k + 1]);
    OrphanStep(trace[k], actions[k], o);
    InvAlong(trace, actions, k + 1);
    ExactAccount(trace[k + 1], o);
  }

  /** From any state: create a directory and an object, insert the object, release the
      directory. */
  function EvictingActions(d: Ref, o: Ref, name: string): seq<Action>
  {
    [Create(d, DIRECTORY), Create(o, DIRECTORY + 1), Insert(d, name, o), Release(d)]
  }

  function Filled(s: State, d: Ref, o: Ref, name: string): State
    requires d != o
  {
    Inserted(Created(Created(s, d, DIRECTORY), o, DIRECTORY + 1), d, name, o)
  }

  /** The first three steps: the directory holds the object and one reference, its creator's. */
  lemma Fill(s: State, d: Ref, o: Ref, name: string)
    requires Inv(s) && NULL !in {d, o} && d != o && d !in s.objects && o !in s.objects
    ensures var s1, s2 := Created(s, d, DIRECTORY), Created(Created(s, d, DIRECTORY), o, DIRECTORY + 1);
      && Inv(s1) && Inv(s2) && Enabled(s2, Insert(d, name, o)) && Next(s2, Insert(d, name, o)) == Filled(s, d, o, name)
    ensures var s3 := Filled(s, d, o, name);
      Inv(s3) && ListedIn(s3, d, o) && s3.objects[d].pointerCount == 1 && Held(s3, d) == 1
  {
    var s1 := Created(s, d, DIRECTORY);
    var s2 := Created(s1, o, DIRECTORY + 1);
    CreateKeeps(s, d, DIRECTORY);
    CreateKeeps(s1, o, DIRECTORY + 1);
    assert s2.objects[d] == Fresh(DIRECTORY) && FreeName(s2, d, name);
    InsertKeeps(s2, d, name, o);
    assert Filled(s, d, o, name).objects[d].entries == [] + [o];
  }

  lemma RunOfFour(trace: seq<State>, actions: seq<Action>)
    requires |trace| == 5 && |actions| == 4 && Inv(trace[0])
    requires Steps(trace[0], actions[0], trace[1]) && Steps(trace[1], actions[1], trace[2])
    requires Steps(trace[2], actions[2], trace[3]) && Steps(trace[3], actions[3], trace[4])
    ensures IsRun(trace, actions)
  {
    forall k | 0 <= k < 4 ensures Steps(trace[k], actions[k], trace[k + 1]) {
      assert k == 0 || k == 1 || k == 2 || k == 3;
    }
  }

  lemma StepIs(s: State, a: Action, r: State)
    requires Inv(s) && Enabled(s, a) && r == Next(s, a)
    ensures Steps(s, a, r)
  {
  }

  /** The states of that run. */
  function EvictingTrace(s: State, d: Ref, o: Ref, name: string): seq<State>
    requires Inv(s) && NULL !in {d, o} && d != o && d !in s.objects && o !in s.objects
  {
    Fill(s, d, o, name);
    var s1, s3 := Created(s, d, DIRECTORY), Filled(s, d, o, name);
    [s, s1, Created(s1, o, DIRECTORY + 1), s3, Released(s3, d)]
  }

  lemma FirstSteps(s: State, d: Ref, o: Ref, name: string)
    requires Inv(s) && NULL !in {d, o} && d != o && d !in s.objects && o !in s.objects
    ensures var t, a := EvictingTrace(s, d, o, name), EvictingActions(d, o, name);
      Steps(t[0], a[0], t[1]) && Steps(t[1], a[1], t[2])
  {
    StepIs(s, Create(d, DIRECTORY), Created(s, d, DIRECTORY));
    CreateKeeps(s, d, DIRECTORY);
    var s1 := Created(s, d, DIRECTORY);
    StepIs(s1, Create(o, DIRECTORY + 1), Created(s1, o, DIRECTORY + 1));
  }

  lemma ThirdStep(s: State, d: Ref, o: Ref, name: string)
    requires Inv(s) && NULL !in {d, o} && d != o && d !in s.objects && o !in s.objects
    ensures var t, a := EvictingTrace(s, d, o, name), EvictingActions(d, o, name); Steps(t[2], a[2], t[3])
  {
    Fill(s, d, o, name);
    var s2 := Created(Created(s, d, DIRECTORY), o, DIRECTORY + 1);
    StepIs(s2, Insert(d, name, o), Filled(s, d, o, name));
  }

  lemma LastStep(s: State, d: Ref, o: Ref, name: string)
    requires Inv(s) && NULL !in {d, o} && d != o && d !in s.objects && o !in s.objects
    ensures var t, a := EvictingTrace(s, d, o, name), EvictingActions(d, o, name); Steps(t[3], a[3], t[4])
  {
    Fill(s, d, o, name);
    StepIs(Filled(s, d, o, name), Release(d), Released(Filled(s, d, o, name), d));
  }

  lemma EvictingRun(s: State, d: Ref, o: Ref, name: string)
    requires Inv(s) && NULL !in {d, o} && d != o && d !in s.objects && o !in s.objects
    ensures IsRun(EvictingTrace(s, d, o, name), EvictingActions(d, o, name))
  {
    FirstSteps(s, d, o, name);
    ThirdStep(s, d, o, name);
    LastStep(s, d, o, name);
    RunOfFour(EvictingTrace(s, d, o, name), EvictingActions(d, o, name));
  }

  /** The run that does it, from any sound state. */
  lemma EvictionHappens(s: State, d: Ref, o: Ref, name: string)
    requires Inv(s) && NULL !in {d, o} && d != o && d !in s.objects && o !in s.objects
    ensures IsRun(EvictingTrace(s, d, o, name), EvictingActions(d, o, name))
    ensures !AlwaysExact(EvictingTrace(s, d, o, name))
  {
    Fill(s, d, o, name);
    EvictingRun(s, d, o, name);
    EvictsHere(EvictingTrace(s, d, o, name), EvictingActions(d, o, name), 3, d, o);
    Eviction(EvictingTrace(s, d, o, name), EvictingActions(d, o, name), 3);
  }

  lemma EvictsHere(trace: seq<State>, actions: seq<Action>, k: nat, d: Ref, o: Ref)
    requires k < |trace| && k < |actions| && Inv(trace[k]) && actions[k] == Release(d)
    requires ListedIn(trace[k], d, o) && trace[k].objects[d].pointerCount == 1
    ensures EvictsAt(trace, actions, k)
  {
    assert Evicts(trace[k], actions[k], d, o);
  }
}

/** One-time initialization of user/kernel32.c: threads interleave InitOnceExecuteOnce and
    check-only InitOnceBeginInitialize on one word. */
module InitOnce {
  import opened Prelude

  const FRESH := 0
  const BUSY := 1
  const DONE_NULL := 2

  /** Where a thread is: about to read the word (for good or check-only), having read zero
      and about to swap, in the callback, between the callback and completion, or back with
      the function's result. */
  datatype Pc =
    | Outside
    | Probing
    | Checking
    | Racing
    | InCallback
    | Finishing(ok: bool, context: nat)
    | Returned(ok: bool, context: nat)
    | NotYet

  /** The word, the threads, and history: the context installed, if any, and whether a
      completion was refused for its alignment. */
  datatype State = State(word: nat, threads: seq<Pc>, produced: Option<nat>, stuck: bool)

  datatype Action = Call | Check | Read | Swap | CallbackReturns(ok: bool, context: nat) | Complete

  /** Win32 wants the low two bits of a context clear. */
  predicate Aligned(context: nat)
  {
    context % 4 == 0
  }

  function Encoded(context: nat): nat
  {
    if context == 0 then DONE_NULL else context
  }

  function Decoded(word: nat): nat
  {
    if word == DONE_NULL then 0 else word
  }

  predicate Enabled(s: State, i: nat, a: Action)
  {
    i < |s.threads| &&
    match a
    case Call => s.threads[i].Outside?
    case Check => s.threads[i].Outside?
    case Read => s.threads[i].Probing? || s.threads[i].Checking?
    case Swap => s.threads[i].Racing?
    case CallbackReturns(_, _) => s.threads[i].InCallback?
    case Complete => s.threads[i].Finishing?
  }

  /** What a read of the word leads to; a spinning thread stays where it is. */
  function AfterRead(word: nat, pc: Pc): Pc
  {
    if word == FRESH then (if pc.Checking? then NotYet else Racing)
    else if word == BUSY then pc
    else Returned(true, Decoded(word))
  }

  function At(s: State, i: nat, pc: Pc): State
    requires i < |s.threads|
  {
    s.(threads := s.threads[i := pc])
  }

  function Next(s: State, i: nat, a: Action): State
    requires Enabled(s, i, a)
  {
    match a
    case Call => At(s, i, Probing)
    case Check => At(s, i, Checking)
    case Read => At(s, i, AfterRead(s.word, s.threads[i]))
    case Swap => if s.word == FRESH then At(s, i, InCallback).(word := BUSY) else At(s, i, Probing)
    case CallbackReturns(ok, context) => At(s, i, Finishing(ok, context))
    case Complete =>
      var pc := s.threads[i];
      if !pc.ok then At(s, i, Returned(false, 0)).(word := FRESH)
      else if !Aligned(pc.context) then At(s, i, Returned(false, 0)).(stuck := true)
      else At(s, i, Returned(true, pc.context)).(word := Encoded(pc.context), produced := Some(pc.context))
  }

  /** The word as the code edits it. */
  class Once {
    var word: nat

    /** The compare-and-swap of InitOnceBeginInitialize. */
    method Claim(ghost s: State, ghost i: nat) returns (won: bool)
      requires Enabled(s, i, Swap) && s.word == word
      modifies this
      ensures word == Next(s, i, Swap).word
      ensures won <==> Next(s, i, Swap).threads[i] == InCallback
    {
      won := word == FRESH;
      if won {
        word := BUSY;
      }
    }

    /** InitOnceComplete, as InitOnceExecuteOnce calls it. */
    method Complete(failed: bool, context: nat, ghost s: State, ghost i: nat) returns (ok: bool)
      requires Enabled(s, i, Action.Complete) && s.word == word
      requires s.threads[i] == Finishing(!failed, context)
      modifies this
      ensures word == Next(s, i, Action.Complete).word
      ensures ok <==> failed || Next(s, i, Action.Complete).threads[i].ok
    {
      if failed {
        word := FRESH;
        return true;
      }
      if context % 4 != 0 {
        return false;
      }
      word := if context != 0 then context else DONE_NULL;
      ok := true;
    }
  }

  // ------------------------------------------------------------ invariant

  predicate Busy(pc: Pc)
  {
    pc.InCallback? || pc.Finishing?
  }

  /** The word tells the phase: fresh, one initializer at work (or refused for good), done. */
  predicate WordTells(s: State)
  {
    && (s.produced.Some? <==> s.word != FRESH && s.word != BUSY)
    && (s.produced.Some? ==> Aligned(s.produced.value) && s.word == Encoded(s.produced.value))
    && (s.stuck ==> s.word == BUSY)
  }

  predicate Inv(s: State)
  {
    && WordTells(s)
    && (forall i :: 0 <= i < |s.threads| && Busy(s.threads[i]) ==> s.word == BUSY && !s.stuck)
    && (forall i, j :: 0 <= i < j < |s.threads| ==> !(Busy(s.threads[i]) && Busy(s.threads[j])))
    && (s.word == BUSY && !s.stuck ==> exists i :: 0 <= i < |s.threads| && Busy(s.threads[i]))
    && (forall i :: 0 <= i < |s.threads| && s.threads[i].Returned? && s.threads[i].ok ==>
          s.produced == Some(s.threads[i].context))
  }

  predicate Start(s: State)
  {
    s.word == FRESH && s.produced == None && !s.stuck
    && forall i :: 0 <= i < |s.threads| ==> s.threads[i] == Outside
  }

  /** Every step keeps the invariant, and history is never rewritten. */
  lemma StepKeeps(s: State, i: nat, a: Action)
    requires Inv(s) && Enabled(s, i, a)
    ensures Inv(Next(s, i, a))
    ensures s.produced.Some? ==> Next(s, i, a).produced == s.produced
    ensures s.stuck ==> Next(s, i, a).stuck
  {
    var r := Next(s, i, a);
    assert forall j :: 0 <= j < |s.threads| && j != i ==> r.threads[j] == s.threads[j];
    if a == Complete {
      assert Busy(s.threads[i]);
    } else if s.word == BUSY && !s.stuck {
      var b :| 0 <= b < |s.threads| && Busy(s.threads[b]);
      assert Busy(r.threads[b]);
    } else if a == Swap && s.word == FRESH {
      assert Busy(r.threads[i]);
    }
  }

  // ----------------------------------------------------------------- runs

  predicate StepAt(trace: seq<State>, actions: seq<(nat, Action)>, k: nat)
    requires |trace| == |actions| + 1 && k < |actions|
  {
    Enabled(trace[k], actions[k].0, actions[k].1) && trace[k + 1] == Next(trace[k], actions[k].0, actions[k].1)
  }

  /** The states of a run; actions[k] is who did what. */
  predicate IsRun(trace: seq<State>, actions: seq<(nat, Action)>)
  {
    |trace| == |actions| + 1 && Start(trace[0])
    && forall k :: 0 <= k < |actions| ==> StepAt(trace, actions, k)
  }

  lemma {:induction false} InvAlong(trace: seq<State>, actions: seq<(nat, Action)>, k: nat)
    requires IsRun(trace, actions) && k < |trace|
    ensures Inv(trace[k])
  {
    if k > 0 {
      InvAlong(trace, actions, k - 1);
      assert StepAt(trace, actions, k - 1);
      StepKeeps(trace[k - 1], actions[k - 1].0, actions[k - 1].1);
    }
  }

  lemma {:induction false} HistoryStays(trace: seq<State>, actions: seq<(nat, Action)>, j: nat, k: nat)
    requires IsRun(trace, actions) && j <= k < |trace|
    ensures trace[j].produced.Some? ==> trace[k].produced == trace[j].produced
    ensures trace[j].stuck ==> trace[k].stuck
  {
    if j < k {
      HistoryStays(trace, actions, j, k - 1);
      InvAlong(trace, actions, k - 1);
      assert StepAt(trace, actions, k - 1);
      StepKeeps(trace[k - 1], actions[k - 1].0, actions[k - 1].1);
    }
  }

  /** Step k is the completion of a successful callback that produced `context`. */
  predicate Succeeds(trace: seq<State>, actions: seq<(nat, Action)>, k: nat, context: nat)
    requires |trace| == |actions| + 1
  {
    k < |actions| && actions[k].1 == Complete && actions[k].0 < |trace[k].threads|
    && trace[k].threads[actions[k].0] == Finishing(true, context)
  }

  /** At most one callback is in progress, at any moment of any run. */
  lemma OneCallback(trace: seq<State>, actions: seq<(nat, Action)>, k: nat, i: nat, j: nat)
    requires IsRun(trace, actions) && k < |trace| && i < |trace[k].threads| && j < |trace[k].threads|
    requires Busy(trace[k].threads[i]) && Busy(trace[k].threads[j])
    ensures i == j
  {
    InvAlong(trace, actions, k);
  }

  /** Once a callback has succeeded with an aligned context, no callback runs or starts. */
  lemma NoneAfterSuccess(trace: seq<State>, actions: seq<(nat, Action)>, j: nat, k: nat, i: nat, context: nat)
    requires IsRun(trace, actions) && j < k < |trace| && i < |trace[k].threads|
    requires Succeeds(trace, actions, j, context) && Aligned(context)
    ensures !Busy(trace[k].threads[i]) && trace[k].word == Encoded(context)
  {
    assert StepAt(trace, actions, j);
    HistoryStays(trace, actions, j + 1, k);
    InvAlong(trace, actions, k);
  }

  /** An installed context came from an earlier successful callback. */
  lemma {:induction false} ProducedBefore(trace: seq<State>, actions: seq<(nat, Action)>, k: nat) returns (j: nat)
    requires IsRun(trace, actions) && k < |trace| && trace[k].produced.Some?
    ensures j < k && Succeeds(trace, actions, j, trace[k].produced.value)
  {
    assert StepAt(trace, actions, k - 1);
    if trace[k - 1].produced == trace[k].produced {
      j := ProducedBefore(trace, actions, k - 1);
    } else {
      j := k - 1;
    }
  }

  /** Every successful return, of any thread at any time, yields the context the one
      successful callback produced. */
  lemma SameContext(trace: seq<State>, actions: seq<(nat, Action)>, k: nat, i: nat) returns (j: nat)
    requires IsRun(trace, actions) && k < |trace| && i < |trace[k].threads|
    requires trace[k].threads[i].Returned? && trace[k].threads[i].ok
    ensures j < k && Succeeds(trace, actions, j, trace[k].threads[i].context)
    ensures forall l: nat, c: nat :: Succeeds(trace, actions, l, c) && l < k && Aligned(c) ==> l == j
  {
    InvAlong(trace, actions, k);
    j := ProducedBefore(trace, actions, k);
    forall l: nat, c: nat | Succeeds(trace, actions, l, c) && l < k && Aligned(c) ensures l == j {
      OnlySuccess(trace, actions, l, c, j, trace[k].threads[i].context);
    }
  }

  lemma OnlySuccess(trace: seq<State>, actions: seq<(nat, Action)>, l: nat, c: nat, j: nat, d: nat)
    requires IsRun(trace, actions) && Succeeds(trace, actions, l, c) && Succeeds(trace, actions, j, d)
    requires Aligned(c) && Aligned(d)
    ensures l == j
  {
    if l < j {
      NoneAfterSuccess(trace, actions, l, j, actions[j].0, c);
    } else if j < l {
      NoneAfterSuccess(trace, actions, j, l, actions[l].0, d);
    }
  }

  /** A failed callback gives the word back: any thread about to swap then wins. */
  lemma FailureRetries(trace: seq<State>, actions: seq<(nat, Action)>, k: nat, i: nat, context: nat)
    requires IsRun(trace, actions) && k < |actions| && actions[k].1 == Complete
    requires actions[k].0 < |trace[k].threads| && trace[k].threads[actions[k].0] == Finishing(false, context)
    requires i < |trace[k + 1].threads| && trace[k + 1].threads[i].Racing?
    ensures Next(trace[k + 1], i, Swap).threads[i] == InCallback
  {
    assert StepAt(trace, actions, k);
  }

  /** A success is recorded exactly when its context is aligned. Otherwise nobody ever runs
      a callback or returns successfully again: every later caller spins. */
  lemma MisalignedIsForever(trace: seq<State>, actions: seq<(nat, Action)>, j: nat, k: nat, i: nat, context: nat)
    requires IsRun(trace, actions) && j < k < |trace| && i < |trace[k].threads|
    requires Succeeds(trace, actions, j, context)
    ensures trace[j + 1].produced == Some(context) <==> Aligned(context)
    ensures !Aligned(context) ==>
      !Busy(trace[k].threads[i]) && !(trace[k].threads[i].Returned? && trace[k].threads[i].ok)
      && AfterRead(trace[k].word, Probing) == Probing
  {
    assert StepAt(trace, actions, j);
    InvAlong(trace, actions, j);
    HistoryStays(trace, actions, j + 1, k);
    InvAlong(trace, actions, k);
  }

  /** What a caller who arrives after a successful callback sees: the context at once if it
      is aligned, and "in progress" for ever exactly if it is not. */
  lemma LaterCallers(trace: seq<State>, actions: seq<(nat, Action)>, j: nat, k: nat, context: nat)
    requires IsRun(trace, actions) && j < k < |trace| && Succeeds(trace, actions, j, context)
    ensures AfterRead(trace[k].word, Probing) == if Aligned(context) then Returned(true, context) else Probing
  {
    assert StepAt(trace, actions, j);
    InvAlong(trace, actions, j);
    HistoryStays(trace, actions, j + 1, k);
    InvAlong(trace, actions, k);
  }

  /** What a read by thread i at step k leads to: the context of an earlier aligned success,
      at once; with nobody initializing and none refused, the swap for a caller that means it
      and "not yet" for one that only checks; otherwise another read. */
  lemma ReadSees(trace: seq<State>, actions: seq<(nat, Action)>, k: nat, i: nat)
    requires IsRun(trace, actions) && k < |actions| && actions[k] == (i, Read)
    ensures i < |trace[k].threads| == |trace[k + 1].threads|
    ensures forall j: nat, context: nat :: j < k && Succeeds(trace, actions, j, context) && Aligned(context) ==>
      trace[k + 1].threads[i] == Returned(true, context)
    ensures trace[k].produced == None
            && (trace[k].stuck || exists b :: 0 <= b < |trace[k].threads| && Busy(trace[k].threads[b])) ==>
      trace[k + 1].threads[i] == trace[k].threads[i]
    ensures trace[k].produced == None && !trace[k].stuck
            && (forall b :: 0 <= b < |trace[k].threads| ==> !Busy(trace[k].threads[b])) ==>
      trace[k + 1].threads[i] == if trace[k].threads[i] == Checking then NotYet else Racing
    ensures trace[k + 1].word == trace[k].word
  {
    assert StepAt(trace, actions, k);
    InvAlong(trace, actions, k);
    forall j: nat, context: nat | j < k && Succeeds(trace, actions, j, context) && Aligned(context)
      ensures trace[k + 1].threads[i] == Returned(true, context)
    {
      NoneAfterSuccess(trace, actions, j, k, i, context);
    }
  }

  /** How a call that ran the callback ends: with the callback's context, or in failure if
      the callback failed or its context was not aligned. */
  lemma CompletionResult(trace: seq<State>, actions: seq<(nat, Action)>, k: nat, i: nat)
    requires IsRun(trace, actions) && k < |actions| && actions[k] == (i, Complete)
    ensures i < |trace[k].threads| == |trace[k + 1].threads| && trace[k].threads[i].Finishing?
    ensures var pc := trace[k].threads[i];
      trace[k + 1].threads[i] == if pc.ok && pc.context % 4 == 0 then Returned(true, pc.context) else Returned(false, 0)
  {
    assert StepAt(trace, actions, k);
  }

  /** Thread i completed a callback that failed or was refused. */
  predicate FailedAt(trace: seq<State>, actions: seq<(nat, Action)>, j: nat, i: nat)
    requires |trace| == |actions| + 1
  {
    && j < |actions| && actions[j] == (i, Complete) && i < |trace[j].threads| && trace[j].threads[i].Finishing?
    && !(trace[j].threads[i].ok && trace[j].threads[i].context % 4 == 0)
  }

  /** A call fails only through its own callback. */
  lemma {:induction false} FailureIsOwn(trace: seq<State>, actions: seq<(nat, Action)>, k: nat, i: nat) returns (j: nat)
    requires IsRun(trace, actions) && k < |trace| && i < |trace[k].threads|
    requires trace[k].threads[i].Returned? && !trace[k].threads[i].ok
    ensures j < k && FailedAt(trace, actions, j, i)
  {
    assert StepAt(trace, actions, k - 1);
    if trace[k - 1].threads[i] == trace[k].threads[i] {
      j := FailureIsOwn(trace, actions, k - 1, i);
    } else {
      j := k - 1;
    }
  }

  /** Calls enter for good or to check, and what a callback returns is what is completed. */
  lemma Entering(trace: seq<State>, actions: seq<(nat, Action)>, k: nat, i: nat)
    requires IsRun(trace, actions) && k < |actions| && actions[k].0 == i
    ensures i < |trace[k].threads| == |trace[k + 1].threads|
    ensures actions[k].1 == Call ==> trace[k].threads[i] == Outside && trace[k + 1].threads[i] == Probing
    ensures actions[k].1 == Check ==> trace[k].threads[i] == Outside && trace[k + 1].threads[i] == Checking
    ensures actions[k].1.CallbackReturns? ==>
      trace[k].threads[i] == InCallback
      && trace[k + 1].threads[i] == Finishing(actions[k].1.ok, actions[k].1.context)
  {
    assert StepAt(trace, actions, k);
  }

  /** A swap wins exactly when no callback has succeeded or been refused and none is in
      progress; the loser reads again. */
  lemma SwapWins(trace: seq<State>, actions: seq<(nat, Action)>, k: nat, i: nat)
    requires IsRun(trace, actions) && k < |actions| && actions[k] == (i, Swap)
    ensures i < |trace[k].threads| == |trace[k + 1].threads|
    ensures var free := trace[k].produced == None && !trace[k].stuck
                        && forall b :: 0 <= b < |trace[k].threads| ==> !Busy(trace[k].threads[b]);
      trace[k + 1].threads[i] == if free then InCallback else Probing
  {
    assert StepAt(trace, actions, k);
    InvAlong(trace, actions, k);
  }

  /** The refusal does happen: one thread, one callback, context 1. */
  lemma MisalignedHappens()
    ensures exists trace: seq<State>, actions :: IsRun(trace, actions) && |actions| == 5 && trace[5].stuck
  {
    var s0 := State(FRESH, [Outside], None, false);
    var s1 := State(FRESH, [Probing], None, false);
    var s2 := State(FRESH, [Racing], None, false);
    var s3 := State(BUSY, [InCallback], None, false);
    var s4 := State(BUSY, [Finishing(true, 1)], None, false);
    var s5 := State(BUSY, [Returned(false, 0)], None, true);
    var trace := [s0, s1, s2, s3, s4, s5];
    var actions := [(0, Call), (0, Read), (0, Swap), (0, CallbackReturns(true, 1)), (0, Complete)];
    assert StepAt(trace, actions, 0) && StepAt(trace, actions, 1) && StepAt(trace, actions, 2);
    assert StepAt(trace, actions, 3) && StepAt(trace, actions, 4);
    assert IsRun(trace, actions);
  }
}

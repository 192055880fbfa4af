/**
  blocking_io/exercise2/simple_block_2.c and blocking_io/exercise1/simple_block_1.c: a shared counter `my_data`. A
  consumer waits, without the lock, for `my_data > 0`, and later decrements it under the lock. In exercise1 one of the
  waits has a timeout, which returns 0 and is taken for success.
 */
module BlockCounter {
  import opened Options
  import opened Runs

  type Tid = nat

  datatype Phase = Idle | Waiting | Passed

  /** `added`, `consumed` and `timeouts` record what has happened; no step looks at them. */
  datatype Sys = Sys(data: int, threads: map<Tid, Phase>, added: int, consumed: nat, timeouts: nat) {
    function At(t: Tid): Phase { if t in threads then threads[t] else Idle }
    function Goto(t: Tid, ph: Phase): Sys { this.(threads := threads[t := ph]) }
    /** The consumers between their test and their decrement. */
    function Passers(): set<Tid> { set t | t in threads && threads[t].Passed? }
  }

  datatype Action = Wait(t: Tid) | Test(t: Tid) | Signal(t: Tid) | Timeout(t: Tid) | Decrement(t: Tid) | Add(n: int)

  /** The code; the repair in which a timeout returns without consuming; and the one that also tests again under the
      lock. */
  datatype Version = Code | TimeoutReturns | Rechecks

  function Step(s: Sys, a: Action, v: Version): Sys {
    match a
    case Wait(t) => if s.At(t).Idle? then s.Goto(t, Waiting) else s
    case Test(t) => if s.At(t).Waiting? && s.data > 0 then s.Goto(t, Passed) else s
    case Signal(t) => if s.At(t).Waiting? then s.Goto(t, Idle) else s
    case Timeout(t) =>
      if !s.At(t).Waiting? || s.data > 0 then s
      else if v.Code? then s.(timeouts := s.timeouts + 1).Goto(t, Passed)
      else s.Goto(t, Idle)
    case Decrement(t) =>
      if !s.At(t).Passed? then s
      else if v.Rechecks? && s.data <= 0 then s.Goto(t, Waiting)
      else s.(data := s.data - 1, consumed := s.consumed + 1).Goto(t, Idle)
    case Add(n) => s.(data := s.data + n, added := s.added + n)
  }

  function StepOf(v: Version): (Sys, Action) -> Sys { (s, a) => Step(s, a, v) }

  const START: Sys := Sys(0, map[], 0, 0, 0)

  ghost predicate AddsOnly(acts: seq<Action>) { forall i :: 0 <= i < |acts| && acts[i].Add? ==> acts[i].n >= 0 }

  /** At no time are more than n consumers between their test and their decrement. */
  ghost predicate AtMost(tr: seq<Sys>, n: nat) { forall k :: 0 <= k < |tr| ==> |tr[k].Passers()| <= n }

  lemma PassersAfter(s: Sys, t: Tid, ph: Phase)
    ensures s.Goto(t, ph).Passers() == if ph.Passed? then s.Passers() + {t} else s.Passers() - {t}
  {}

  /** Counted against the consumers that have passed, the counter stays above the bound. */
  ghost predicate Above(s: Sys, n: nat) {
    s.data == s.added - s.consumed && s.data - |s.Passers()| >= 1 - n - s.timeouts
  }

  lemma StepStaysAbove(s: Sys, a: Action, v: Version, n: nat)
    requires Above(s, n) && (a.Add? ==> a.n >= 0) && |Step(s, a, v).Passers()| <= n
    ensures Above(Step(s, a, v), n)
    ensures !v.Code? ==> Step(s, a, v).timeouts == s.timeouts
    ensures v.Rechecks? && s.data >= 0 ==> Step(s, a, v).data >= 0
  {
    var s' := Step(s, a, v);
    if !a.Add? && s' != s {
      PassersAfter(s, a.t, s'.At(a.t));
      assert s'.Passers() == s.Goto(a.t, s'.At(a.t)).Passers();
      assert a.t in s.Passers() <==> s.At(a.t).Passed?;
    }
  }

  /** Main result: with at most N consumers between test and decrement and non-negative adds, the counter is what was
      added minus what was consumed, and never falls below 1 - N - (timeouts fired). With the timeout repaired the bound
      is 1 - N; with a second test under the lock it is 0 for any number of consumers. */
  lemma {:induction false} CounterBound(tr: seq<Sys>, acts: seq<Action>, k: nat, v: Version, n: nat)
    requires Run(StepOf(v), tr, acts) && tr[0] == START && k <= |acts| && AddsOnly(acts) && n >= 1 && AtMost(tr, n)
    ensures tr[k].data == tr[k].added - tr[k].consumed
    ensures Above(tr[k], n) && tr[k].data >= 1 - n - tr[k].timeouts
    ensures !v.Code? ==> tr[k].timeouts == 0
    ensures v.Rechecks? ==> tr[k].data >= 0
  {
    if k > 0 {
      CounterBound(tr, acts, k - 1, v, n);
      assert Follows(StepOf(v), tr, acts, k - 1);
      StepStaysAbove(tr[k - 1], acts[k - 1], v, n);
    }
  }

  // ---------------------------------------------------------------- the bound is attained

  /** The threads 0 to n-1, and no others, are between test and decrement. */
  ghost predicate FirstPassed(s: Sys, n: nat) {
    forall t: Tid :: s.At(t) == if t < n then Passed else Idle
  }

  function Below(n: nat): set<Tid> { if n == 0 then {} else Below(n - 1) + {n - 1} }

  lemma {:induction false} BelowSize(n: nat)
    ensures |Below(n)| == n && forall t: Tid :: t in Below(n) <==> t < n
  {
    if n > 0 { BelowSize(n - 1); }
  }

  lemma FirstPassedSize(s: Sys, n: nat)
    requires FirstPassed(s, n)
    ensures |s.Passers()| == n
  {
    BelowSize(n);
    forall t: Tid ensures t in s.Passers() <==> t in Below(n) {
      assert s.At(t) == if t < n then Passed else Idle;
    }
    assert s.Passers() == Below(n);
  }

  /** One more thread has passed, or the last one has gone back to idle. */
  lemma FirstPassedMoves(s: Sys, s': Sys, n: nat, m: nat)
    requires FirstPassed(s, n)
    requires (m == n + 1 && s'.threads == s.threads[n := Passed]) || (m + 1 == n && s'.threads == s.threads[m := Idle])
    ensures FirstPassed(s', m)
  {
    forall t: Tid ensures s'.At(t) == if t < m then Passed else Idle {
      assert s.At(t) == if t < n then Passed else Idle;
    }
  }

  /** A run of the code that has kept within n consumers, and where it is now. */
  ghost predicate Reaches(tr: seq<Sys>, acts: seq<Action>, n: nat, s: Sys) {
    Run(StepOf(Code), tr, acts) && tr[0] == START && AddsOnly(acts) && AtMost(tr, n) && tr[|acts|] == s
  }

  lemma Append(tr: seq<Sys>, acts: seq<Action>, n: nat, a: Action) returns (tr': seq<Sys>, acts': seq<Action>)
    requires Run(StepOf(Code), tr, acts) && Reaches(tr, acts, n, tr[|acts|]) && (a.Add? ==> a.n >= 0)
    requires |Step(tr[|acts|], a, Code).Passers()| <= n
    ensures Reaches(tr', acts', n, Step(tr[|acts|], a, Code)) && tr' == tr + [Step(tr[|acts|], a, Code)]
  {
    Extends(StepOf(Code), tr, acts, a);
    tr', acts' := tr + [Step(tr[|acts|], a, Code)], acts + [a];
  }

  /** n consumers pass the test on the same 1. */
  lemma {:induction false} AllPass(n: nat, m: nat) returns (tr: seq<Sys>, acts: seq<Action>)
    requires m <= n
    ensures |tr| > 0 && Reaches(tr, acts, n, tr[|tr| - 1])
    ensures var s := tr[|tr| - 1]; s.data == 1 && s.timeouts == 0 && FirstPassed(s, m)
  {
    if m == 0 {
      tr, acts := [START], [];
      tr, acts := Append(tr, acts, n, Add(1));
    } else {
      tr, acts := AllPass(n, m - 1);
      var s := tr[|acts|];
      var s1 := Step(s, Wait(m - 1), Code);
      assert s.At(m - 1).Idle?;
      FirstPassedSize(s, m - 1);
      PassersAfter(s, m - 1, Waiting);
      tr, acts := Append(tr, acts, n, Wait(m - 1));
      var s2 := Step(s1, Test(m - 1), Code);
      assert s2.threads == s.threads[m - 1 := Passed];
      FirstPassedMoves(s, s2, m - 1, m);
      FirstPassedSize(s2, m);
      tr, acts := Append(tr, acts, n, Test(m - 1));
    }
  }

  /** Then all of them decrement. */
  lemma {:induction false} AllDecrement(n: nat, m: nat) returns (tr: seq<Sys>, acts: seq<Action>)
    requires m <= n
    ensures |tr| > 0 && Reaches(tr, acts, n, tr[|tr| - 1])
    ensures var s := tr[|tr| - 1]; s.data == 1 - m && s.timeouts == 0 && FirstPassed(s, n - m)
  {
    if m == 0 {
      tr, acts := AllPass(n, n);
    } else {
      tr, acts := AllDecrement(n, m - 1);
      var s, t := tr[|acts|], n - m;
      assert s.At(t).Passed?;
      var s1 := Step(s, Decrement(t), Code);
      FirstPassedMoves(s, s1, n - m + 1, n - m);
      FirstPassedSize(s1, n - m);
      tr, acts := Append(tr, acts, n, Decrement(t));
    }
  }

  /** Main result: the bound is tight for every number of consumers and of timeouts. */
  lemma {:induction false} BoundAttained(n: nat, timeouts: nat) returns (tr: seq<Sys>, acts: seq<Action>)
    requires n >= 1
    ensures |tr| > 0 && Reaches(tr, acts, n, tr[|tr| - 1])
    ensures var s := tr[|tr| - 1]; s.timeouts == timeouts && s.data == 1 - n - timeouts && FirstPassed(s, 0)
  {
    if timeouts == 0 {
      tr, acts := AllDecrement(n, n);
    } else {
      tr, acts := BoundAttained(n, timeouts - 1);
      var s := tr[|acts|];
      assert s.At(0).Idle?;
      FirstPassedSize(s, 0);
      PassersAfter(s, 0, Waiting);
      var s1 := Step(s, Wait(0), Code);
      tr, acts := Append(tr, acts, n, Wait(0));
      var s2 := Step(s1, Timeout(0), Code);
      assert s2.threads == s.threads[0 := Passed];
      FirstPassedMoves(s, s2, 0, 1);
      FirstPassedSize(s2, 1);
      tr, acts := Append(tr, acts, n, Timeout(0));
      var s3 := Step(s2, Decrement(0), Code);
      FirstPassedMoves(s2, s3, 1, 0);
      FirstPassedSize(s3, 0);
      tr, acts := Append(tr, acts, n, Decrement(0));
    }
  }

  /** No run of the code with at most n consumers in flight and at most T timeouts makes the counter negative. */
  ghost predicate NeverNegative(n: nat, timeouts: nat) {
    forall tr: seq<Sys>, acts: seq<Action> ::
      Run(StepOf(Code), tr, acts) && tr[0] == START && AddsOnly(acts) && AtMost(tr, n) &&
      tr[|acts|].timeouts <= timeouts
      ==> tr[|acts|].data >= 0
  }

  /** Main result: exactly when the counter of the code as written stays non-negative. */
  lemma NonNegativeExactly(n: nat, timeouts: nat)
    requires n >= 1
    ensures NeverNegative(n, timeouts) <==> n == 1 && timeouts == 0
  {
    if n == 1 && timeouts == 0 {
      forall tr: seq<Sys>, acts: seq<Action> |
        Run(StepOf(Code), tr, acts) && tr[0] == START && AddsOnly(acts) && AtMost(tr, n) &&
        tr[|acts|].timeouts <= timeouts
        ensures tr[|acts|].data >= 0
      {
        CounterBound(tr, acts, |acts|, Code, n);
      }
    } else {
      var tr, acts := BoundAttained(n, timeouts);
      assert tr[|acts|].data < 0;
    }
  }

  // ---------------------------------------------------------------- the device

  /** In every run of every version, whatever is added, the counter is what was added minus what was consumed. */
  lemma {:induction false} Balance(tr: seq<Sys>, acts: seq<Action>, k: nat, v: Version)
    requires Run(StepOf(v), tr, acts) && tr[0] == START && k <= |acts|
    ensures tr[k].data == tr[k].added - tr[k].consumed
  {
    if k > 0 {
      Balance(tr, acts, k - 1, v);
      assert Follows(StepOf(v), tr, acts, k - 1);
    }
  }

  /** The three waits: wait_event, wait_event_interruptible, wait_event_interruptible_timeout. */
  datatype WaitKind = Plain | Interruptible | Timed

  /** What happens during one round of waiting: steps of other threads, and then perhaps a signal or the timeout. */
  datatype Event = Nothing | Signalled | TimedOut
  datatype Round = Round(others: seq<Action>, event: Event)

  /** How a wait has ended, and the step of the run that ended it. */
  datatype Ending = StillWaiting | ByTest | BySignal | ByTimeout

  function EndStep(how: Ending, t: Tid): seq<Action> {
    match how
    case StillWaiting => []
    case ByTest => [Test(t)]
    case BySignal => [Signal(t)]
    case ByTimeout => [Timeout(t)]
  }

  /** What the others do in the first k rounds. */
  function Played(env: seq<Round>, k: nat): seq<Action>
    requires k <= |env|
  {
    if k == 0 then [] else Played(env, k - 1) + env[k - 1].others
  }

  /** Interrupted is the error return for a signal; Blocked means that the environment ended during the wait. */
  datatype Outcome = Blocked | Interrupted | Consumed(ret: int)

  predicate By(a: Action, t: Tid) { !a.Add? && a.t == t }

  ghost predicate NotBy(batch: seq<Action>, t: Tid) { forall i :: 0 <= i < |batch| ==> !By(batch[i], t) }

  ghost predicate Others(env: seq<Round>, t: Tid) { forall k :: 0 <= k < |env| ==> NotBy(env[k].others, t) }

  function OthersAt(env: seq<Round>, k: nat): seq<Action> { if k < |env| then env[k].others else [] }

  lemma OthersKeepPhase(s: Sys, a: Action, t: Tid)
    requires !By(a, t)
    ensures Step(s, a, Code).At(t) == s.At(t)
  {}

  /** The driver in its own form; `added`, `consumed` and `timeouts` are the history of Sys. Other threads step between
      any two accesses of a caller, and the ghost fields record the run. */
  class Device {
    var myData: int
    var threads: map<Tid, Phase>
    var added: int
    var consumed: nat
    var timeouts: nat
    ghost var tr: seq<Sys>
    ghost var acts: seq<Action>

    function Now(): Sys
      reads this
    {
      Sys(myData, threads, added, consumed, timeouts)
    }

    ghost predicate Valid()
      reads this
    {
      |tr| == |acts| + 1 && Run(StepOf(Code), tr, acts) && tr[0] == START && tr[|acts|] == Now()
    }

    constructor ()
      ensures Valid() && Now() == START
    {
      myData, threads, added, consumed, timeouts := 0, map[], 0, 0, 0;
      new;
      tr, acts := [START], [];
    }

    lemma Balanced()
      requires Valid()
      ensures myData == added - consumed
    {
      Balance(tr, acts, |acts|, Code);
    }

    ghost method Record(a: Action, s: Sys)
      requires |tr| == |acts| + 1 && Run(StepOf(Code), tr, acts) && tr[0] == START && tr[|acts|] == s
      requires Now() == Step(s, a, Code)
      modifies this`tr, this`acts
      ensures Valid() && tr == old(tr) + [Now()] && acts == old(acts) + [a]
    {
      hide Step;
      Extends(StepOf(Code), tr, acts, a);
      tr, acts := tr + [Now()], acts + [a];
    }

    method Interfere(t: Tid, batch: seq<Action>)
      requires Valid() && NotBy(batch, t)
      modifies this
      ensures Valid() && old(tr) <= tr && acts == old(acts) + batch && Now().At(t) == old(Now()).At(t)
    {
      hide Step, Run;
      for j := 0 to |batch|
        invariant Valid() && old(tr) <= tr && acts == old(acts) + batch[..j] && Now().At(t) == old(Now()).At(t)
      {
        ghost var u := Now();
        OthersKeepPhase(u, batch[j], t);
        var s := Step(Now(), batch[j], Code);
        myData, threads, added, consumed, timeouts := s.data, s.threads, s.added, s.consumed, s.timeouts;
        Record(batch[j], u);
      }
    }

    /** WQ_WAKE_UP and WQ_WAKE_UP_ALL: adds the argument in one step of the run. The value returned is read after the
        unlock and the wake-up, when others may have changed it: it is what has been added minus what has been consumed
        by then. */
    method WakeUp(t: Tid, arg: int, after: seq<Action>) returns (ret: int)
      requires Valid() && Now().At(t).Idle? && NotBy(after, t)
      modifies this
      ensures Valid() && old(tr) <= tr && acts == old(acts) + [Add(arg)] + after && Now().At(t).Idle?
      ensures ret == myData == added - consumed
    {
      ghost var s := Now();
      myData, added := myData + arg, added + arg;
      Record(Add(arg), s);
      Interfere(t, after);
      Balanced();
      ret := myData;
    }

    /** One of the three waits, from the moment t is counted as waiting: k rounds of the others, and then the step that
        ended it. The condition is tested before anything else counts. A test ends it only if the counter is positive, a
        signal or the timeout only if the last round brought it and the wait heeds it; else it is still waiting, the
        counter not positive, when all the rounds have been run. */
    method WaitEvent(t: Tid, wait: WaitKind, env: seq<Round>) returns (how: Ending, k: nat)
      requires Valid() && Now().At(t).Waiting? && Others(env, t)
      modifies this
      ensures Valid() && old(tr) <= tr && k <= |env| && acts == old(acts) + Played(env, k) + EndStep(how, t)
      ensures match how
              case StillWaiting => Now().At(t).Waiting? && k == |env| && myData <= 0
              case ByTest => Now().At(t).Passed? && tr[|acts| - 1].data > 0
              case BySignal => Now().At(t).Idle? && !wait.Plain? && k > 0 && env[k - 1].event.Signalled? && myData <= 0
              case ByTimeout => Now().At(t).Passed? && wait.Timed? && k > 0 && env[k - 1].event.TimedOut? && myData <= 0
    {
      hide Run, Step, EndStep;
      k := 0;
      while myData <= 0
        invariant Valid() && old(tr) <= tr && Now().At(t).Waiting?
        invariant k <= |env| && acts == old(acts) + Played(env, k)
        decreases |env| - k
      {
        if k == |env| {
          assert EndStep(StillWaiting, t) == [] by { NoEndStep(t); }
          return StillWaiting, k;
        }
        Interfere(t, env[k].others);
        var event := env[k].event;
        k := k + 1;
        if myData <= 0 && event.Signalled? && !wait.Plain? {
          Leave(t, BySignal);
          return BySignal, k;
        }
        if myData <= 0 && event.TimedOut? && wait.Timed? {
          Leave(t, ByTimeout);
          return ByTimeout, k;
        }
      }
      Leave(t, ByTest);
      how := ByTest;
    }

    lemma NoEndStep(t: Tid)
      ensures EndStep(StillWaiting, t) == []
    {}

    /** The step that ends the wait of t. */
    method Leave(t: Tid, how: Ending)
      requires Valid() && Now().At(t).Waiting? && !how.StillWaiting? && (how.ByTest? <==> myData > 0)
      modifies this`threads, this`timeouts, this`tr, this`acts
      ensures Valid() && tr == old(tr) + [Now()] && acts == old(acts) + EndStep(how, t)
      ensures Now().At(t) == if how.BySignal? then Idle else Passed
    {
      hide Run;
      ghost var s := Now();
      if how.ByTimeout? { timeouts := timeouts + 1; }
      threads := threads[t := if how.BySignal? then Idle else Passed];
      Record(EndStep(how, t)[0], s);
    }

    /** The decrement after the wait, and the return. */
    method Consume(t: Tid, window: seq<Action>, after: seq<Action>) returns (ret: int)
      requires Valid() && Now().At(t).Passed? && NotBy(window, t) && NotBy(after, t)
      modifies this
      ensures Valid() && old(tr) <= tr && acts == old(acts) + window + [Decrement(t)] + after && Now().At(t).Idle?
      ensures ret == myData == added - consumed
    {
      hide Run;
      Interfere(t, window);
      ghost var u := Now();
      myData, consumed, threads := myData - 1, consumed + 1, threads[t := Idle];
      Record(Decrement(t), u);
      Interfere(t, after);
      Balanced();
      ret := myData;
    }

    /** A consumer, with any of the three waits: the run that it makes, step by step. It begins to wait; k rounds pass;
        a step ends the wait, if one does; and if that was a test of a positive counter or a timeout it decrements once,
        after one more round in which others may step, so that the counter need not be positive any more. The value
        returned is again read after the unlock. */
    method Wq(t: Tid, wait: WaitKind, env: seq<Round>, after: seq<Action>) returns (r: Outcome, how: Ending, k: nat)
      requires Valid() && Now().At(t).Idle? && Others(env, t) && NotBy(after, t)
      modifies this
      ensures Valid() && old(tr) <= tr && k <= |env|
      ensures acts == old(acts) + [Wait(t)] + Played(env, k) + EndStep(how, t)
                      + if r.Consumed? then OthersAt(env, k) + [Decrement(t)] + after else []
      ensures r.Consumed? <==> how.ByTest? || how.ByTimeout?
      ensures r.Consumed? ==> Now().At(t).Idle? && r.ret == myData == added - consumed
      ensures how.ByTest? ==> tr[|old(acts)| + 1 + |Played(env, k)|].data > 0
      ensures how.ByTimeout? ==> wait.Timed? && k > 0 && env[k - 1].event.TimedOut?
      ensures r.Interrupted? <==> how.BySignal?
      ensures r.Interrupted? ==> Now().At(t).Idle? && !wait.Plain? && k > 0 && env[k - 1].event.Signalled?
      ensures r.Blocked? ==> Now().At(t).Waiting? && k == |env| && myData <= 0
    {
      hide Run, Step, Played;
      StartWaiting(t);
      how, k := WaitEvent(t, wait, env);
      if how.StillWaiting? {
        r := Blocked;
      } else if how.BySignal? {
        r := Interrupted;
      } else {
        var ret := Consume(t, OthersAt(env, k), after);
        r := Consumed(ret);
      }
    }

    method StartWaiting(t: Tid)
      requires Valid() && Now().At(t).Idle?
      modifies this`threads, this`tr, this`acts
      ensures Valid() && tr == old(tr) + [Now()] && acts == old(acts) + [Wait(t)] && Now().At(t).Waiting?
    {
      ghost var s := Now();
      threads := threads[t := Waiting];
      Record(Wait(t), s);
    }
  }
}

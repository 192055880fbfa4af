/**
  blocking_io/challenge4/ch4_mod_201711395.c: a list of messages with a separate counter, and readers that wait for
  `msg_count > 0` without the lock. Sections under my_lock are single steps; evaluating the wait condition is a step
  of its own, as is going on after it. `sent` and `got` record what was written and read; no step looks at them.
 */
module BlockingFifo {
  import opened Options
  import opened Runs

  type Tid = nat
  const BUF_SIZE: int := 128

  datatype Msg = Msg(len: int, text: seq<char>)

  /** Reading a message from an empty list is a fault: list_entry of the head is not a message. */
  datatype Phase =
    | Idle
    | Checking      // in wait_event_interruptible, about to test the condition
    | Asleep        // the condition was false; waits for a wake-up
    | Woken         // past the wait, about to lock and take the first message

  datatype Sys = Sys(list: seq<Msg>, count: int, threads: map<Tid, Phase>, sent: seq<Msg>, got: seq<Msg>, fault: bool) {
    function At(t: Tid): Phase { if t in threads then threads[t] else Idle }
    function Goto(t: Tid, ph: Phase): Sys { this.(threads := threads[t := ph]) }
    /** Take the first message, decrement the counter, return. */
    function Pop(t: Tid): Sys
      requires list != []
    {
      this.(list := list[1..], count := count - 1, got := got + [list[0]]).Goto(t, Idle)
    }
  }

  datatype Action = Read(t: Tid) | Check(t: Tid) | Signal(t: Tid) | Take(t: Tid) | Write(msg: Msg)

  function WakeAll(threads: map<Tid, Phase>): map<Tid, Phase> {
    map t | t in threads :: if threads[t].Asleep? then Checking else threads[t]
  }

  /** The code as written, or repaired: re-check the list after locking, and return when a signal ends the wait. */
  function Step(s: Sys, a: Action, repaired: bool): Sys {
    if s.fault then s else
    match a
    case Read(t) =>
      if !s.At(t).Idle? then s else if s.list == [] then s.Goto(t, Checking) else s.Pop(t)
    case Check(t) =>
      if !s.At(t).Checking? then s else s.Goto(t, if s.count > 0 then Woken else Asleep)
    case Signal(t) =>
      if s.At(t).Checking? || s.At(t).Asleep? then s.Goto(t, if repaired then Idle else Woken) else s
    case Take(t) =>
      if !s.At(t).Woken? then s
      else if s.list != [] then s.Pop(t)
      else if repaired then s.Goto(t, Checking) else s.(fault := true)
    case Write(msg) =>
      if msg.len >= BUF_SIZE then s
      else s.(list := s.list + [msg], count := s.count + 1, sent := s.sent + [msg], threads := WakeAll(s.threads))
  }

  function CodeStep(s: Sys, a: Action): Sys { Step(s, a, false) }
  function RepairedStep(s: Sys, a: Action): Sys { Step(s, a, true) }

  ghost predicate Initial(s: Sys) { s == Sys([], 0, map[], [], [], false) }

  ghost predicate Inv(s: Sys) {
    && s.count == |s.list| && s.sent == s.got + s.list
    && forall t: Tid :: s.At(t).Asleep? ==> s.list == []
  }

  lemma StepKeepsInv(s: Sys, a: Action, repaired: bool)
    requires Inv(s)
    ensures Inv(Step(s, a, repaired))
  {
    var s' := Step(s, a, repaired);
    if a.Write? && s' != s {
      assert s.got + (s.list + [a.msg]) == s.sent + [a.msg];
      assert forall t: Tid :: !s'.At(t).Asleep?;
    } else if s.list != [] {
      assert s.got + s.list == (s.got + [s.list[0]]) + s.list[1..];
      assert forall t: Tid :: !s.At(t).Asleep?;
      assert forall t: Tid :: s'.At(t).Asleep? ==> s.At(t).Asleep?;
    }
  }

  /** Main result, with the code's steps and with the repaired ones alike: messages come out in the order they went in,
      none lost or invented; the counter is the length of the list; and no reader sleeps while a message waits. */
  lemma {:induction false} FifoAndNoLostWakeup(tr: seq<Sys>, acts: seq<Action>, k: nat, repaired: bool)
    requires Run(if repaired then RepairedStep else CodeStep, tr, acts) && Initial(tr[0]) && k <= |acts|
    ensures Inv(tr[k])
  {
    if k > 0 {
      FifoAndNoLostWakeup(tr, acts, k - 1, repaired);
      assert Follows(if repaired then RepairedStep else CodeStep, tr, acts, k - 1);
      StepKeepsInv(tr[k - 1], acts[k - 1], repaired);
    }
  }

  /** Main result: with the re-check, an empty list is never read, whatever readers and signals there are. */
  lemma {:induction false} RepairedNeverFaults(tr: seq<Sys>, acts: seq<Action>, k: nat)
    requires Run(RepairedStep, tr, acts) && Initial(tr[0]) && k <= |acts|
    ensures !tr[k].fault
  {
    if k > 0 {
      RepairedNeverFaults(tr, acts, k - 1);
      assert Follows(RepairedStep, tr, acts, k - 1);
    }
  }

  /** Only these readers, and signals only if allowed. */
  ghost predicate Allowed(acts: seq<Action>, readers: set<Tid>, signals: bool) {
    forall i :: 0 <= i < |acts| ==> (!acts[i].Write? ==> acts[i].t in readers) && (acts[i].Signal? ==> signals)
  }

  /** No schedule of these readers makes the code read an empty list. */
  ghost predicate SafeFor(readers: set<Tid>, signals: bool) {
    forall tr: seq<Sys>, acts: seq<Action> ::
      Run(CodeStep, tr, acts) && Initial(tr[0]) && Allowed(acts, readers, signals) ==> !tr[|acts|].fault
  }

  /** One reader without signals: what it was woken for is still there when it takes it. */
  lemma {:induction false} OneReader(tr: seq<Sys>, acts: seq<Action>, k: nat, readers: set<Tid>)
    requires Run(CodeStep, tr, acts) && Initial(tr[0]) && k <= |acts| && |readers| <= 1 && Allowed(acts, readers, false)
    ensures Inv(tr[k]) && !tr[k].fault && forall t: Tid :: tr[k].At(t).Woken? ==> t in readers && tr[k].list != []
  {
    if k > 0 {
      OneReader(tr, acts, k - 1, readers);
      assert Follows(CodeStep, tr, acts, k - 1);
      StepKeepsInv(tr[k - 1], acts[k - 1], false);
      var a := acts[k - 1];
      if !a.Write? { OnlyMember(readers, a.t); }
      forall t: Tid | tr[k].At(t).Woken? ensures t in readers && tr[k].list != [] {
        assert tr[k - 1].At(t).Woken? || (!a.Write? && a.t == t);
      }
    }
  }

  lemma OnlyMember(readers: set<Tid>, t: Tid)
    requires |readers| <= 1 && t in readers
    ensures readers == {t}
  {
    assert |readers - {t}| == |readers| - 1;
  }

  /** Two readers wait, one message arrives, both are past the test, the second finds nothing. */
  lemma TwoReadersFault(t: Tid, u: Tid)
    requires t != u
    ensures !SafeFor({t, u}, false)
  {
    var m := Msg(0, []);
    var s := Sys([], 0, map[], [], [], false);
    var a1 := [Read(t)];
    var a2 := a1 + [Read(u)];
    var a3 := a2 + [Write(m)];
    var a4 := a3 + [Check(t)];
    var a5 := a4 + [Check(u)];
    var a6 := a5 + [Take(t)];
    var a7 := a6 + [Take(u)];
    AfterSnoc(CodeStep, s, [], Read(t));
    assert [] + [Read(t)] == a1;
    AfterSnoc(CodeStep, s, a1, Read(u));
    AfterSnoc(CodeStep, s, a2, Write(m));
    AfterSnoc(CodeStep, s, a3, Check(t));
    AfterSnoc(CodeStep, s, a4, Check(u));
    AfterSnoc(CodeStep, s, a5, Take(t));
    AfterSnoc(CodeStep, s, a6, Take(u));
    assert After(CodeStep, s, a7).fault;
    var tr := RunOf(CodeStep, s, a7);
    assert Allowed(a7, {t, u}, false);
  }

  /** A signal sends a lone reader on to an empty list. */
  lemma SignalFault(t: Tid)
    ensures !SafeFor({t}, true)
  {
    var s := Sys([], 0, map[], [], [], false);
    var a1 := [Read(t)];
    var a2 := a1 + [Signal(t)];
    var a3 := a2 + [Take(t)];
    AfterSnoc(CodeStep, s, [], Read(t));
    assert [] + [Read(t)] == a1;
    AfterSnoc(CodeStep, s, a1, Signal(t));
    AfterSnoc(CodeStep, s, a2, Take(t));
    var tr := RunOf(CodeStep, s, a3);
    assert Allowed(a3, {t}, true);
  }

  lemma SafeForFewer(few: set<Tid>, readers: set<Tid>, less: bool, signals: bool)
    requires few <= readers && (less ==> signals) && SafeFor(readers, signals)
    ensures SafeFor(few, less)
  {
    forall tr: seq<Sys>, acts: seq<Action> | Run(CodeStep, tr, acts) && Initial(tr[0]) && Allowed(acts, few, less)
      ensures !tr[|acts|].fault
    {
      assert Allowed(acts, readers, signals);
    }
  }

  /** Main result: exactly when the code as written never reads an empty list: there is at most one reader,
      and if there is one, no signal can end its wait. */
  lemma SafeExactly(readers: set<Tid>, signals: bool)
    ensures SafeFor(readers, signals) <==> readers == {} || (|readers| == 1 && !signals)
  {
    if readers == {} || (|readers| == 1 && !signals) {
      forall tr: seq<Sys>, acts: seq<Action> |
        Run(CodeStep, tr, acts) && Initial(tr[0]) && Allowed(acts, readers, signals)
        ensures !tr[|acts|].fault
      {
        assert Allowed(acts, readers, false);
        OneReader(tr, acts, |acts|, readers);
      }
    } else if SafeFor(readers, signals) {
      var t :| t in readers;
      if signals {
        SafeForFewer({t}, readers, true, signals);
        SignalFault(t);
      } else {
        assert |readers - {t}| == |readers| - 1;
        var u :| u in readers - {t};
        SafeForFewer({t, u}, readers, false, signals);
        TwoReadersFault(t, u);
      }
    }
  }

  // ---------------------------------------------------------------- the device

  function StepOf(repaired: bool): (Sys, Action) -> Sys { if repaired then RepairedStep else CodeStep }

  predicate By(a: Action, t: Tid) { !a.Write? && a.t == t }

  ghost predicate NotBy(batch: seq<Action>, t: Tid) { forall i :: 0 <= i < |batch| ==> !By(batch[i], t) }

  /** One round of waiting: steps of other threads, and perhaps a signal. */
  datatype Round = Round(others: seq<Action>, signal: bool)

  ghost predicate Others(env: seq<Round>, t: Tid) { forall k :: 0 <= k < |env| ==> NotBy(env[k].others, t) }

  /** The steps of a schedule that are not t's own. */
  function OthersOf(acts: seq<Action>, t: Tid): seq<Action> {
    if acts == [] then []
    else OthersOf(acts[..|acts| - 1], t) + if By(acts[|acts| - 1], t) then [] else [acts[|acts| - 1]]
  }

  lemma OthersOfSnoc(acts: seq<Action>, a: Action, t: Tid)
    ensures OthersOf(acts + [a], t) == OthersOf(acts, t) + if By(a, t) then [] else [a]
  {
    assert (acts + [a])[..|acts|] == acts;
  }

  lemma {:induction false} OthersOfBatch(acts: seq<Action>, batch: seq<Action>, t: Tid)
    requires NotBy(batch, t)
    ensures OthersOf(acts + batch, t) == OthersOf(acts, t) + batch
  {
    if batch == [] {
      assert acts + batch == acts;
    } else {
      var front, last := batch[..|batch| - 1], batch[|batch| - 1];
      OthersOfBatch(acts, front, t);
      OthersOfSnoc(acts + front, last, t);
      assert acts + front + [last] == acts + batch;
    }
  }

  /** What the others do in the first k rounds. */
  function Played(env: seq<Round>, k: nat): seq<Action>
    requires k <= |env|
  {
    if k == 0 then [] else Played(env, k - 1) + env[k - 1].others
  }

  /** Blocked: the environment ended during the wait. Interrupted: only the repaired read returns for a signal. Crashed:
      some reader, perhaps this one, has taken the first message of an empty list. */
  datatype Outcome = Blocked | Interrupted | Crashed | Got(msg: Msg)

  /** Another thread's step moves t at most from its sleep back to the test. */
  lemma OthersKeepPhase(s: Sys, a: Action, t: Tid, repaired: bool)
    requires !By(a, t)
    ensures Step(s, a, repaired).At(t) == s.At(t) || (s.At(t).Asleep? && Step(s, a, repaired).At(t).Checking?)
  {}

  /** ch4_mod in its own form, as written or repaired; `sent`, `got` and `fault` are those of Sys. Other threads step
      between two lock sections of a caller, and the ghost fields record the run. */
  class Device {
    const repaired: bool
    var list: seq<Msg>
    var msgCount: int
    var threads: map<Tid, Phase>
    var sent: seq<Msg>
    var got: seq<Msg>
    var fault: bool
    ghost var tr: seq<Sys>
    ghost var acts: seq<Action>

    function Now(): Sys
      reads this
    {
      Sys(list, msgCount, threads, sent, got, fault)
    }

    ghost predicate Recorded()
      reads this
    {
      |tr| == |acts| + 1 && Run(StepOf(repaired), tr, acts) && Initial(tr[0])
    }

    ghost predicate Valid()
      reads this
    {
      Recorded() && tr[|acts|] == Now()
    }

    constructor (repaired: bool)
      ensures Valid() && this.repaired == repaired && Initial(Now()) && acts == []
    {
      this.repaired := repaired;
      list, msgCount, threads, sent, got, fault := [], 0, map[], [], [], false;
      new;
      tr, acts := [Now()], [];
    }

    lemma Safe()
      requires Valid()
      ensures Inv(Now()) && (repaired ==> !fault)
    {
      FifoAndNoLostWakeup(tr, acts, |acts|, repaired);
      if repaired { RepairedNeverFaults(tr, acts, |acts|); }
    }

    ghost method Record(a: Action, s: Sys)
      requires Recorded() && tr[|acts|] == s && Now() == Step(s, a, repaired)
      modifies this`tr, this`acts
      ensures Valid() && tr == old(tr) + [Now()] && acts == old(acts) + [a]
    {
      hide Step;
      Extends(StepOf(repaired), tr, acts, a);
      tr, acts := tr + [Now()], acts + [a];
    }

    method Interfere(t: Tid, batch: seq<Action>)
      requires Valid() && NotBy(batch, t)
      modifies this
      ensures Valid() && old(tr) <= tr && acts == old(acts) + batch
      ensures OthersOf(acts, t) == OthersOf(old(acts), t) + batch
      ensures Now().At(t) == old(Now().At(t)) || (old(Now().At(t)).Asleep? && Now().At(t).Checking?)
    {
      hide Step, Run;
      for j := 0 to |batch|
        invariant Valid() && old(tr) <= tr && acts == old(acts) + batch[..j]
        invariant Now().At(t) == old(Now().At(t)) || (old(Now().At(t)).Asleep? && Now().At(t).Checking?)
      {
        ghost var u := Now();
        OthersKeepPhase(u, batch[j], t, repaired);
        var s := Step(Now(), batch[j], repaired);
        list, msgCount, threads, sent, got, fault := s.list, s.count, s.threads, s.sent, s.got, s.fault;
        Record(batch[j], u);
      }
      assert batch[..|batch|] == batch;
      OthersOfBatch(old(acts), batch, t);
    }

    /** ch4_write: a text that is too long is refused with no change; any other is appended to what was sent, is
        counted, and leaves no reader asleep. */
    method Write(msg: Msg) returns (ret: int)
      requires Valid() && !fault
      modifies this
      ensures Valid() && tr == old(tr) + [Now()] && acts == old(acts) + [Action.Write(msg)] && got == old(got) && !fault
      ensures if msg.len >= BUF_SIZE then ret == -1 && sent == old(sent)
              else ret == 0 && sent == old(sent) + [msg] && forall t: Tid :: !Now().At(t).Asleep?
      ensures msgCount == |list| && sent == got + list
    {
      ghost var s := Now();
      if msg.len >= BUF_SIZE {
        ret := -1;
      } else {
        list := list + [msg];
        msgCount := msgCount + 1;
        sent, threads := sent + [msg], WakeAll(threads);
        ret := 0;
      }
      Record(Action.Write(msg), s);
      Safe();
    }

    /** What t got is the oldest message that was there, taken by step i of the run, and counted as received there. */
    ghost predicate TakenAt(t: Tid, msg: Msg, i: nat)
      reads this
    {
      && i < |acts| == |tr| - 1 && (acts[i] == Action.Read(t) || acts[i] == Take(t))
      && tr[i].list != [] && msg == tr[i].list[0] && tr[i + 1].list == tr[i].list[1..]
         && tr[i + 1].got == tr[i].got + [msg]
    }

    /** Lines 45 to 53: take the first message, which must be there, and return. */
    method Pop(t: Tid, a: Action) returns (msg: Msg)
      requires Recorded() && tr[|acts|] == Now() && !fault && list != []
      requires (a == Action.Read(t) && Now().At(t).Idle?) || (a == Take(t) && Now().At(t).Woken?)
      modifies this
      ensures Valid() && tr == old(tr) + [Now()] && acts == old(acts) + [a] && !fault
      ensures Now().At(t).Idle? && TakenAt(t, msg, |old(acts)|) && OthersOf(acts, t) == OthersOf(old(acts), t)
    {
      hide Run;
      OthersOfSnoc(acts, a, t);
      ghost var s := Now();
      msg := list[0];
      list, msgCount := list[1..], msgCount - 1;
      got, threads := got + [msg], threads[t := Idle];
      Record(a, s);
    }

    /** A step that only moves t from one phase to another. */
    method Move(t: Tid, a: Action, ph: Phase)
      requires Valid() && By(a, t) && Now().Goto(t, ph) == Step(Now(), a, repaired)
      modifies this`threads, this`tr, this`acts
      ensures Valid() && tr == old(tr) + [Now()] && acts == old(acts) + [a] && Now().At(t) == ph
      ensures OthersOf(acts, t) == OthersOf(old(acts), t)
    {
      hide Step, Run;
      OthersOfSnoc(acts, a, t);
      ghost var s := Now();
      threads := threads[t := ph];
      Record(a, s);
    }

    /** The list is empty: unlock and wait. */
    method Enter(t: Tid)
      requires Valid() && !fault && list == [] && Now().At(t).Idle?
      modifies this`threads, this`tr, this`acts
      ensures Valid() && tr == old(tr) + [Now()] && acts == old(acts) + [Action.Read(t)] && Now().At(t).Checking?
      ensures OthersOf(acts, t) == OthersOf(old(acts), t)
    {
      hide Run;
      Move(t, Action.Read(t), Checking);
    }

    /** Apart from its own steps, the run since `before` is the first k rounds of the others. */
    ghost predicate PlayedFrom(t: Tid, before: seq<Action>, env: seq<Round>, k: nat)
      reads this
    {
      k <= |env| && OthersOf(acts, t) == before + Played(env, k)
    }

    /** One test of the condition. */
    method Test(t: Tid) returns (passed: bool)
      requires Valid() && !fault && Now().At(t).Checking?
      modifies this`threads, this`tr, this`acts
      ensures Valid() && tr == old(tr) + [Now()] && acts == old(acts) + [Check(t)] && passed == (msgCount > 0)
      ensures Now().At(t) == (if passed then Woken else Asleep) && OthersOf(acts, t) == OthersOf(old(acts), t)
    {
      hide Run;
      passed := msgCount > 0;
      Move(t, Check(t), if passed then Woken else Asleep);
    }

    /** A signal ends the wait; as written the reader goes on all the same. */
    method Interrupt(t: Tid)
      requires Valid() && !fault && (Now().At(t).Checking? || Now().At(t).Asleep?)
      modifies this`threads, this`tr, this`acts
      ensures Valid() && tr == old(tr) + [Now()] && acts == old(acts) + [Signal(t)]
      ensures Now().At(t) == (if repaired then Idle else Woken) && OthersOf(acts, t) == OthersOf(old(acts), t)
    {
      hide Run;
      Move(t, Signal(t), if repaired then Idle else Woken);
    }

    /** One round of sleep: the others step, and then a signal may end the wait if the counter is still zero. */
    method SleepOn(t: Tid, env: seq<Round>, k: nat, ghost before: seq<Action>) returns (signalled: bool)
      requires Valid() && !fault && Now().At(t).Asleep? && Others(env, t)
      requires k < |env| && PlayedFrom(t, before, env, k)
      modifies this
      ensures Valid() && old(tr) <= tr && old(acts) <= acts && PlayedFrom(t, before, env, k + 1)
      ensures signalled ==> !fault && env[k].signal && |acts| > |old(acts)| && acts[|acts| - 1] == Signal(t)
      ensures signalled ==> Now().At(t) == if repaired then Idle else Woken
      ensures !signalled ==> Now().At(t).Checking? || Now().At(t).Asleep?
      ensures forall i :: |old(acts)| <= i < |acts| && acts[i] == Signal(t) ==> signalled && i == |acts| - 1
    {
      hide Run, Inv, Step, OthersOf, Played;
      PlayedNext(env, k);
      Interfere(t, env[k].others);
      signalled := !fault && env[k].signal && msgCount <= 0;
      if signalled { Interrupt(t); }
    }

    /** wait_event_interruptible: tests the counter, sleeps until it is woken, and tests again; if the counter is still
        zero a signal ends the wait. Blocked, Interrupted and Crashed as above; None: on to the lock. It goes on only
        with a positive counter or after a signal, which was in the last round; it is Blocked only if all the rounds
        have been run and there is still nothing to read. */
    method WaitEvent(t: Tid, env: seq<Round>, from: nat, ghost before: seq<Action>) returns (r: Option<Outcome>, k: nat)
      requires Valid() && !fault && Now().At(t).Checking? && Others(env, t) && PlayedFrom(t, before, env, from)
      modifies this
      ensures Valid() && old(tr) <= tr && old(acts) <= acts && from <= k && PlayedFrom(t, before, env, k)
      ensures match r
              case None => !fault && Now().At(t).Woken? && (repaired ==> list != [])
                           && (list != [] || (acts[|acts| - 1] == Signal(t) && k > from))
              case Some(out) => !out.Got? && (out.Crashed? <==> fault)
                                && (out.Interrupted? ==> repaired && Now().At(t).Idle? && acts[|acts| - 1] == Signal(t))
                                && (out.Blocked? ==> k == |env| && Now().At(t).Asleep? && list == [])
      ensures forall i :: |old(acts)| <= i < |acts| && acts[i] == Signal(t) ==>
                i == |acts| - 1 && from < k && env[k - 1].signal
    {
      hide Run, Inv, Step, OthersOf, Played;
      k := from;
      while true
        invariant Valid() && !fault && old(tr) <= tr && old(acts) <= acts && from <= k && PlayedFrom(t, before, env, k)
        invariant Now().At(t).Checking? || Now().At(t).Asleep?
        invariant forall i :: |old(acts)| <= i < |acts| ==> acts[i] != Signal(t)
        decreases |env| - k
      {
        if Now().At(t).Checking? {
          var passed := Test(t);
          if passed {
            Counted();
            return None, k;
          }
        }
        Counted();
        if k == |env| { return Some(Blocked), k; }
        var signalled := SleepOn(t, env, k, before);
        k := k + 1;
        if fault { return Some(Crashed), k; }
        if signalled { return if repaired then Some(Interrupted) else None, k; }
      }
    }

    lemma PlayedNext(env: seq<Round>, k: nat)
      requires k < |env|
      ensures Played(env, k + 1) == Played(env, k) + env[k].others
    {}

    lemma Counted()
      requires Valid()
      ensures msgCount == |list| && (repaired ==> !fault)
      ensures forall t: Tid :: Now().At(t).Asleep? ==> list == []
    {
      Safe();
    }

    function Window(env: seq<Round>, k: nat): seq<Action> { if k < |env| then env[k].others else [] }

    /** ch4_read as written, under any interference by other readers, writers and signals; it ends within n rounds of
        it. What it gets is the oldest message there is. Only other readers or signals can make it crash, or find that
        another reader has crashed. It is still asleep only if all rounds have passed and there is nothing to read. */
    method Read(t: Tid, env: seq<Round>) returns (r: Outcome, ghost at: nat, ghost n: nat)
      requires Valid() && !repaired && !fault && Now().At(t).Idle? && Others(env, t)
      modifies this
      ensures Valid() && old(tr) <= tr && old(acts) <= acts && (r.Crashed? <==> fault) && !r.Interrupted?
      ensures PlayedFrom(t, OthersOf(old(acts), t), env, n)
      ensures r.Got? ==> Now().At(t).Idle? && |old(acts)| <= at && TakenAt(t, r.msg, at)
      ensures Allowed(acts, {t}, false) ==> !r.Crashed?
      ensures r.Blocked? ==> Now().At(t).Asleep? && n == |env| && list == []
      ensures old(list) != [] ==> r == Got(old(list)[0])
    {
      hide Run, Inv, TakenAt, OthersOf, Played;
      at, n := |acts|, 0;
      NothingPlayed(t, env);
      if list != [] {
        var msg := Pop(t, Action.Read(t));
        OldestTaken(t, msg, at);
        return Got(msg), at, 0;
      }
      ghost var before := OthersOf(acts, t);
      Enter(t);
      var w, k := WaitEvent(t, env, 0, before);
      if w.Some? {
        r, n := w.value, k;
      } else {
        n := ReachLock(t, env, k, before);
        r, at := TakeFirst(t);
      }
      if Allowed(acts, {t}, false) { Alone(t); }
    }

    lemma NothingPlayed(t: Tid, env: seq<Round>)
      ensures PlayedFrom(t, OthersOf(acts, t), env, 0)
    {}

    lemma OldestTaken(t: Tid, msg: Msg, i: nat)
      requires TakenAt(t, msg, i)
      ensures i < |tr| && tr[i].list != [] && msg == tr[i].list[0]
    {}

    /** Between the wait and the lock one more round may pass. */
    method ReachLock(t: Tid, env: seq<Round>, k: nat, ghost before: seq<Action>) returns (n: nat)
      requires Valid() && Now().At(t).Woken? && Others(env, t) && PlayedFrom(t, before, env, k)
      modifies this
      ensures Valid() && old(tr) <= tr && old(acts) <= acts && Now().At(t).Woken? && PlayedFrom(t, before, env, n)
      ensures if k < |env| then n == k + 1 else n == k && Now() == old(Now())
    {
      hide Run, Inv, Step, OthersOf, Played;
      n := k;
      if k < |env| {
        PlayedNext(env, k);
        Interfere(t, env[k].others);
        n := k + 1;
      }
    }

    /** After the wait, without another look at the list. */
    method TakeFirst(t: Tid) returns (r: Outcome, ghost at: nat)
      requires Valid() && !repaired && Now().At(t).Woken?
      modifies this
      ensures Valid() && old(tr) <= tr && old(acts) <= acts && (r.Crashed? <==> fault) && (r.Got? || r.Crashed?)
      ensures r.Got? ==> Now().At(t).Idle? && |old(acts)| <= at && TakenAt(t, r.msg, at)
      ensures OthersOf(acts, t) == OthersOf(old(acts), t)
    {
      hide Run, Inv, TakenAt, OthersOf;
      at := |acts|;
      if fault { return Crashed, at; }
      if list == [] {
        ghost var s := Now();
        OthersOfSnoc(acts, Take(t), t);
        fault := true;
        Record(Take(t), s);
        return Crashed, at;
      }
      var msg := Pop(t, Take(t));
      r := Got(msg);
    }

    lemma Alone(t: Tid)
      requires Valid() && !repaired && Allowed(acts, {t}, false)
      ensures !fault
    {
      OneReader(tr, acts, |acts|, {t});
    }

    /** The repaired read looks at the list again under the lock, and returns when a signal ends its wait. It never
        crashes, whoever else reads. */
    method ReadRepaired(t: Tid, env: seq<Round>) returns (r: Outcome, ghost at: nat, ghost n: nat)
      requires Valid() && repaired && Now().At(t).Idle? && Others(env, t)
      modifies this
      ensures Valid() && old(tr) <= tr && old(acts) <= acts && !r.Crashed? && !fault
      ensures PlayedFrom(t, OthersOf(old(acts), t), env, n)
      ensures r.Got? ==> Now().At(t).Idle? && |old(acts)| <= at && TakenAt(t, r.msg, at)
      ensures r.Interrupted? ==> Now().At(t).Idle? && n > 0 && env[n - 1].signal
      ensures r.Blocked? ==> Now().At(t).Asleep? && n == |env| && list == []
      ensures old(list) != [] ==> r == Got(old(list)[0])
    {
      hide Run, Inv, TakenAt, Step, OthersOf, Played;
      Counted();
      at, n := |acts|, 0;
      NothingPlayed(t, env);
      if list != [] {
        var msg := Pop(t, Action.Read(t));
        OldestTaken(t, msg, at);
        return Got(msg), at, 0;
      }
      ghost var before := OthersOf(acts, t);
      Enter(t);
      var k := 0;
      while true
        invariant Valid() && !fault && old(tr) <= tr && old(acts) <= acts && Now().At(t).Checking?
        invariant PlayedFrom(t, before, env, k)
        decreases |env| - k
      {
        var w;
        w, k := WaitEvent(t, env, k, before);
        Counted();
        if w.Some? { return w.value, at, k; }
        k := ReachLock(t, env, k, before);
        Counted();
        var msg;
        msg, at := TakeOrWait(t);
        if msg.Some? { return Got(msg.value), at, k; }
      }
    }

    /** Another look at the list under the lock. */
    method TakeOrWait(t: Tid) returns (msg: Option<Msg>, ghost at: nat)
      requires Valid() && repaired && !fault && Now().At(t).Woken?
      modifies this
      ensures Valid() && old(tr) <= tr && old(acts) <= acts && !fault && (msg.None? <==> old(list) == [])
      ensures if msg.Some? then Now().At(t).Idle? && |old(acts)| <= at && TakenAt(t, msg.value, at)
              else Now().At(t).Checking?
      ensures OthersOf(acts, t) == OthersOf(old(acts), t)
    {
      hide Run, Inv, TakenAt, OthersOf;
      at := |acts|;
      if list == [] {
        Move(t, Take(t), Checking);
        msg := None;
      } else {
        var m := Pop(t, Take(t));
        msg := Some(m);
      }
    }
  }
}

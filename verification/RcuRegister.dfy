/**
  synchronization/challenge9/simple_rcu/simple_rcu.c: a pointer `my_data` that readers dereference twice, half a second
  apart, inside one read section, while writers under a spin lock swap it, wait for a grace period and free.
  The conventions are those of RcuList: every schedule is a run, an impossible action changes nothing, and touching
  memory that is not allocated sets `fault`.
 */
module RcuRegister {
  import opened Options
  import opened Runs
  import opened Heaps

  type Tid = nat
  type Ptr = nat

  datatype Phase =
    | Idle
    | ReadDeref
    | ReadFirst(at: Ptr)
    | ReadSecond(at: Ptr, first: nat)
    | ReadDone(first: nat, second: nat)
    | WriteAlloc(arg: nat)
    | WriteReady(arg: nat, copy: Ptr)
    | WriteSwapped(victim: Ptr)
    | WriteGrace(victim: Ptr)
    | WriteFree(victim: Ptr)
    | WriteUnlock
  {
    predicate InSection() { ReadDeref? || ReadFirst? || ReadSecond? || ReadDone? }
    predicate Writing() { !Idle? && !InSection() }
    predicate Unlinked() { WriteSwapped? || WriteGrace? || WriteFree? }
  }

  datatype Sys = Sys(heap: map<Ptr, nat>, cur: Ptr, lock: Option<Tid>, grace: set<Tid>, threads: map<Tid, Phase>,
      fault: bool)
  {
    function At(t: Tid): Phase { if t in threads then threads[t] else Idle }
    function Goto(t: Tid, ph: Phase): Sys { this.(threads := threads[t := ph]) }
    function Fault(): Sys { this.(fault := true) }
    function Writer(): Phase { if lock.Some? then At(lock.value) else Idle }
    function Sections(): set<Tid> { set t | t in threads && threads[t].InSection() }
    /** The value the register holds. */
    function Value(): nat { if cur in heap then heap[cur] else 0 }
  }

  datatype Action = Read(t: Tid) | Write(t: Tid, arg: nat) | Go(t: Tid, addr: Ptr)

  function Step(s: Sys, a: Action): Sys {
    if s.fault then s else
    match a
    case Read(t) => if s.At(t).Idle? then s.Goto(t, ReadDeref) else s
    case Write(t, arg) => if s.At(t).Idle? && s.lock.None? then s.(lock := Some(t)).Goto(t, WriteAlloc(arg)) else s
    case Go(t, addr) =>
      match s.At(t)
      case ReadDeref => s.Goto(t, ReadFirst(s.cur))
      case ReadFirst(at) => if at in s.heap then s.Goto(t, ReadSecond(at, s.heap[at])) else s.Fault()
      case ReadSecond(at, first) => if at in s.heap then s.Goto(t, ReadDone(first, s.heap[at])) else s.Fault()
      case ReadDone(_, _) => s.(grace := s.grace - {t}).Goto(t, Idle)
      case WriteAlloc(arg) =>
        if addr in s.heap then s else s.(heap := s.heap[addr := arg]).Goto(t, WriteReady(arg, addr))
      case WriteReady(_, copy) => s.(cur := copy).Goto(t, WriteSwapped(s.cur))
      case WriteSwapped(victim) => s.(grace := s.Sections()).Goto(t, WriteGrace(victim))
      case WriteGrace(victim) => if s.grace == {} then s.Goto(t, WriteFree(victim)) else s
      case WriteFree(victim) =>
        if victim in s.heap then s.(heap := s.heap - {victim}).Goto(t, WriteUnlock) else s.Fault()
      case WriteUnlock => s.(lock := None).Goto(t, Idle)
      case Idle => s
  }

  ghost predicate Stale(s: Sys, t: Tid, at: Ptr) {
    match s.Writer()
    case WriteSwapped(victim) => at == victim
    case WriteGrace(victim) => at == victim && t in s.grace
    case _ => false
  }

  ghost predicate ReaderOk(s: Sys, t: Tid) {
    match s.At(t)
    case ReadFirst(at) => at in s.heap && (at == s.cur || Stale(s, t, at))
    case ReadSecond(at, first) => at in s.heap && (at == s.cur || Stale(s, t, at)) && s.heap[at] == first
    case ReadDone(first, second) => first == second
    case _ => true
  }

  function InFlight(s: Sys): set<Ptr> {
    match s.Writer()
    case WriteReady(_, copy) => {copy}
    case WriteSwapped(victim) => {victim}
    case WriteGrace(victim) => {victim}
    case WriteFree(victim) => {victim}
    case _ => {}
  }

  /** The invariant but for the readers' views. */
  ghost predicate Core(s: Sys) {
    && !s.fault && s.cur in s.heap && s.cur !in InFlight(s)
    && s.heap.Keys == {s.cur} + InFlight(s)
    && (s.Writer().WriteReady? ==> s.heap[s.Writer().copy] == s.Writer().arg)
    && (forall t: Tid :: s.At(t).Writing() <==> s.lock == Some(t))
  }

  ghost predicate Inv(s: Sys) { Core(s) && forall t: Tid :: ReaderOk(s, t) }

  lemma StepKeepsCore(s: Sys, a: Action)
    requires Core(s) && ReaderOk(s, a.t)
    ensures Core(Step(s, a))
    ensures Step(s, a).Value() == if Stores(s, a).Some? then Stores(s, a).value else s.Value()
  {
    assert s.At(a.t).Writing() <==> s.lock == Some(a.t);
  }

  /** After simple_rcu_init. */
  ghost predicate Initial(s: Sys) {
    Inv(s) && s.lock.None? && s.threads == map[] && s.Value() == 0
  }

  /** The value this action stores in the register, if it is the pointer assignment of a write. */
  function Stores(s: Sys, a: Action): Option<nat> {
    if a.Go? && !s.fault && s.At(a.t).WriteReady? then Some(s.At(a.t).arg) else None
  }

  /** Every step keeps the invariant and is one atomic register write or nothing. */
  lemma StepRefines(s: Sys, a: Action)
    requires Inv(s)
    ensures Inv(Step(s, a))
    ensures Step(s, a).Value() == if Stores(s, a).Some? then Stores(s, a).value else s.Value()
  {
    hide Core, ReaderOk, Step;
    assert ReaderOk(s, a.t);
    StepKeepsCore(s, a);
    forall u: Tid ensures ReaderOk(Step(s, a), u) {
      StepKeepsReader(s, a, u);
    }
  }

  lemma StepKeepsReader(s: Sys, a: Action, u: Tid)
    requires Inv(s)
    ensures ReaderOk(Step(s, a), u)
  {
    assert s.At(a.t).Writing() <==> s.lock == Some(a.t);
    assert ReaderOk(s, a.t) && ReaderOk(s, u);
  }

  lemma InvAlways(tr: seq<Sys>, acts: seq<Action>, k: nat)
    requires Run(Step, tr, acts) && Inv(tr[0]) && k <= |acts|
    ensures Inv(tr[k])
  {
    hide Inv, Step;
    forall s, a | Inv(s) ensures Inv(Step(s, a)) { StepRefines(s, a); }
    Always(Step, Inv, tr, acts, k);
  }

  /** Reader t dereferenced the pointer in the step after state k, when the register held v. */
  ghost predicate DerefAt(tr: seq<Sys>, k: nat, t: Tid, v: nat)
    requires k + 1 < |tr|
  {
    tr[k].At(t).ReadDeref? && tr[k + 1].At(t) == ReadFirst(tr[k].cur) && tr[k].Value() == v
  }

  ghost predicate InSectionFrom(tr: seq<Sys>, i: nat, j: nat, t: Tid) {
    i <= j < |tr| && tr[i].At(t) == ReadDeref && forall k :: i <= k <= j ==> tr[k].At(t).InSection()
  }

  /** What reader t has seen, or will see at `at`, is the value at its own dereference. */
  ghost predicate Tracked(tr: seq<Sys>, i: nat, j: nat, t: Tid)
    requires i <= j < |tr|
  {
    match tr[j].At(t)
    case ReadDeref => true
    case ReadFirst(at) => at in tr[j].heap && exists k :: i <= k < j && DerefAt(tr, k, t, tr[j].heap[at])
    case ReadSecond(at, first) => exists k :: i <= k < j && DerefAt(tr, k, t, first)
    case ReadDone(first, _) => exists k :: i <= k < j && DerefAt(tr, k, t, first)
    case _ => false
  }

  lemma ReaderUnmoved(s: Sys, a: Action, t: Tid)
    requires Inv(s) && Inv(Step(s, a)) && s.At(t).InSection() && (a.t != t || !a.Go?)
    ensures Step(s, a).At(t) == s.At(t)
    ensures s.At(t).ReadFirst? ==> s.At(t).at in s.heap && s.At(t).at in Step(s, a).heap
                                   && Step(s, a).heap[s.At(t).at] == s.heap[s.At(t).at]
  {
    assert ReaderOk(s, t) && ReaderOk(Step(s, a), t);
  }

  lemma ReaderMoved(s: Sys, a: Action)
    requires Inv(s) && s.At(a.t).InSection() && a.Go?
    ensures Step(s, a).heap == s.heap && Step(s, a).cur == s.cur && s.cur in s.heap
    ensures Step(s, a).At(a.t) == match s.At(a.t)
                                  case ReadDeref => ReadFirst(s.cur)
                                  case ReadFirst(at) => ReadSecond(at, if at in s.heap then s.heap[at] else 0)
                                  case ReadSecond(at, first) => ReadDone(first, if at in s.heap then s.heap[at] else 0)
                                  case _ => Idle
  {
    assert ReaderOk(s, a.t);
  }

  lemma TrackStep(tr: seq<Sys>, i: nat, j: nat, t: Tid, a: Action)
    requires i < j < |tr| && Tracked(tr, i, j - 1, t) && tr[j - 1].At(t).InSection() && tr[j].At(t).InSection()
    requires Inv(tr[j - 1]) && Inv(tr[j]) && tr[j] == Step(tr[j - 1], a)
    ensures Tracked(tr, i, j, t)
  {
    hide Inv, Step;
    var u := tr[j - 1];
    if a.Go? && a.t == t {
      ReaderMoved(u, a);
      if u.At(t).ReadDeref? { assert DerefAt(tr, j - 1, t, u.Value()); }
    } else {
      ReaderUnmoved(u, a, t);
    }
    if !u.At(t).ReadDeref? {
      var v := if u.At(t).ReadFirst? then u.heap[u.At(t).at] else u.At(t).first;
      var k :| i <= k < j - 1 && DerefAt(tr, k, t, v);
      assert DerefAt(tr, k, t, v);
    }
  }

  lemma {:induction false} TrackedThroughout(tr: seq<Sys>, acts: seq<Action>, i: nat, j: nat, t: Tid)
    requires Run(Step, tr, acts) && Inv(tr[0]) && InSectionFrom(tr, i, j, t)
    ensures Tracked(tr, i, j, t)
  {
    hide Inv, Step;
    if i < j {
      TrackedThroughout(tr, acts, i, j - 1, t);
      InvAlways(tr, acts, j - 1);
      InvAlways(tr, acts, j);
      assert Follows(Step, tr, acts, j - 1);
      TrackStep(tr, i, j, t, acts[j - 1]);
    }
  }

  /** Main result: the two reads of a section agree, and both are the register's value at the instant the section
      dereferenced the pointer: the read linearises there. No step ever touches freed memory. */
  lemma AtomicRead(tr: seq<Sys>, acts: seq<Action>, i: nat, j: nat, t: Tid)
    requires Run(Step, tr, acts) && Inv(tr[0]) && InSectionFrom(tr, i, j, t) && tr[j].At(t).ReadDone?
    ensures !tr[j].fault && tr[j].At(t).first == tr[j].At(t).second
    ensures exists k :: i <= k < j && DerefAt(tr, k, t, tr[j].At(t).second)
  {
    TrackedThroughout(tr, acts, i, j, t);
    InvAlways(tr, acts, j);
    assert ReaderOk(tr[j], t);
  }

  /** The last value stored by the first k actions of a run. */
  function LastStored(tr: seq<Sys>, acts: seq<Action>, k: nat): nat
    requires |tr| == |acts| + 1 && k <= |acts|
  {
    if k == 0 then tr[0].Value()
    else match Stores(tr[k - 1], acts[k - 1])
         case Some(v) => v
         case None => LastStored(tr, acts, k - 1)
  }

  /** Main result: the register holds the last value written, and the only other allocation is the one a write in
      progress has made and not yet published, or has unpublished and not yet freed. */
  lemma {:induction false} RegisterRefined(tr: seq<Sys>, acts: seq<Action>, k: nat)
    requires Run(Step, tr, acts) && Inv(tr[0]) && k <= |acts|
    ensures tr[k].Value() == LastStored(tr, acts, k)
    ensures |tr[k].heap| == if tr[k].Writer().WriteReady? || tr[k].Writer().Unlinked() then 2 else 1
  {
    hide Step, Inv;
    InvAlways(tr, acts, k);
    Allocated(tr[k]);
    if k > 0 {
      RegisterRefined(tr, acts, k - 1);
      InvAlways(tr, acts, k - 1);
      assert Follows(Step, tr, acts, k - 1);
      StepRefines(tr[k - 1], acts[k - 1]);
    }
  }

  lemma Allocated(s: Sys)
    requires Inv(s)
    ensures |s.heap| == if s.Writer().WriteReady? || s.Writer().Unlinked() then 2 else 1
  {
    assert s.heap.Keys == {s.cur} + InFlight(s);
    assert |s.heap| == |s.heap.Keys|;
  }

  /** The price of reading without a lock: some run ends a section with a value that is no longer current. */
  lemma StaleReadHappens(s: Sys, addr: Ptr, v: nat) returns (tr: seq<Sys>, acts: seq<Action>)
    requires Initial(s) && addr !in s.heap && v != 0
    ensures Run(Step, tr, acts) && tr[0] == s && |acts| == 7
    ensures tr[7].At(0) == ReadDone(0, 0) && tr[7].Value() == v
  {
    acts := [Read(0), Go(0, 0), Write(1, v), Go(1, addr), Go(1, 0), Go(0, 0), Go(0, 0)];
    var s1 := Step(s, acts[0]);
    var s2 := Step(s1, acts[1]);
    var s3 := Step(s2, acts[2]);
    var s4 := Step(s3, acts[3]);
    var s5 := Step(s4, acts[4]);
    var s6 := Step(s5, acts[5]);
    var s7 := Step(s6, acts[6]);
    tr := [s, s1, s2, s3, s4, s5, s6, s7];
    assert Run(Step, tr, acts) by {
      hide Step;
      forall k | 0 <= k < 7 ensures Follows(Step, tr, acts, k) {}
    }
  }

  // ---------------------------------------------------------------- what a grace period waits for

  /** Thread u is in one and the same read section from state i to state j. */
  ghost predicate InsideThroughout(tr: seq<Sys>, u: Tid, i: nat, j: nat) {
    i <= j < |tr| && forall m :: i <= m <= j ==> tr[m].At(u).InSection()
  }

  /** Thread u has been out of its section at some time between. */
  ghost predicate LeftBetween(tr: seq<Sys>, u: Tid, i: nat, j: nat) {
    exists m :: i <= m <= j < |tr| && !tr[m].At(u).InSection()
  }

  lemma LeftStays(tr: seq<Sys>, tr': seq<Sys>, u: Tid, i: nat, j: nat)
    requires tr <= tr' && LeftBetween(tr, u, i, j) && j + 1 < |tr'|
    ensures LeftBetween(tr', u, i, j + 1)
  {
    var m :| i <= m <= j < |tr| && !tr[m].At(u).InSection();
    assert tr'[m] == tr[m];
  }

  ghost predicate NoReads(env: seq<seq<Action>>) {
    forall k, i :: 0 <= k < |env| && 0 <= i < |env[k]| ==> !env[k][i].Read?
  }

  lemma GraceStep(s: Sys, a: Action, t: Tid)
    requires Core(s) && ReaderOk(s, a.t) && s.At(t).WriteGrace? && a.t != t && s.grace <= s.Sections()
    ensures var s' := Step(s, a);
            && s'.At(t) == s.At(t) && s'.grace <= s.grace && s'.grace <= s'.Sections()
            && forall u :: u in s.grace && u !in s'.grace ==> !s'.At(u).InSection()
  {
    assert s.At(a.t).Writing() <==> s.lock == Some(a.t);
    assert s.At(t).Writing() <==> s.lock == Some(t);
  }

  /** While the writer waits, a reader it waits for is one that is still in its section, and one it no longer waits for
      has left it. */
  lemma {:induction false} GraceRun(tr: seq<Sys>, acts: seq<Action>, i: nat, j: nat, t: Tid)
    requires Run(Step, tr, acts) && Inv(tr[0]) && i <= j <= |acts|
    requires tr[i].At(t).WriteGrace? && tr[i].grace <= tr[i].Sections() && forall m :: i <= m < j ==> acts[m].t != t
    ensures tr[j].At(t) == tr[i].At(t) && tr[j].grace <= tr[i].grace && tr[j].grace <= tr[j].Sections()
    ensures forall u :: u in tr[j].grace ==> InsideThroughout(tr, u, i, j)
    ensures forall u :: u in tr[i].grace && u !in tr[j].grace ==> LeftBetween(tr, u, i, j)
  {
    hide Core, Step;
    if i < j {
      GraceRun(tr, acts, i, j - 1, t);
      InvAlways(tr, acts, j - 1);
      assert Follows(Step, tr, acts, j - 1);
      GraceStep(tr[j - 1], acts[j - 1], t);
      forall u | u in tr[j].grace ensures InsideThroughout(tr, u, i, j) {
        assert InsideThroughout(tr, u, i, j - 1);
        assert u in tr[j].Sections();
      }
      forall u | u in tr[i].grace && u !in tr[j].grace ensures LeftBetween(tr, u, i, j) {
        if u in tr[j - 1].grace {
          assert !tr[j].At(u).InSection();
        } else {
          var m :| i <= m <= j - 1 && !tr[m].At(u).InSection();
        }
      }
    }
  }

  lemma NoNewSection(s: Sys, a: Action)
    requires !a.Read?
    ensures Step(s, a).Sections() <= s.Sections()
  {}

  /** Without a READ no section begins. */
  lemma {:induction false} SectionsShrink(tr: seq<Sys>, acts: seq<Action>, i: nat, j: nat)
    requires Run(Step, tr, acts) && i <= j <= |acts| && forall m :: i <= m < j ==> !acts[m].Read?
    ensures tr[j].Sections() <= tr[i].Sections()
  {
    hide Step;
    if i < j {
      SectionsShrink(tr, acts, i, j - 1);
      assert Follows(Step, tr, acts, j - 1);
      NoNewSection(tr[j - 1], acts[j - 1]);
    }
  }

  // ---------------------------------------------------------------- the device

  ghost predicate Others(env: seq<seq<Action>>, t: Tid) {
    forall k, i :: 0 <= k < |env| && 0 <= i < |env[k]| ==> env[k][i].t != t
  }

  lemma OthersKeepPhase(s: Sys, a: Action, t: Tid)
    requires a.t != t
    ensures Step(s, a).At(t) == s.At(t)
  {}

  /** simple_rcu.c in its own form: the two ioctls, with batches of other threads' steps between their accesses.
      Each `heap[p]` is a proof that p is allocated then. */
  class Device {
    var heap: map<Ptr, nat>
    var cur: Ptr
    var lock: Option<Tid>
    var grace: set<Tid>
    var threads: map<Tid, Phase>
    var fault: bool
    ghost var tr: seq<Sys>
    ghost var acts: seq<Action>

    function Now(): Sys
      reads this
    {
      Sys(heap, cur, lock, grace, threads, fault)
    }

    ghost predicate Valid()
      reads this
    {
      |tr| == |acts| + 1 && Run(Step, tr, acts) && tr[|acts|] == Now() && Inv(tr[0])
    }

    lemma Safe()
      requires Valid()
      ensures Inv(Now())
    {
      InvAlways(tr, acts, |acts|);
    }

    /** simple_rcu_init. */
    constructor (data: Ptr)
      ensures Valid() && Initial(Now()) && tr == [Now()]
    {
      heap, cur, lock, grace, threads, fault := map[data := 0], data, None, {}, map[], false;
      new;
      tr, acts := [Now()], [];
    }

    method Interfere(t: Tid, batch: seq<Action>)
      requires Valid() && forall i :: 0 <= i < |batch| ==> batch[i].t != t
      modifies this
      ensures Valid() && old(tr) <= tr && acts == old(acts) + batch && Now().At(t) == old(Now()).At(t)
      ensures forall k :: |old(tr)| <= k < |tr| ==> tr[k].At(t) == old(Now()).At(t)
    {
      hide Step, Inv;
      for j := 0 to |batch|
        invariant Valid() && old(tr) <= tr && acts == old(acts) + batch[..j] && Now().At(t) == old(Now()).At(t)
        invariant forall k :: |old(tr)| <= k < |tr| ==> tr[k].At(t) == old(Now()).At(t)
      {
        OthersKeepPhase(Now(), batch[j], t);
        Extends(Step, tr, acts, batch[j]);
        var s := Step(Now(), batch[j]);
        heap, cur, lock, grace, threads, fault := s.heap, s.cur, s.lock, s.grace, s.threads, s.fault;
        tr, acts := tr + [s], acts + [batch[j]];
      }
    }

    /** Note the caller's own step in the run. */
    ghost method Record(a: Action, s: Sys)
      requires |tr| == |acts| + 1 && Run(Step, tr, acts) && tr[|acts|] == s && Inv(tr[0]) && Now() == Step(s, a)
      modifies this`tr, this`acts
      ensures Valid() && tr == old(tr) + [Now()] && acts == old(acts) + [a] && Inv(Now())
    {
      hide Step, Inv;
      Extends(Step, tr, acts, a);
      tr, acts := tr + [Now()], acts + [a];
      Safe();
    }

    /** Thread t opened a read section at position `start` of the run and has been in it ever since. */
    ghost predicate Reading(t: Tid, start: nat)
      reads this
    {
      Valid() && InSectionFrom(tr, start, |tr| - 1, t)
    }

    /** Preemption inside a read section. */
    method Preempt(t: Tid, batch: seq<Action>, ghost start: nat)
      requires Reading(t, start) && forall i :: 0 <= i < |batch| ==> batch[i].t != t
      modifies this
      ensures Reading(t, start) && old(tr) <= tr && Now().At(t) == old(Now()).At(t)
    {
      hide Inv, Step, Run;
      assert old(tr)[|old(tr)| - 1].At(t).InSection();
      Interfere(t, batch);
    }

    method RcuReadLock(t: Tid)
      requires Valid() && Now().At(t).Idle?
      modifies this
      ensures Reading(t, |old(tr)|) && tr == old(tr) + [Now()] && Now().At(t) == ReadDeref
    {
      hide Run;
      ghost var s := Now();
      Safe();
      threads := threads[t := ReadDeref];
      Record(Read(t), s);
    }

    method RcuDereference(t: Tid, ghost start: nat) returns (p: Ptr)
      requires Reading(t, start) && Now().At(t) == ReadDeref
      modifies this
      ensures Reading(t, start) && old(tr) <= tr && Now().At(t) == ReadFirst(p)
    {
      hide Run;
      ghost var s := Now();
      Safe();
      p := cur;
      threads := threads[t := ReadFirst(p)];
      Record(Go(t, 0), s);
    }

    method LoadFirst(t: Tid, p: Ptr, ghost start: nat) returns (first: nat)
      requires Reading(t, start) && Now().At(t) == ReadFirst(p)
      modifies this
      ensures Reading(t, start) && old(tr) <= tr && Now().At(t) == ReadSecond(p, first)
    {
      hide Run;
      ghost var s := Now();
      Safe();
      assert ReaderOk(s, t);
      first := heap[p];
      threads := threads[t := ReadSecond(p, first)];
      Record(Go(t, 0), s);
    }

    method LoadSecond(t: Tid, p: Ptr, ghost first: nat, ghost start: nat) returns (second: nat)
      requires Reading(t, start) && Now().At(t) == ReadSecond(p, first)
      modifies this
      ensures Reading(t, start) && old(tr) <= tr && Now().At(t) == ReadDone(first, second)
    {
      hide Run;
      ghost var s := Now();
      Safe();
      assert ReaderOk(s, t);
      second := heap[p];
      threads := threads[t := ReadDone(Now().At(t).first, second)];
      Record(Go(t, 0), s);
    }

    method RcuReadUnlock(t: Tid)
      requires Valid() && Now().At(t).ReadDone?
      modifies this
      ensures Valid() && tr == old(tr) + [Now()] && Now().At(t) == Idle
    {
      hide Run;
      ghost var s := Now();
      Safe();
      grace, threads := grace - {t}, threads[t := Idle];
      Record(Go(t, 0), s);
    }

    /** IOCTL_READ under any interference: both reads give the value the register held when the pointer was loaded. */
    method IoctlRead(t: Tid, env: seq<seq<Action>>) returns (first: nat, second: nat, ghost at: nat)
      requires Valid() && Now().At(t).Idle? && Others(env, t)
      modifies this
      ensures Valid() && old(tr) <= tr && |old(tr)| <= at && at + 1 < |tr|
      ensures first == second && DerefAt(tr, at, t, first) && Now().At(t).Idle?
    {
      hide Run, Inv, Step, DerefAt;
      RcuReadLock(t);
      ghost var start := |tr| - 1;
      first, second := ReadTwice(t, env, start);
      ghost var done, end := tr, |tr| - 1;
      AtomicRead(tr, acts, start, end, t);
      at :| start <= at < end && DerefAt(tr, at, t, second);
      Interfere(t, Batch(env, 3));
      RcuReadUnlock(t);
      DerefStays(done, tr, at, t, second);
    }

    method ReadTwice(t: Tid, env: seq<seq<Action>>, ghost start: nat) returns (first: nat, second: nat)
      requires Reading(t, start) && Now().At(t) == ReadDeref && Others(env, t)
      modifies this
      ensures Reading(t, start) && old(tr) <= tr && Now().At(t) == ReadDone(first, second)
    {
      hide Reading;
      Preempt(t, Batch(env, 0), start);
      var p := RcuDereference(t, start);
      Preempt(t, Batch(env, 1), start);
      first := LoadFirst(t, p, start);
      Preempt(t, Batch(env, 2), start);
      second := LoadSecond(t, p, first, start);
    }

    /** IOCTL_WRITE up to the pointer assignment, the lock held. */
    method Swap(t: Tid, arg: nat, env: seq<seq<Action>>) returns (victim: Ptr)
      requires Valid() && Now().At(t).Idle? && lock.None? && Others(env, t)
      modifies this
      ensures Valid() && old(tr) <= tr && old(acts) <= acts && |old(acts)| < |acts|
      ensures Now().At(t) == WriteSwapped(victim)
      ensures acts[|acts| - 1].t == t && Stores(tr[|acts| - 1], acts[|acts| - 1]) == Some(arg)
      ensures NoReads(env) ==> forall m :: |old(acts)| <= m < |acts| ==> !acts[m].Read?
    {
      hide Run, Inv, Step;
      TakeLock(t, arg);
      Interfere(t, Batch(env, 0));
      var copy := Allocate(t, arg);
      Interfere(t, Batch(env, 1));
      victim := Assign(t, arg, copy);
    }

    method TakeLock(t: Tid, arg: nat)
      requires Valid() && Now().At(t).Idle? && lock.None?
      modifies this
      ensures Valid() && tr == old(tr) + [Now()] && acts == old(acts) + [Write(t, arg)]
              && Now().At(t) == WriteAlloc(arg)
    {
      hide Run;
      ghost var s := Now();
      Safe();
      lock, threads := Some(t), threads[t := WriteAlloc(arg)];
      Record(Write(t, arg), s);
    }

    method Allocate(t: Tid, arg: nat) returns (copy: Ptr)
      requires Valid() && Now().At(t) == WriteAlloc(arg)
      modifies this
      ensures Valid() && tr == old(tr) + [Now()] && acts == old(acts) + [Go(t, copy)]
              && Now().At(t) == WriteReady(arg, copy)
    {
      hide Run;
      ghost var s := Now();
      Safe();
      copy := KMalloc(heap);
      heap, threads := heap[copy := arg], threads[t := WriteReady(arg, copy)];
      Record(Go(t, copy), s);
    }

    method Assign(t: Tid, arg: nat, copy: Ptr) returns (victim: Ptr)
      requires Valid() && Now().At(t) == WriteReady(arg, copy)
      modifies this
      ensures Valid() && tr == old(tr) + [Now()] && Now().At(t) == WriteSwapped(victim)
      ensures acts == old(acts) + [Go(t, 0)] && Stores(old(Now()), Go(t, 0)) == Some(arg)
    {
      hide Run;
      ghost var s := Now();
      Safe();
      victim := cur;
      cur, threads := copy, threads[t := WriteSwapped(victim)];
      Record(Go(t, 0), s);
    }

    /** synchronize_rcu runs the others' steps until every section that was open at the call has ended. It is not done
        only if all of them have been run and some reader is still in a section that was open at the call. */
    method SynchronizeRcu(t: Tid, victim: Ptr, env: seq<seq<Action>>) returns (done: bool, ghost k: nat)
      requires Valid() && Others(env, t) && Now().At(t) == WriteSwapped(victim)
      modifies this
      ensures Valid() && old(tr) <= tr
      ensures Now().At(t) == if done then WriteFree(victim) else WriteGrace(victim)
      ensures k <= |env| && acts == old(acts) + [Go(t, 0)] + Flat(env[..k]) + if done then [Go(t, 0)] else []
      ensures done ==> forall u :: u in old(Now().Sections()) ==> LeftBetween(tr, u, |old(acts)|, |acts|)
      ensures !done ==> k == |env| && WaitingFrom(t, |old(acts)|)
    {
      hide Inv, Run, LeftBetween, InsideThroughout;
      CallSynchronize(t, victim);
      ghost var n := |old(acts)|;
      k := WaitForGrace(t, env);
      GraceRun(tr, acts, n + 1, |acts|, t);
      GraceFromCall(n);
      done := grace == {};
      if done {
        ghost var before := tr;
        EndGrace(t, victim);
        forall u | u in old(Now().Sections()) ensures LeftBetween(tr, u, n, |acts|) {
          LeftStays(before, tr, u, n, |before| - 1);
        }
      }
    }

    /** Thread t has swapped the pointer and waits: some reader is still in a section that was open in state sync. */
    ghost predicate WaitingFrom(t: Tid, sync: nat)
      reads this
    {
      && Now().At(t).WriteGrace? && grace != {} && sync < |tr| && grace <= tr[sync].Sections()
      && forall u :: u in grace ==> InsideThroughout(tr, u, sync, |acts|)
    }

    /** The readers that the call at action n still waits for, and those it has waited for, counted from the call
        itself. */
    lemma GraceFromCall(n: nat)
      requires Valid() && n + 1 < |tr| && tr[n + 1].grace == tr[n].Sections()
      requires forall u :: u in grace ==> InsideThroughout(tr, u, n + 1, |acts|)
      requires forall u :: u in tr[n + 1].grace && u !in grace ==> LeftBetween(tr, u, n + 1, |acts|)
      requires grace <= tr[n + 1].grace
      ensures forall u :: u in grace ==> InsideThroughout(tr, u, n, |acts|)
      ensures forall u :: u in tr[n].Sections() && u !in grace ==> LeftBetween(tr, u, n, |acts|)
    {
      hide Inv, Step;
      forall u | u in grace ensures InsideThroughout(tr, u, n, |acts|) {
        assert InsideThroughout(tr, u, n + 1, |acts|) && u in tr[n].Sections();
      }
      forall u | u in tr[n].Sections() && u !in grace ensures LeftBetween(tr, u, n, |acts|) {
        var m :| n + 1 <= m <= |acts| && !tr[m].At(u).InSection();
      }
    }

    method CallSynchronize(t: Tid, victim: Ptr)
      requires Valid() && Now().At(t) == WriteSwapped(victim)
      modifies this
      ensures Valid() && tr == old(tr) + [Now()] && acts == old(acts) + [Go(t, 0)] && Now().At(t) == WriteGrace(victim)
      ensures grace == Now().Sections() == old(Now().Sections())
    {
      hide Inv, Run;
      ghost var s := Now();
      Safe();
      NoFault(s);
      grace, threads := Now().Sections(), threads[t := WriteGrace(victim)];
      Record(Go(t, 0), s);
    }

    method EndGrace(t: Tid, victim: Ptr)
      requires Valid() && Now().At(t) == WriteGrace(victim) && grace == {}
      modifies this
      ensures Valid() && tr == old(tr) + [Now()] && acts == old(acts) + [Go(t, 0)] && Now().At(t) == WriteFree(victim)
    {
      hide Inv, Run;
      ghost var s := Now();
      Safe();
      NoFault(s);
      threads := threads[t := WriteFree(victim)];
      Record(Go(t, 0), s);
    }

    method WaitForGrace(t: Tid, env: seq<seq<Action>>) returns (ghost used: nat)
      requires Valid() && Others(env, t) && Now().At(t).WriteGrace?
      modifies this
      ensures Valid() && old(tr) <= tr && Now().At(t) == old(Now().At(t))
      ensures used <= |env| && acts == old(acts) + Flat(env[..used]) && (grace != {} ==> used == |env|)
      ensures forall m :: |old(acts)| <= m < |acts| ==> acts[m].t != t
    {
      hide Inv, Run, Step;
      var k := 0;
      while grace != {} && k < |env|
        invariant Valid() && old(tr) <= tr && Now().At(t) == old(Now().At(t))
        invariant k <= |env| && acts == old(acts) + Flat(env[..k])
        invariant forall m :: |old(acts)| <= m < |acts| ==> acts[m].t != t
        decreases |env| - k
      {
        FlatSnoc(env, k);
        Interfere(t, env[k]);
        k := k + 1;
      }
      used := k;
    }

    lemma NoFault(s: Sys)
      requires Inv(s)
      ensures !s.fault
    {}

    /** kfree and unlock. */
    method Reclaim(t: Tid, victim: Ptr)
      requires Valid() && Now().At(t) == WriteFree(victim)
      modifies this
      ensures Valid() && old(tr) <= tr && old(acts) <= acts && Now().At(t).Idle?
      ensures lock.None? && heap.Keys == {cur} && victim !in heap
    {
      hide Run;
      ghost var s := Now();
      Safe();
      assert lock == Some(t);
      heap, threads := heap - {victim}, threads[t := WriteUnlock];
      Record(Go(t, 0), s);
      ghost var u := Now();
      lock, threads := None, threads[t := Idle];
      Record(Go(t, 0), u);
    }

    /** The lock was taken at each of the first `used` looks at it, one before each batch of the others, from state n
        on. */
    ghost predicate LockTaken(n: nat, wait: seq<seq<Action>>, used: nat)
      requires used <= |wait|
      reads this
    {
      forall j :: 0 <= j < used ==> n + |Flat(wait[..j])| < |tr| && tr[n + |Flat(wait[..j])|].lock.Some?
    }

    /** spin_lock: others run until the lock is free, or until they have all run with the lock taken at every look. */
    method AwaitLock(t: Tid, wait: seq<seq<Action>>) returns (free: bool, ghost used: nat)
      requires Valid() && Now().At(t).Idle? && Others(wait, t)
      modifies this
      ensures Valid() && old(tr) <= tr && Now().At(t).Idle?
      ensures used <= |wait| && acts == old(acts) + Flat(wait[..used])
      ensures (free <==> lock.None?) && (!free ==> used == |wait|)
      ensures LockTaken(|old(acts)|, wait, used)
      ensures old(lock).None? ==> free && Now() == old(Now())
    {
      hide Run, Inv, Step;
      var k := 0;
      while lock.Some? && k < |wait|
        invariant Valid() && old(tr) <= tr && Now().At(t).Idle?
        invariant k <= |wait| && acts == old(acts) + Flat(wait[..k])
        invariant LockTaken(|old(acts)|, wait, k) && (old(lock).None? ==> k == 0 && Now() == old(Now()))
        decreases |wait| - k
      {
        assert tr[|old(acts)| + |Flat(wait[..k])|] == Now();
        FlatSnoc(wait, k);
        Interfere(t, wait[k]);
        k := k + 1;
      }
      free, used := lock.None?, k;
    }

    /** IOCTL_WRITE under any interference: `wait`, `swap` and `env` are what others do while it waits for the lock,
        while it swaps the pointer, and during its grace period. Once it has the lock it stores `arg` in one atomic step
        of this thread (action `at` of the run); once its grace period has ended the old object is gone and only the
        current one is left. If it does not return, others have held the lock each time it looked, or some reader is
        still in a section that was open when it called synchronize_rcu (state at + 1). */
    method IoctlWrite(t: Tid, arg: nat, wait: seq<seq<Action>>, swap: seq<seq<Action>>, env: seq<seq<Action>>)
      returns (stored: bool, done: bool, ghost at: nat)
      requires Valid() && Now().At(t).Idle? && Others(wait, t) && Others(swap, t) && Others(env, t)
      modifies this
      ensures Valid() && old(tr) <= tr && old(acts) <= acts
      ensures stored ==> |old(acts)| <= at < |acts| && acts[at].t == t && Stores(tr[at], acts[at]) == Some(arg)
      ensures done ==> stored && Now().At(t).Idle? && lock.None? && heap.Keys == {cur}
      ensures !stored ==> Now().At(t).Idle? && lock.Some? && acts == old(acts) + Flat(wait)
                          && LockTaken(|old(acts)|, wait, |wait|)
      ensures stored && !done ==> WaitingFrom(t, at + 1)
      ensures old(lock).None? && old(Now().Sections()) == {} && NoReads(swap) ==> done
    {
      hide Run, Inv, Step, Stores, LockTaken, InsideThroughout, LeftBetween, NoReads;
      done, at := false, 0;
      ghost var used;
      stored, used := AwaitLock(t, wait);
      if !stored {
        assert wait[..used] == wait;
        return;
      }
      ghost var n := |acts|;
      var victim := Swap(t, arg, swap);
      at := |acts| - 1;
      if NoReads(swap) { SectionsShrink(tr, acts, n, |acts|); }
      ghost var k;
      done, k := SynchronizeRcu(t, victim, env);
      if done { Reclaim(t, victim); }
    }
  }

  lemma DerefStays(tr: seq<Sys>, tr': seq<Sys>, k: nat, t: Tid, v: nat)
    requires k + 1 < |tr| && tr <= tr' && DerefAt(tr, k, t, v)
    ensures DerefAt(tr', k, t, v)
  {
    assert tr'[k] == tr[k] && tr'[k + 1] == tr[k + 1];
  }
}

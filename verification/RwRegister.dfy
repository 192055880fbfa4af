/**
  synchronization/challenge9/simple_rwlock/simple_rwlock.c: the register of RcuRegister behind a reader-writer lock.
  Readers share the lock, a writer has it alone and frees the old object at once. Same conventions as RcuRegister.
 */
module RwRegister {
  import opened Options
  import opened Runs
  import opened Heaps

  type Tid = nat
  type Ptr = nat

  datatype Phase =
    | Idle
    | ReadLoad
    | ReadFirst(at: Ptr)
    | ReadSecond(at: Ptr, first: nat)
    | ReadDone(first: nat, second: nat)
    | WriteAlloc(arg: nat)
    | WriteReady(arg: nat, copy: Ptr)
    | WriteSwapped(victim: Ptr)
    | WriteUnlock
  {
    predicate Reading() { ReadLoad? || ReadFirst? || ReadSecond? || ReadDone? }
    predicate Writing() { !Idle? && !Reading() }
  }

  datatype Sys = Sys(heap: map<Ptr, nat>, cur: Ptr, readers: set<Tid>, writer: Option<Tid>, threads: map<Tid, Phase>,
      fault: bool)
  {
    function At(t: Tid): Phase { if t in threads then threads[t] else Idle }
    function Goto(t: Tid, ph: Phase): Sys { this.(threads := threads[t := ph]) }
    function Fault(): Sys { this.(fault := true) }
    function Value(): nat { if cur in heap then heap[cur] else 0 }
  }

  datatype Action = Read(t: Tid) | Write(t: Tid, arg: nat) | Go(t: Tid, addr: Ptr)

  function Step(s: Sys, a: Action): Sys {
    if s.fault then s else
    match a
    case Read(t) =>
      if s.At(t).Idle? && s.writer.None? then s.(readers := s.readers + {t}).Goto(t, ReadLoad) else s
    case Write(t, arg) =>
      if s.At(t).Idle? && s.writer.None? && s.readers == {} then s.(writer := Some(t)).Goto(t, WriteAlloc(arg)) else s
    case Go(t, addr) =>
      match s.At(t)
      case ReadLoad => s.Goto(t, ReadFirst(s.cur))
      case ReadFirst(at) => if at in s.heap then s.Goto(t, ReadSecond(at, s.heap[at])) else s.Fault()
      case ReadSecond(at, first) => if at in s.heap then s.Goto(t, ReadDone(first, s.heap[at])) else s.Fault()
      case ReadDone(_, _) => s.(readers := s.readers - {t}).Goto(t, Idle)
      case WriteAlloc(arg) =>
        if addr in s.heap then s else s.(heap := s.heap[addr := arg]).Goto(t, WriteReady(arg, addr))
      case WriteReady(_, copy) => s.(cur := copy).Goto(t, WriteSwapped(s.cur))
      case WriteSwapped(victim) =>
        if victim in s.heap then s.(heap := s.heap - {victim}).Goto(t, WriteUnlock) else s.Fault()
      case WriteUnlock => s.(writer := None).Goto(t, Idle)
      case Idle => s
  }

  ghost predicate ReaderOk(s: Sys, t: Tid) {
    match s.At(t)
    case ReadFirst(at) => at == s.cur
    case ReadSecond(at, first) => at == s.cur && first == s.Value()
    case ReadDone(first, second) => first == second == s.Value()
    case _ => true
  }

  function InFlight(s: Sys): set<Ptr> {
    match (if s.writer.Some? then s.At(s.writer.value) else Idle)
    case WriteReady(_, copy) => {copy}
    case WriteSwapped(victim) => {victim}
    case _ => {}
  }

  /** The invariant but for the readers' views. */
  ghost predicate Core(s: Sys) {
    && !s.fault && s.cur in s.heap && s.cur !in InFlight(s) && s.heap.Keys == {s.cur} + InFlight(s)
    && (s.writer.Some? && s.At(s.writer.value).WriteReady? ==>
          s.heap[s.At(s.writer.value).copy] == s.At(s.writer.value).arg)
    && (s.writer.Some? ==> s.readers == {})
    && (forall t: Tid :: s.At(t).Writing() <==> s.writer == Some(t))
    && (forall t: Tid :: s.At(t).Reading() <==> t in s.readers)
  }

  ghost predicate Inv(s: Sys) { Core(s) && forall t: Tid :: ReaderOk(s, t) }

  lemma StepKeepsCore(s: Sys, a: Action)
    requires Core(s) && ReaderOk(s, a.t)
    ensures Core(Step(s, a))
    ensures Step(s, a).Value() == if Stores(s, a).Some? then Stores(s, a).value else s.Value()
    ensures Stores(s, a).Some? ==> forall t: Tid :: !s.At(t).Reading()
  {
    assert s.At(a.t).Writing() <==> s.writer == Some(a.t);
    assert s.At(a.t).Reading() <==> a.t in s.readers;
  }

  /** After simple_rwlock_init. */
  ghost predicate Initial(s: Sys) {
    Inv(s) && s.writer.None? && s.readers == {} && s.threads == map[] && s.Value() == 0
  }

  function Stores(s: Sys, a: Action): Option<nat> {
    if a.Go? && !s.fault && s.At(a.t).WriteReady? then Some(s.At(a.t).arg) else None
  }

  lemma StepRefines(s: Sys, a: Action)
    requires Inv(s)
    ensures Inv(Step(s, a))
    ensures Step(s, a).Value() == if Stores(s, a).Some? then Stores(s, a).value else s.Value()
    ensures Stores(s, a).Some? ==> forall t: Tid :: !s.At(t).Reading()
  {
    hide Core, ReaderOk, Step;
    assert ReaderOk(s, a.t);
    StepKeepsCore(s, a);
    forall u: Tid ensures ReaderOk(Step(s, a), u) {
      StepKeepsReader(s, a, u);
    }
  }

  lemma StepKeepsReader(s: Sys, a: Action, u: Tid)
    requires Inv(s)
    ensures ReaderOk(Step(s, a), u)
  {
    assert s.At(a.t).Writing() <==> s.writer == Some(a.t);
    assert s.At(u).Reading() <==> u in s.readers;
    assert ReaderOk(s, a.t) && ReaderOk(s, u);
  }

  lemma InvAlways(tr: seq<Sys>, acts: seq<Action>, k: nat)
    requires Run(Step, tr, acts) && Inv(tr[0]) && k <= |acts|
    ensures Inv(tr[k])
  {
    hide Inv, Step;
    forall s, a | Inv(s) ensures Inv(Step(s, a)) { StepRefines(s, a); }
    Always(Step, Inv, tr, acts, k);
  }

  /** Main result: the value does not change while any reader is inside, so the two reads of a section agree and
      are current at every instant of it, from the lock to the unlock. Nothing freed is ever touched. */
  lemma {:induction false} CurrentRead(tr: seq<Sys>, acts: seq<Action>, i: nat, j: nat, t: Tid)
    requires Run(Step, tr, acts) && Inv(tr[0]) && i <= j < |tr|
    requires forall k :: i <= k <= j ==> tr[k].At(t).Reading()
    ensures tr[j].Value() == tr[i].Value() && !tr[j].fault
    ensures tr[j].At(t).ReadDone? ==> tr[j].At(t).first == tr[j].At(t).second == tr[i].Value()
  {
    hide Inv, Step;
    InvAlways(tr, acts, j);
    ReadIsCurrent(tr[j], t);
    if i < j {
      CurrentRead(tr, acts, i, j - 1, t);
      InvAlways(tr, acts, j - 1);
      assert Follows(Step, tr, acts, j - 1);
      StepRefines(tr[j - 1], acts[j - 1]);
    }
  }

  lemma ReadIsCurrent(s: Sys, t: Tid)
    requires Inv(s)
    ensures !s.fault && (s.At(t).ReadDone? ==> s.At(t).first == s.At(t).second == s.Value())
  {
    assert ReaderOk(s, t);
  }

  /** Main result: the register holds the last value written. */
  lemma {:induction false} RegisterRefined(tr: seq<Sys>, acts: seq<Action>, k: nat)
    requires Run(Step, tr, acts) && Inv(tr[0]) && k <= |acts|
    ensures tr[k].Value() == LastStored(tr, acts, k)
  {
    hide Step, Inv;
    if k > 0 {
      RegisterRefined(tr, acts, k - 1);
      InvAlways(tr, acts, k - 1);
      assert Follows(Step, tr, acts, k - 1);
      StepRefines(tr[k - 1], acts[k - 1]);
    }
  }

  function LastStored(tr: seq<Sys>, acts: seq<Action>, k: nat): nat
    requires |tr| == |acts| + 1 && k <= |acts|
  {
    if k == 0 then tr[0].Value()
    else match Stores(tr[k - 1], acts[k - 1])
         case Some(v) => v
         case None => LastStored(tr, acts, k - 1)
  }

  // ---------------------------------------------------------------- the device

  /** The state after the first k batches of others. */
  function AfterRounds(s: Sys, wait: seq<seq<Action>>, k: nat): Sys
    requires k <= |wait|
  {
    After(Step, s, Flat(wait[..k]))
  }

  lemma NoRounds(s: Sys, wait: seq<seq<Action>>)
    ensures AfterRounds(s, wait, 0) == s
  {}

  lemma NextRound(s: Sys, wait: seq<seq<Action>>, k: nat)
    requires k < |wait|
    ensures AfterRounds(s, wait, k + 1) == After(Step, AfterRounds(s, wait, k), wait[k])
  {
    FlatSnoc(wait, k);
    AfterConcat(Step, s, Flat(wait[..k]), wait[k]);
  }

  /** The lock cannot be had in this mode. */
  predicate Taken(s: Sys, exclusive: bool) { s.writer.Some? || (exclusive && s.readers != {}) }

  /** The environment of thread t: any steps of other threads. */
  ghost predicate Others(env: seq<seq<Action>>, t: Tid) {
    forall k, i :: 0 <= k < |env| && 0 <= i < |env[k]| ==> env[k][i].t != t
  }

  /** simple_rwlock.c in its own form. Other threads may step between a reader's accesses; the lock lets in readers
      only. */
  class Device {
    var heap: map<Ptr, nat>
    var cur: Ptr
    var readers: set<Tid>
    var writer: Option<Tid>
    var threads: map<Tid, Phase>
    var fault: bool

    function Now(): Sys
      reads this
    {
      Sys(heap, cur, readers, writer, threads, fault)
    }

    /** simple_rwlock_init. */
    constructor (data: Ptr)
      ensures Initial(Now())
    {
      heap, cur, readers, writer, threads, fault := map[data := 0], data, {}, None, map[], false;
    }

    /** One step of another thread. */
    method Perform(t: Tid, a: Action)
      requires Inv(Now()) && a.t != t
      modifies this
      ensures Inv(Now()) && Now() == Step(old(Now()), a) && Now().At(t) == old(Now()).At(t)
      ensures Now().At(t).Reading() ==> Now().Value() == old(Now()).Value()
    {
      hide Step, Inv;
      OthersKeepPhase(Now(), a, t);
      StepRefines(Now(), a);
      var s := Step(Now(), a);
      heap, cur, readers, writer, threads, fault := s.heap, s.cur, s.readers, s.writer, s.threads, s.fault;
    }

    /** Others step: the phase of t stays, and so does the value while t is reading. */
    method Interfere(t: Tid, batch: seq<Action>)
      requires Inv(Now()) && forall i :: 0 <= i < |batch| ==> batch[i].t != t
      modifies this
      ensures Inv(Now()) && Now().At(t) == old(Now()).At(t) && Now() == After(Step, old(Now()), batch)
      ensures Now().At(t).Reading() ==> Now().Value() == old(Now()).Value()
    {
      hide Step, Inv;
      for j := 0 to |batch|
        invariant Inv(Now()) && Now().At(t) == old(Now()).At(t) && Now() == After(Step, old(Now()), batch[..j])
        invariant Now().At(t).Reading() ==> Now().Value() == old(Now()).Value()
      {
        assert batch[..j + 1] == batch[..j] + [batch[j]];
        AfterSnoc(Step, old(Now()), batch[..j], batch[j]);
        Perform(t, batch[j]);
      }
      assert batch[..|batch|] == batch;
    }

    /** The lock can be had. */
    predicate Free(exclusive: bool)
      reads this
    {
      writer.None? && (exclusive ==> readers == {})
    }

    /** read_lock and write_lock: others run until the lock can be had, or until they have all run and it could not be
        had at any look. */
    method AwaitLock(t: Tid, exclusive: bool, wait: seq<seq<Action>>) returns (free: bool, ghost used: nat)
      requires Inv(Now()) && Now().At(t).Idle? && Others(wait, t)
      modifies this
      ensures Inv(Now()) && Now().At(t).Idle?
      ensures used <= |wait| && Now() == AfterRounds(old(Now()), wait, used)
      ensures (free <==> Free(exclusive)) && (!free ==> used == |wait|)
      ensures old(Free(exclusive)) ==> free && Now() == old(Now())
      ensures forall j :: 0 <= j < used ==> Taken(AfterRounds(old(Now()), wait, j), exclusive)
    {
      hide Inv, Step, After, AfterRounds;
      NoRounds(Now(), wait);
      var k := 0;
      while !Free(exclusive) && k < |wait|
        invariant Inv(Now()) && Now().At(t).Idle?
        invariant k <= |wait| && Now() == AfterRounds(old(Now()), wait, k)
        invariant old(Free(exclusive)) ==> k == 0 && Now() == old(Now())
        invariant forall j :: 0 <= j < k ==> Taken(AfterRounds(old(Now()), wait, j), exclusive)
        decreases |wait| - k
      {
        NextRound(old(Now()), wait, k);
        Interfere(t, wait[k]);
        k := k + 1;
      }
      free, used := Free(exclusive), k;
    }

    method ReadLock(t: Tid)
      requires Inv(Now()) && Now().At(t).Idle? && writer.None?
      modifies this
      ensures Inv(Now()) && Now().At(t) == ReadLoad && Now().Value() == old(Now()).Value()
    {
      StepRefines(Now(), Read(t));
      readers, threads := readers + {t}, threads[t := ReadLoad];
    }

    /** The next own step of a reader: load the pointer, first read, second read, unlock. */
    method Advance(t: Tid) returns (v: nat)
      requires Inv(Now()) && Now().At(t).Reading()
      modifies this
      ensures Inv(Now()) && Now() == Step(old(Now()), Go(t, 0)) && Now().Value() == old(Now()).Value()
      ensures match old(Now()).At(t)
              case ReadLoad => Now().At(t) == ReadFirst(old(cur)) && v == 0
              case ReadFirst(p) => Now().At(t) == ReadSecond(p, v) && v == old(Now()).Value()
              case ReadSecond(p, first) => Now().At(t) == ReadDone(first, v) && v == old(Now()).Value()
              case _ => Now().At(t) == Idle && v == 0
    {
      StepRefines(Now(), Go(t, 0));
      assert ReaderOk(Now(), t);
      v := 0;
      match Now().At(t)
      case ReadLoad =>
        threads := threads[t := ReadFirst(cur)];
      case ReadFirst(p) =>
        v := heap[p];
        threads := threads[t := ReadSecond(p, v)];
      case ReadSecond(p, first) =>
        v := heap[p];
        threads := threads[t := ReadDone(first, v)];
      case ReadDone(_, _) =>
        readers, threads := readers - {t}, threads[t := Idle];
    }

    /** IOCTL_READ: both reads give the value the register still has at the unlock; it is also the value at the call if
        the lock was free then. None: still waiting for the lock. */
    method IoctlRead(t: Tid, wait: seq<seq<Action>>, env: seq<seq<Action>>) returns (r: Option<(nat, nat)>)
      requires Inv(Now()) && Now().At(t).Idle? && Others(wait, t) && Others(env, t)
      modifies this
      ensures Inv(Now()) && Now().At(t).Idle?
      ensures r.Some? ==> r.value.0 == r.value.1 == Now().Value()
      ensures old(writer).None? ==> r.Some? && r.value.0 == old(Now()).Value()
      ensures r.None? ==> forall j :: 0 <= j <= |wait| ==> Taken(AfterRounds(old(Now()), wait, j), false)
    {
      hide Inv, Step;
      var free, used := AwaitLock(t, false, wait);
      if !free { return None; }
      var first, second := ReadSection(t, env);
      r := Some((first, second));
    }

    /** IOCTL_READ from the lock to the unlock. */
    method ReadSection(t: Tid, env: seq<seq<Action>>) returns (first: nat, second: nat)
      requires Inv(Now()) && Now().At(t).Idle? && writer.None? && Others(env, t)
      modifies this
      ensures Inv(Now()) && Now().At(t).Idle? && first == second == old(Now()).Value() == Now().Value()
    {
      hide Inv, Step, After;
      ReadLock(t);
      Interfere(t, Batch(env, 0));
      var _ := Advance(t);
      Interfere(t, Batch(env, 1));
      first := Advance(t);
      Interfere(t, Batch(env, 2));
      second := Advance(t);
      Interfere(t, Batch(env, 3));
      var _ := Advance(t);
    }

    /** IOCTL_WRITE: alone inside the lock, so one block from there on. Only the new object is left.
        False: still waiting for the lock. */
    method IoctlWrite(t: Tid, arg: nat, wait: seq<seq<Action>>) returns (done: bool)
      requires Inv(Now()) && Now().At(t).Idle? && Others(wait, t)
      modifies this
      ensures Inv(Now()) && Now().At(t).Idle?
      ensures done ==> heap == map[cur := arg] && Now().Value() == arg && writer.None? && readers == {}
      ensures old(writer).None? && old(readers) == {} ==> done
      ensures !done ==> forall j :: 0 <= j <= |wait| ==> Taken(AfterRounds(old(Now()), wait, j), true)
    {
      hide Inv, Step;
      ghost var used;
      done, used := AwaitLock(t, true, wait);
      if done { WriteLocked(t, arg); }
    }

    method WriteLocked(t: Tid, arg: nat)
      requires Inv(Now()) && Now().At(t).Idle? && writer.None? && readers == {}
      modifies this
      ensures Inv(Now()) && Now().At(t).Idle? && writer.None? && readers == {}
      ensures heap == map[cur := arg] && Now().Value() == arg
    {
      writer := Some(t);
      var copy := KMalloc(heap);
      heap := heap[copy := arg];
      var victim := cur;
      cur := copy;
      heap := heap - {victim};
      writer, threads := None, threads[t := Idle];
      forall u: Tid ensures ReaderOk(Now(), u) {
        assert old(Now()).At(u).Reading() <==> u in old(readers);
      }
    }
  }

  lemma OthersKeepPhase(s: Sys, a: Action, t: Tid)
    requires a.t != t
    ensures Step(s, a).At(t) == s.At(t)
  {}
}

/**
  simple_rculist.c in its own form: a device object, its two ioctls as loops over the shared list, and the module's
  init and exit loops. Between any two memory accesses of a caller the other threads may take any batch of steps
  (`env`). The ghost fields record the run, so the theorems of RcuList apply to what the loops do, and every
  `heap[p]` below is a proof that p is allocated at that moment.
 */
module RcuListDevice {
  import opened Options
  import opened Runs
  import opened Heaps
  import opened RcuList

  /** The environment of thread t: any steps of other threads. */
  ghost predicate Others(env: seq<seq<Action>>, t: Tid) {
    forall k, i :: 0 <= k < |env| && 0 <= i < |env[k]| ==> env[k][i].t != t
  }

  /** Where a reader stands on the list, it stays while others step. */
  lemma StandingStays(s: Sys, a: Action, t: Tid, pos: Ptr, i: nat)
    requires Inv(s) && a.t != t && s.At(t).InSection() && i < |s.spine| && Standing(s, t, pos, i)
    ensures i < |Step(s, a).spine| && Standing(Step(s, a), t, pos, i)
  {
    hide Linked, ReaderOk, WriterOk, ReaderStep, WriterStep, Standing;
    assert s.At(a.t).Updating() <==> s.lock == Some(a.t);
    if a.Go? && s.At(a.t).InSection() {
      StandingStaysReader(s, a.t, t, pos, i);
    } else if a.Go? && s.At(a.t).Updating() {
      StandingStaysWriter(s, a.t, a.addr, t, pos, i);
    } else {
      StandingStaysIdle(s, a, t, pos, i);
    }
  }

  lemma StandingStaysReader(s: Sys, u: Tid, t: Tid, pos: Ptr, i: nat)
    requires Inv(s) && u != t && s.At(u).InSection() && i < |s.spine| && Standing(s, t, pos, i)
    ensures i < |ReaderStep(s, u).spine| && Standing(ReaderStep(s, u), t, pos, i)
  {
    hide Linked, ReaderOk, WriterOk;
    ReaderMoves(s, u);
  }

  lemma StandingStaysWriter(s: Sys, u: Tid, addr: Ptr, t: Tid, pos: Ptr, i: nat)
    requires Inv(s) && u != t && s.lock == Some(u) && s.At(t).InSection() && i < |s.spine| && Standing(s, t, pos, i)
    ensures i < |WriterStep(s, u, addr).spine| && Standing(WriterStep(s, u, addr), t, pos, i)
  {
    hide Linked, ReaderOk, OnList;
  }

  lemma StandingStaysIdle(s: Sys, a: Action, t: Tid, pos: Ptr, i: nat)
    requires Inv(s) && a.t != t && (!a.Go? || s.At(a.t).Idle?) && i < |s.spine| && Standing(s, t, pos, i)
    ensures i < |Step(s, a).spine| && Standing(Step(s, a), t, pos, i)
  {
    hide Linked, ReaderOk, WriterOk;
    assert s.At(a.t).Updating() <==> s.lock == Some(a.t);
  }

  lemma OthersKeepPhase(s: Sys, a: Action, t: Tid)
    requires a.t != t
    ensures Step(s, a).At(t) == s.At(t)
  {}

  /** No step changes the length of the list; while t is updating, no step of another thread changes the list at all. */
  lemma OthersKeepLength(s: Sys, a: Action, t: Tid)
    requires Inv(s) && a.t != t
    ensures |Step(s, a).spine| == |s.spine|
    ensures s.At(t).Updating() ==> Step(s, a).spine == s.spine && Contents(Step(s, a)) == Contents(s)
  {
    hide Linked, ReaderOk, Contents, Bump;
    StepRefines(s, a);
    assert s.At(t).Updating() <==> s.lock == Some(t);
    assert s.At(a.t).Updating() <==> s.lock == Some(a.t);
    if a.Go? && s.At(a.t).InSection() { ReaderMoves(s, a.t); }
  }

  // ---------------------------------------------------------------- what a grace period waits for

  /** Thread u is in one and the same read section from state i to state j. */
  ghost predicate InsideThroughout(tr: seq<Sys>, u: Tid, i: nat, j: nat) {
    i <= j < |tr| && forall m :: i <= m <= j ==> tr[m].At(u).InSection()
  }

  /** Thread u has been out of its section at some time between. */
  ghost predicate LeftBetween(tr: seq<Sys>, u: Tid, i: nat, j: nat) {
    exists m :: i <= m <= j < |tr| && !tr[m].At(u).InSection()
  }

  ghost predicate NoReads(env: seq<seq<Action>>) {
    forall k, i :: 0 <= k < |env| && 0 <= i < |env[k]| ==> !env[k][i].Read?
  }

  lemma GraceStep(s: Sys, a: Action, t: Tid)
    requires Inv(s) && s.At(t).UpdGrace? && a.t != t && s.grace <= s.Sections()
    ensures var s' := Step(s, a);
            && s'.At(t) == s.At(t) && s'.grace <= s.grace && s'.grace <= s'.Sections()
            && forall u :: u in s.grace && u !in s'.grace ==> !s'.At(u).InSection()
  {
    hide Linked, ReaderOk, WriterOk;
    assert s.At(a.t).Updating() <==> s.lock == Some(a.t);
    assert s.At(t).Updating() <==> s.lock == Some(t);
    if a.Go? && s.At(a.t).InSection() { ReaderMoves(s, a.t); }
  }

  /** While the updater waits, a reader it waits for is one that is still in its section, and one it no longer waits for
      has left it. */
  lemma {:induction false} GraceRun(tr: seq<Sys>, acts: seq<Action>, i: nat, j: nat, t: Tid)
    requires Run(Step, tr, acts) && Inv(tr[0]) && i <= j <= |acts|
    requires tr[i].At(t).UpdGrace? && tr[i].grace <= tr[i].Sections() && forall m :: i <= m < j ==> acts[m].t != t
    ensures tr[j].At(t) == tr[i].At(t) && tr[j].grace <= tr[i].grace && tr[j].grace <= tr[j].Sections()
    ensures forall u :: u in tr[j].grace ==> InsideThroughout(tr, u, i, j)
    ensures forall u :: u in tr[i].grace && u !in tr[j].grace ==> LeftBetween(tr, u, i, j)
  {
    hide Inv, Step;
    if i < j {
      GraceRun(tr, acts, i, j - 1, t);
      InvAlways(tr, acts, j - 1);
      assert Follows(Step, tr, acts, j - 1);
      GraceStep(tr[j - 1], acts[j - 1], t);
      forall u | u in tr[j].grace ensures InsideThroughout(tr, u, i, j) {
        assert InsideThroughout(tr, u, i, j - 1);
        assert u in tr[j].Sections();
      }
      forall u | u in tr[i].grace && u !in tr[j].grace ensures LeftBetween(tr, u, i, j) {
        if u in tr[j - 1].grace {
          assert !tr[j].At(u).InSection();
        } else {
          var m :| i <= m <= j - 1 && !tr[m].At(u).InSection();
        }
      }
    }
  }

  lemma LeftStays(tr: seq<Sys>, tr': seq<Sys>, u: Tid, i: nat, j: nat)
    requires tr <= tr' && LeftBetween(tr, u, i, j) && j + 1 < |tr'|
    ensures LeftBetween(tr', u, i, j + 1)
  {
    var m :| i <= m <= j < |tr| && !tr[m].At(u).InSection();
    assert tr'[m] == tr[m];
  }

  lemma NoNewSection(s: Sys, a: Action)
    requires !a.Read?
    ensures Step(s, a).Sections() <= s.Sections()
  {
    forall u | u in Step(s, a).Sections() ensures u in s.Sections() {}
  }

  /** Without a READ no section begins. */
  lemma {:induction false} SectionsShrink(tr: seq<Sys>, acts: seq<Action>, i: nat, j: nat)
    requires Run(Step, tr, acts) && i <= j <= |acts| && forall m :: i <= m < j ==> !acts[m].Read?
    ensures tr[j].Sections() <= tr[i].Sections()
  {
    hide Step;
    if i < j {
      SectionsShrink(tr, acts, i, j - 1);
      assert Follows(Step, tr, acts, j - 1);
      NoNewSection(tr[j - 1], acts[j - 1]);
    }
  }

  /** list_add_tail_rcu of node p with the given id and data. */
  function AddTail(heap: map<Ptr, Node>, p: Ptr, id: nat, data: nat): map<Ptr, Node>
    requires HEAD in heap && heap[HEAD].prev in heap
  {
    var last := heap[HEAD].prev;
    var h := heap[p := Node(HEAD, last, id, data)];
    var h1 := h[HEAD := h[HEAD].(prev := p)];
    h1[last := h1[last].(next := p)]
  }

  /** AddTail, address by address. */
  ghost predicate Appended(heap: map<Ptr, Node>, heap': map<Ptr, Node>, p: Ptr, id: nat, data: nat)
    requires HEAD in heap && heap[HEAD].prev in heap
  {
    && heap'.Keys == heap.Keys + {p} && heap'[p] == Node(HEAD, heap[HEAD].prev, id, data)
    && forall x :: x in heap ==>
         heap'[x] == heap[x].(next := if x == heap[HEAD].prev then p else heap[x].next,
                              prev := if x == HEAD then p else heap[x].prev)
  }

  lemma AppendedLinkedAt(heap: map<Ptr, Node>, heap': map<Ptr, Node>, spine: seq<Ptr>, p: Ptr, id: nat, data: nat,
      j: nat)
    requires Linked(heap, spine) && p !in heap && heap[HEAD].prev in heap && Appended(heap, heap', p, id, data)
    requires j <= |spine|
    ensures var spine' := spine + [p]; spine'[j] in heap' && LinkedAt(heap', spine', j)
  {
    if j < |spine| {
      assert LinkedAt(heap, spine, j) && spine[j] in spine;
      assert spine[j] == PtrAt(spine, |spine| - 1) <==> j == |spine| - 1;
    }
  }

  lemma AddTailLinks(heap: map<Ptr, Node>, spine: seq<Ptr>, p: Ptr, id: nat, data: nat)
    requires Linked(heap, spine) && p !in heap
    ensures heap[HEAD].prev in heap
    ensures var heap' := AddTail(heap, p, id, data);
            Linked(heap', spine + [p]) && Appended(heap, heap', p, id, data)
  {
    assert spine != [] ==> spine[|spine| - 1] in spine;
    var heap', spine' := AddTail(heap, p, id, data), spine + [p];
    assert Appended(heap, heap', p, id, data);
    hide LinkedAt, Appended, AddTail;
    AppendedEnds(heap, heap', spine, p, id, data);
    forall j | 0 <= j < |spine'| ensures spine'[j] in heap' && LinkedAt(heap', spine', j) {
      AppendedLinkedAt(heap, heap', spine, p, id, data, j);
    }
  }

  lemma AppendedEnds(heap: map<Ptr, Node>, heap': map<Ptr, Node>, spine: seq<Ptr>, p: Ptr, id: nat, data: nat)
    requires Linked(heap, spine) && p !in heap && heap[HEAD].prev in heap && Appended(heap, heap', p, id, data)
    ensures var spine' := spine + [p];
            && HEAD in heap' && HEAD !in spine' && (forall i, j :: 0 <= i < j < |spine'| ==> spine'[i] != spine'[j])
            && heap'[HEAD].next == PtrAt(spine', 0) && heap'[HEAD].prev == PtrAt(spine', |spine|)
  {
    assert spine != [] ==> spine[|spine| - 1] in spine;
  }

  /** list_del_rcu of the first node, then kfree. */
  function DeleteFirst(heap: map<Ptr, Node>, p: Ptr): map<Ptr, Node>
    requires p in heap && heap[p].next in heap && heap[p].prev in heap
  {
    var h := heap[heap[p].next := heap[heap[p].next].(prev := heap[p].prev)];
    var h1 := h[h[p].prev := h[h[p].prev].(next := h[p].next)];
    h1[p := h1[p].(prev := POISON)] - {p}
  }

  /** DeleteFirst, address by address. */
  ghost predicate Removed(heap: map<Ptr, Node>, heap': map<Ptr, Node>, p: Ptr)
    requires p in heap
  {
    && heap'.Keys == heap.Keys - {p}
    && forall x :: x in heap' ==>
         heap'[x] == heap[x].(next := if x == heap[p].prev then heap[p].next else heap[x].next,
                              prev := if x == heap[p].next then heap[p].prev else heap[x].prev)
  }

  lemma DeleteFirstRemoves(heap: map<Ptr, Node>, spine: seq<Ptr>)
    requires Linked(heap, spine) && spine != []
    ensures var p := spine[0];
            heap[p].next in heap && heap[p].prev in heap && Removed(heap, DeleteFirst(heap, p), p)
  {
    assert LinkedAt(heap, spine, 0) && spine[0] in spine;
    assert |spine| > 1 ==> spine[1] in spine;
  }

  lemma FirstOf(heap: map<Ptr, Node>, spine: seq<Ptr>)
    requires Linked(heap, spine)
    ensures spine != [] ==> spine[0] in heap && spine[0] != HEAD && heap[spine[0]].next == PtrAt(spine, 1)
    ensures HEAD in heap && heap[HEAD].next == PtrAt(spine, 0)
  {
    if spine != [] { assert LinkedAt(heap, spine, 0) && spine[0] in spine; }
  }

  lemma Emptied(heap: map<Ptr, Node>, spine: seq<Ptr>)
    requires Linked(heap, spine) && heap.Keys == {HEAD} + Addresses(spine) && PtrAt(spine, 0) == HEAD
    ensures spine == [] && heap.Keys == {HEAD} && heap[HEAD].next == HEAD
  {
    assert forall i :: 0 <= i < |spine| ==> spine[i] in spine;
  }

  lemma AtRest(s: Sys)
    requires Inv(s) && s.lock.None?
    ensures Linked(s.heap, s.spine) && s.heap.Keys == {HEAD} + Addresses(s.spine)
  {}

  lemma EmptyList(heap: map<Ptr, Node>, spine: seq<Ptr>)
    requires heap == map[HEAD := Node(HEAD, HEAD, 0, 0)] && spine == []
    ensures FirstNodes(heap, spine, 0)
  {}

  /** The list holds ids 1 to i, each with data 100, and the heap holds nothing else. */
  ghost predicate FirstNodes(heap: map<Ptr, Node>, spine: seq<Ptr>, i: nat) {
    && Linked(heap, spine) && heap.Keys == {HEAD} + Addresses(spine) && |spine| == i
    && forall j :: 0 <= j < i ==> spine[j] in heap && heap[spine[j]].id == j + 1 && heap[spine[j]].data == 100
  }

  lemma AppendNode(heap: map<Ptr, Node>, spine: seq<Ptr>, p: Ptr, i: nat)
    requires FirstNodes(heap, spine, i) && p !in heap
    ensures HEAD in heap && heap[HEAD].prev in heap
    ensures FirstNodes(AddTail(heap, p, i + 1, 100), spine + [p], i + 1)
  {
    hide LinkedAt, AddTail;
    AddTailLinks(heap, spine, p, i + 1, 100);
    assert Addresses(spine + [p]) == Addresses(spine) + {p};
  }

  lemma FreshIsInitial(s: Sys)
    requires FirstNodes(s.heap, s.spine, 5) && s.lock == None && s.grace == {} && s.threads == map[] && !s.fault
    ensures Initial(s) && Inv(s)
  {
    hide Linked;
    assert Contents(s) == [(1, 100), (2, 100), (3, 100), (4, 100), (5, 100)];
  }

  lemma RemovedLinkedAt(heap: map<Ptr, Node>, heap': map<Ptr, Node>, spine: seq<Ptr>, j: nat)
    requires Linked(heap, spine) && spine != [] && Removed(heap, heap', spine[0]) && j + 1 < |spine|
    ensures var rest := spine[1..]; rest[j] in heap' && LinkedAt(heap', rest, j)
  {
    assert LinkedAt(heap, spine, 0) && LinkedAt(heap, spine, j + 1) && spine[j + 1] in spine;
    assert spine[j + 1] == PtrAt(spine, 1) <==> j == 0;
  }

  lemma RemovedEnds(heap: map<Ptr, Node>, heap': map<Ptr, Node>, spine: seq<Ptr>)
    requires Linked(heap, spine) && spine != [] && Removed(heap, heap', spine[0])
    requires heap.Keys == {HEAD} + Addresses(spine)
    ensures var rest := spine[1..];
            && HEAD in heap' && HEAD !in rest && (forall i, j :: 0 <= i < j < |rest| ==> rest[i] != rest[j])
            && heap'[HEAD].next == PtrAt(rest, 0) && heap'[HEAD].prev == PtrAt(rest, |rest| - 1)
            && heap'.Keys == {HEAD} + Addresses(rest)
  {
    var rest := spine[1..];
    assert LinkedAt(heap, spine, 0) && spine[0] in spine && spine == [spine[0]] + rest && spine[0] !in rest;
    assert |rest| > 0 ==> spine[1] in spine && rest[|rest| - 1] in rest;
    assert Addresses(spine) == {spine[0]} + Addresses(rest);
  }

  lemma RemovedLinks(heap: map<Ptr, Node>, heap': map<Ptr, Node>, spine: seq<Ptr>)
    requires Linked(heap, spine) && spine != [] && Removed(heap, heap', spine[0])
    requires heap.Keys == {HEAD} + Addresses(spine)
    ensures Linked(heap', spine[1..]) && heap'.Keys == {HEAD} + Addresses(spine[1..])
  {
    hide LinkedAt, Removed, Addresses;
    var rest := spine[1..];
    RemovedEnds(heap, heap', spine);
    forall j | 0 <= j < |rest| ensures rest[j] in heap' && LinkedAt(heap', rest, j) {
      RemovedLinkedAt(heap, heap', spine, j);
    }
  }

  /** LockBusy and InGrace: the call is still waiting, for the lock or for its grace period. */
  datatype Outcome = LockBusy | InGrace | NotFound | Updated(data: nat)

  class Device {
    var heap: map<Ptr, Node>
    var spine: seq<Ptr>
    var lock: Option<Tid>
    var grace: set<Tid>
    var threads: map<Tid, Phase>
    var fault: bool
    ghost var tr: seq<Sys>
    ghost var acts: seq<Action>

    function Now(): Sys
      reads this
    {
      Sys(heap, spine, lock, grace, threads, fault)
    }

    ghost predicate Valid()
      reads this
    {
      |tr| == |acts| + 1 && Run(Step, tr, acts) && tr[|acts|] == Now() && Inv(tr[0])
    }

    /** simple_rculist_init. */
    constructor ()
      ensures Valid() && Initial(Now()) && tr == [Now()] && acts == []
    {
      heap, spine := map[HEAD := Node(HEAD, HEAD, 0, 0)], [];
      lock, grace, threads, fault := None, {}, map[], false;
      new;
      hide Linked, FirstNodes, AddTail, Inv, Initial, Contents;
      EmptyList(heap, spine);
      for i := 0 to 5
        invariant FirstNodes(heap, spine, i)
        invariant lock == None && grace == {} && threads == map[] && !fault
      {
        AddEntry(i);
      }
      FreshIsInitial(Now());
      tr, acts := [Now()], [];
    }

    /** kmalloc, id, data, list_add_tail_rcu. */
    method AddEntry(i: nat)
      requires FirstNodes(heap, spine, i)
      modifies this`heap, this`spine
      ensures FirstNodes(heap, spine, i + 1)
    {
      hide FirstNodes, AddTail;
      var p := KMalloc(heap);
      AppendNode(heap, spine, p, i);
      heap, spine := AddTail(heap, p, i + 1, 100), spine + [p];
    }

    /** simple_rculist_exit, once no caller is inside: frees every node that is left exactly once. */
    method Exit() returns (freed: seq<Ptr>)
      requires Valid() && lock.None? && forall t: Tid :: Now().At(t).Idle?
      modifies this
      ensures freed == old(spine) && heap.Keys == {HEAD} && heap[HEAD].next == HEAD
    {
      hide Inv, Linked, DeleteFirst, Addresses, Run;
      Safe();
      AtRest(Now());
      freed := [];
      FirstOf(heap, spine);
      var tmp := heap[HEAD].next;
      ghost var rest := spine;
      while tmp != HEAD
        invariant Linked(heap, rest) && heap.Keys == {HEAD} + Addresses(rest) && tmp == PtrAt(rest, 0)
        invariant freed + rest == old(spine)
        decreases |rest|
      {
        FirstOf(heap, rest);
        DeleteFirstRemoves(heap, rest);
        RemovedLinks(heap, DeleteFirst(heap, tmp), rest);
        var pos := heap[tmp].next;
        heap := DeleteFirst(heap, tmp);
        freed, rest := freed + [tmp], rest[1..];
        tmp := pos;
      }
      Emptied(heap, rest);
    }

    lemma Safe()
      requires Valid()
      ensures Inv(Now())
    {
      InvAlways(tr, acts, |acts|);
    }

    /** One step of some other thread. */
    method Perform(a: Action)
      requires Valid()
      modifies this
      ensures Valid() && Now() == Step(old(Now()), a)
      ensures tr == old(tr) + [Now()] && acts == old(acts) + [a]
    {
      hide Step, Inv;
      var s := Step(Now(), a);
      heap, spine, lock, grace, threads, fault := s.heap, s.spine, s.lock, s.grace, s.threads, s.fault;
      Extends(Step, tr, acts, a);
      tr, acts := tr + [s], acts + [a];
    }

    /** The environment acts while thread t is preempted. */
    method Interfere(t: Tid, batch: seq<Action>)
      requires Valid() && forall i :: 0 <= i < |batch| ==> batch[i].t != t
      modifies this
      ensures Valid() && old(tr) <= tr && acts == old(acts) + batch
      ensures Now().At(t) == old(Now()).At(t)
      ensures forall k :: |old(tr)| <= k < |tr| ==> tr[k].At(t) == old(Now()).At(t)
      ensures |spine| == old(|spine|)
      ensures old(Now()).At(t).InSection() ==> forall pos, i ::
                0 <= i < |spine| && Standing(old(Now()), t, pos, i) ==> Standing(Now(), t, pos, i)
      ensures old(Now()).At(t).Updating() ==> spine == old(spine) && Contents(Now()) == Contents(old(Now()))
    {
      hide Step, Inv, Standing, Contents;
      for j := 0 to |batch|
        invariant Valid() && old(tr) <= tr && acts == old(acts) + batch[..j]
        invariant Now().At(t) == old(Now()).At(t)
        invariant forall k :: |old(tr)| <= k < |tr| ==> tr[k].At(t) == old(Now()).At(t)
        invariant |spine| == old(|spine|)
        invariant old(Now()).At(t).InSection() ==> forall pos, i ::
                    0 <= i < |spine| && Standing(old(Now()), t, pos, i) ==> Standing(Now(), t, pos, i)
        invariant old(Now()).At(t).Updating() ==> spine == old(spine) && Contents(Now()) == Contents(old(Now()))
      {
        ghost var s := Now();
        Safe();
        OthersKeepPhase(s, batch[j], t);
        OthersKeepLength(s, batch[j], t);
        Perform(batch[j]);
        if s.At(t).InSection() {
          forall pos, i | 0 <= i < |s.spine| && Standing(s, t, pos, i) ensures Standing(Now(), t, pos, i) {
            StandingStays(s, batch[j], t, pos, i);
          }
        }
      }
    }

    /** Note the caller's own step in the run. */
    ghost method Record(a: Action, s: Sys)
      requires Run(Step, tr, acts) && tr[|acts|] == s && Inv(tr[0]) && Now() == Step(s, a)
      modifies this`tr, this`acts
      ensures Valid() && tr == old(tr) + [Now()] && acts == old(acts) + [a]
    {
      hide Step, Inv;
      Extends(Step, tr, acts, a);
      tr, acts := tr + [Now()], acts + [a];
    }

    // ---------------------------------------------------------------- IOCTL_READ

    /** Thread t began a READ of `arg` at position `start` of the run and has been in that section ever since. */
    ghost predicate Reading(t: Tid, arg: nat, start: nat)
      reads this
    {
      Valid() && InSectionFrom(tr, start, |tr| - 1, t, arg)
    }

    /** Preemption inside a read section. */
    method Preempt(t: Tid, arg: nat, batch: seq<Action>, ghost start: nat)
      requires Reading(t, arg, start) && forall i :: 0 <= i < |batch| ==> batch[i].t != t
      modifies this
      ensures Reading(t, arg, start) && old(tr) <= tr && |spine| == old(|spine|)
      ensures Now().At(t) == old(Now()).At(t)
      ensures forall pos, i :: 0 <= i < |spine| && Standing(old(Now()), t, pos, i) ==> Standing(Now(), t, pos, i)
    {
      hide Inv, Step, Run, Standing;
      assert old(tr)[|old(tr)| - 1].At(t).InSection();
      Interfere(t, batch);
    }

    /** The reader's own step: `threads` records how far it is. */
    method Advance(t: Tid, arg: nat, ph: Phase, ghost start: nat)
      requires Reading(t, arg, start) && ph.InSection()
      requires Step(Now(), Go(t, 0)) == Now().Goto(t, ph)
      modifies this
      ensures Reading(t, arg, start) && old(tr) <= tr && Now() == old(Now()).Goto(t, ph)
    {
      hide Inv, Step, Run;
      ghost var s := Now();
      threads := threads[t := ph];
      Record(Go(t, 0), s);
    }

    method LoadHead(t: Tid, arg: nat, ghost start: nat) returns (pos: Ptr)
      requires Reading(t, arg, start) && Now().At(t) == ReadHead(arg)
      modifies this
      ensures Reading(t, arg, start) && old(tr) <= tr && Now().At(t) == ReadAt(arg, pos) && spine == old(spine)
      ensures pos != HEAD ==> 0 < |spine| && Standing(Now(), t, pos, 0)
    {
      hide InSectionFrom, Run, ReaderOk, WriterOk;
      Safe();
      pos := heap[HEAD].next;
      Advance(t, arg, ReadAt(arg, pos), start);
    }

    method LoadId(t: Tid, arg: nat, pos: Ptr, ghost start: nat) returns (id: nat)
      requires Reading(t, arg, start) && Now().At(t) == ReadAt(arg, pos) && pos != HEAD
      modifies this
      ensures Reading(t, arg, start) && old(tr) <= tr && spine == old(spine)
      ensures Now().At(t) == if id == arg then ReadHit(arg, pos) else ReadNext(arg, pos)
      ensures forall i :: 0 <= i < |spine| && Standing(old(Now()), t, pos, i) ==> Standing(Now(), t, pos, i)
    {
      hide InSectionFrom, Run, WriterOk, Linked;
      Safe();
      assert ReaderOk(Now(), t) && lock != Some(t);
      id := heap[pos].id;
      Advance(t, arg, if id == arg then ReadHit(arg, pos) else ReadNext(arg, pos), start);
    }

    method LoadNext(t: Tid, arg: nat, pos: Ptr, ghost i: nat, ghost start: nat) returns (next: Ptr)
      requires Reading(t, arg, start) && Now().At(t) == ReadNext(arg, pos) && i < |spine| && Standing(Now(), t, pos, i)
      modifies this
      ensures Reading(t, arg, start) && old(tr) <= tr && Now().At(t) == ReadAt(arg, next) && spine == old(spine)
      ensures next != HEAD ==> i + 1 < |spine| && Standing(Now(), t, next, i + 1)
    {
      hide InSectionFrom, Run;
      Safe();
      assert ReaderOk(Now(), t) && LinkedAt(heap, spine, i);
      next := heap[pos].next;
      Advance(t, arg, ReadAt(arg, next), start);
    }

    method LoadData(t: Tid, arg: nat, pos: Ptr, ghost start: nat) returns (data: nat)
      requires Reading(t, arg, start) && Now().At(t) == ReadHit(arg, pos)
      modifies this
      ensures Reading(t, arg, start) && old(tr) <= tr && Now().At(t) == ReadDone(arg, Some(data)) && spine == old(spine)
    {
      hide InSectionFrom, Run, WriterOk, Linked;
      Safe();
      assert ReaderOk(Now(), t);
      data := heap[pos].data;
      Advance(t, arg, ReadDone(arg, Some(data)), start);
    }

    /** One round of the loop below, for the i-th node: load its id, then either its data or its successor. */
    method Visit(t: Tid, arg: nat, env: seq<seq<Action>>, k: nat, pos: Ptr, ghost i: nat, ghost start: nat)
      returns (out: Option<nat>, next: Ptr)
      requires Reading(t, arg, start) && Others(env, t) && Now().At(t) == ReadAt(arg, pos)
      requires pos != HEAD && i < |spine| && Standing(Now(), t, pos, i)
      modifies this
      ensures Reading(t, arg, start) && old(tr) <= tr && |spine| == old(|spine|)
      ensures Now().At(t) == if out.Some? then ReadDone(arg, out) else ReadAt(arg, next)
      ensures out.None? && next != HEAD ==> i + 1 < |spine| && Standing(Now(), t, next, i + 1)
    {
      hide Standing, Reading;
      Preempt(t, arg, Batch(env, k), start);
      var id := LoadId(t, arg, pos, start);
      Preempt(t, arg, Batch(env, k + 1), start);
      out, next := None, HEAD;
      if id == arg {
        var data := LoadData(t, arg, pos, start);
        out := Some(data);
      } else {
        next := LoadNext(t, arg, pos, i, start);
      }
    }

    /** The list_for_each_entry_rcu loop of IOCTL_READ. It terminates: each round moves one place down the list. */
    method Walk(t: Tid, arg: nat, env: seq<seq<Action>>, ghost start: nat) returns (out: Option<nat>, k: nat)
      requires Reading(t, arg, start) && Others(env, t) && Now().At(t) == ReadHead(arg)
      modifies this
      ensures Reading(t, arg, start) && old(tr) <= tr && Now().At(t) == ReadDone(arg, out)
    {
      hide Standing, Reading, Others;
      var pos := LoadHead(t, arg, start);
      ghost var i := 0;
      out, k := None, 1;
      while pos != HEAD
        invariant Reading(t, arg, start) && old(tr) <= tr
        invariant out.None? && Now().At(t) == ReadAt(arg, pos)
        invariant i <= |spine| && (pos != HEAD ==> i < |spine| && Standing(Now(), t, pos, i))
        decreases |spine| - i, pos != HEAD
      {
        var next;
        out, next := Visit(t, arg, env, k, pos, i, start);
        k := k + 2;
        if out.Some? { return; }
        pos, i := next, i + 1;
      }
      LeaveList(t, arg, start);
    }

    method LeaveList(t: Tid, arg: nat, ghost start: nat)
      requires Reading(t, arg, start) && Now().At(t) == ReadAt(arg, HEAD)
      modifies this
      ensures Reading(t, arg, start) && old(tr) <= tr && Now().At(t) == ReadDone(arg, None)
    {
      hide InSectionFrom, Run, WriterOk, Linked;
      Safe();
      Advance(t, arg, ReadDone(arg, None), start);
    }

    method RcuReadLock(t: Tid, arg: nat)
      requires Valid() && Now().At(t).Idle?
      modifies this
      ensures Reading(t, arg, |old(tr)|) && tr == old(tr) + [Now()] && Now().At(t) == ReadHead(arg)
    {
      ghost var s := Now();
      Safe();
      threads := threads[t := ReadHead(arg)];
      Record(Read(t, arg), s);
    }

    method RcuReadUnlock(t: Tid)
      requires Valid() && Now().At(t).ReadDone?
      modifies this
      ensures Valid() && tr == old(tr) + [Now()] && Now().At(t) == Idle
    {
      ghost var s := Now();
      Safe();
      grace, threads := grace - {t}, threads[t := Idle];
      Record(Go(t, 0), s);
    }

    /** IOCTL_READ up to the last use of the list. */
    method ReadSection(t: Tid, arg: nat, env: seq<seq<Action>>)
      returns (out: Option<nat>, k: nat, ghost start: nat, ghost end: nat)
      requires Valid() && Now().At(t).Idle? && Others(env, t)
      modifies this
      ensures Valid() && old(tr) <= tr && Now().At(t) == ReadDone(arg, out)
      ensures |old(tr)| <= start <= end < |tr| && Answered(tr, start, end, arg, out)
      ensures out.None? <==> arg !in Ids(Contents(old(tr)[0]))
    {
      hide Inv, Standing, Step, Run, Lookup, Contents;
      RcuReadLock(t, arg);
      start := |tr| - 1;
      Preempt(t, arg, Batch(env, 0), start);
      out, k := Walk(t, arg, env, start);
      end := |tr| - 1;
      ReadLinearizes(tr, acts, start, end, t, arg);
      ReadMissesOnlyAbsentIds(tr, acts, |acts|, t);
    }

    /** IOCTL_READ under any interference: never touches freed memory, terminates, finds exactly the ids that are on
        the list, and returns what the list committed to at some instant `start..end` of this very section. */
    method IoctlRead(t: Tid, arg: nat, env: seq<seq<Action>>)
        returns (out: Option<nat>, ghost start: nat, ghost end: nat)
      requires Valid() && Now().At(t).Idle? && Others(env, t)
      modifies this
      ensures Valid() && old(tr) <= tr && Now().At(t).Idle?
      ensures |old(tr)| <= start <= end < |tr| && Answered(tr, start, end, arg, out)
      ensures out.None? <==> arg !in Ids(Contents(old(tr)[0]))
    {
      hide Inv, Standing, Step, Run, Lookup, Contents, Answered;
      var k;
      out, k, start, end := ReadSection(t, arg, env);
      ghost var done := tr;
      Interfere(t, Batch(env, k));
      RcuReadUnlock(t);
      AnsweredStays(done, tr, start, end, arg, out);
    }

    // ---------------------------------------------------------------- IOCTL_UPDATE

    /** The updater's own step from s to the present. */
    ghost method Note(t: Tid, addr: Ptr, s: Sys)
      requires Run(Step, tr, acts) && |tr| == |acts| + 1 && tr[|acts|] == s && Inv(tr[0])
      requires Now() == Step(s, Go(t, addr))
      modifies this`tr, this`acts
      ensures Valid() && old(tr) <= tr && acts == old(acts) + [Go(t, addr)] && Inv(Now())
    {
      hide Step, Inv;
      Record(Go(t, addr), s);
      Safe();
    }

    method SpinLock(t: Tid, arg: nat)
      requires Valid() && Now().At(t).Idle? && lock.None?
      modifies this
      ensures Valid() && old(tr) <= tr && acts == old(acts) + [Update(t, arg)]
      ensures Now().At(t) == UpdHead(arg) && spine == old(spine)
      ensures Contents(Now()) == Contents(old(Now()))
    {
      hide Inv;
      ghost var s := Now();
      Safe();
      assert !s.fault by { Unfaulted(s); }
      lock, threads := Some(t), threads[t := UpdHead(arg)];
      Record(Update(t, arg), s);
    }

    lemma Unfaulted(s: Sys)
      requires Inv(s)
      ensures !s.fault && HEAD in s.heap
    {}

    /** No READ has begun since action n of the run. */
    ghost predicate NoReadSince(n: nat)
      reads this
    {
      forall m :: n <= m < |acts| ==> !acts[m].Read?
    }

    /** The list_for_each_entry_rcu loop of IOCTL_UPDATE, under the lock. */
    method Search(t: Tid, arg: nat, env: seq<seq<Action>>) returns (pos: Ptr)
      requires Valid() && Others(env, t) && Now().At(t) == UpdHead(arg)
      modifies this
      ensures Valid() && old(tr) <= tr && Contents(Now()) == Contents(old(Now()))
      ensures Now().At(t) == if pos == HEAD then UpdAt(arg, HEAD) else UpdFound(arg, pos)
      ensures old(acts) <= acts && (NoReads(env) ==> NoReadSince(|old(acts)|))
    {
      hide Inv, Step, Run, Contents;
      pos := FirstEntry(t, arg);
      ghost var i := 0;
      var k := 0;
      while pos != HEAD
        invariant Valid() && old(tr) <= tr && Contents(Now()) == Contents(old(Now()))
        invariant old(acts) <= acts && (NoReads(env) ==> NoReadSince(|old(acts)|))
        invariant Now().At(t) == UpdAt(arg, pos)
        invariant pos != HEAD ==> i < |spine| && spine[i] == pos
        decreases |spine| - i, pos != HEAD
      {
        Interfere(t, Batch(env, k));
        var hit;
        hit, pos := Compare(t, arg, pos, i);
        if hit { return; }
        i, k := i + 1, k + 1;
      }
    }

    method FirstEntry(t: Tid, arg: nat) returns (pos: Ptr)
      requires Valid() && Now().At(t) == UpdHead(arg)
      modifies this
      ensures Valid() && old(tr) <= tr && Contents(Now()) == Contents(old(Now())) && spine == old(spine)
      ensures Now().At(t) == UpdAt(arg, pos) && (pos != HEAD ==> 0 < |spine| && spine[0] == pos)
      ensures acts == old(acts) + [Go(t, 0)]
    {
      hide ReaderOk, WriterOk;
      ghost var s := Now();
      Safe();
      pos := heap[HEAD].next;
      threads := threads[t := UpdAt(arg, pos)];
      Note(t, 0, s);
    }

    method Compare(t: Tid, arg: nat, pos: Ptr, ghost i: nat) returns (hit: bool, next: Ptr)
      requires Valid() && Now().At(t) == UpdAt(arg, pos) && pos != HEAD && i < |spine| && spine[i] == pos
      modifies this
      ensures Valid() && old(tr) <= tr && Contents(Now()) == Contents(old(Now())) && spine == old(spine)
      ensures if hit then next == pos && Now().At(t) == UpdFound(arg, pos)
              else Now().At(t) == UpdAt(arg, next) && (next != HEAD ==> i + 1 < |spine| && spine[i + 1] == next)
      ensures acts == old(acts) + [Go(t, 0)]
    {
      hide ReaderOk, WriterOk;
      ghost var s := Now();
      Safe();
      assert LinkedAt(heap, spine, i);
      if heap[pos].id == arg {
        hit, next := true, pos;
        threads := threads[t := UpdFound(arg, pos)];
      } else {
        hit, next := false, heap[pos].next;
        threads := threads[t := UpdAt(arg, next)];
      }
      Note(t, 0, s);
    }

    /** kmalloc, memcpy, data++. */
    method CopyNode(t: Tid, arg: nat, victim: Ptr) returns (copy: Ptr)
      requires Valid() && Now().At(t) == UpdFound(arg, victim)
      modifies this
      ensures Valid() && old(tr) <= tr && Contents(Now()) == Contents(old(Now()))
      ensures Now().At(t) == UpdReady(arg, victim, copy) && copy !in old(heap)
      ensures acts == old(acts) + [Go(t, copy)]
    {
      hide ReaderOk, Linked;
      ghost var s := Now();
      Safe();
      assert lock == Some(t);
      copy := KMalloc(heap);
      AllocKeepsInv(s, t, copy);
      heap := heap[copy := Incremented(heap[victim])];
      threads := threads[t := UpdReady(arg, victim, copy)];
      Note(t, copy, s);
    }

    lemma ReadyToReplace(s: Sys, t: Tid, arg: nat, victim: Ptr, copy: Ptr)
      requires Inv(s) && s.At(t) == UpdReady(arg, victim, copy)
      ensures !s.fault && victim in s.heap && s.heap[victim].prev in s.heap && s.heap[victim].next in s.heap
      ensures Contents(Step(s, Go(t, 0))) == Bump(Contents(s), arg)
    {
      hide ReaderOk, Bump, Contents;
      assert s.At(t).Updating() && s.lock == Some(t);
      var i :| 0 <= i < |s.spine| && s.spine[i] == victim && Passed(s, arg, i);
      VictimNeighbours(s, victim, i);
      PublishKeepsInv(s, t, 0);
    }

    /** list_replace_rcu. */
    method ReplaceNode(t: Tid, arg: nat, victim: Ptr, copy: Ptr)
      requires Valid() && Now().At(t) == UpdReady(arg, victim, copy)
      modifies this
      ensures Valid() && old(tr) <= tr && Contents(Now()) == Bump(Contents(old(Now())), arg)
      ensures Now().At(t) == UpdReplaced(arg, victim, copy)
      ensures acts == old(acts) + [Go(t, 0)]
    {
      hide Inv, Contents, Bump, Run;
      ghost var s := Now();
      Safe();
      ReadyToReplace(s, t, arg, victim, copy);
      var prev, next := heap[victim].prev, heap[victim].next;
      heap := heap[prev := heap[prev].(next := copy)];
      heap := heap[next := heap[next].(prev := copy)];
      heap := heap[victim := heap[victim].(prev := POISON)];
      spine := Replaced(spine, victim, copy);
      threads := threads[t := UpdReplaced(arg, victim, copy)];
      Note(t, 0, s);
    }

    /** synchronize_rcu runs the others' steps until every section that was open at the call has ended. It is not done
        only if all of them have been run and some reader is still in a section that was open at the call. */
    method SynchronizeRcu(t: Tid, arg: nat, victim: Ptr, copy: Ptr, env: seq<seq<Action>>)
        returns (done: bool, ghost k: nat)
      requires Valid() && Others(env, t) && Now().At(t) == UpdReplaced(arg, victim, copy)
      modifies this
      ensures Valid() && old(tr) <= tr && Contents(Now()) == Contents(old(Now()))
      ensures Now().At(t) == if done then UpdFree(arg, victim, copy) else UpdGrace(arg, victim, copy)
      ensures k <= |env| && acts == old(acts) + [Go(t, 0)] + Flat(env[..k]) + if done then [Go(t, 0)] else []
      ensures done ==> forall u :: u in old(Now().Sections()) ==> LeftBetween(tr, u, |old(acts)|, |acts|)
      ensures !done ==> k == |env| && grace != {} && grace <= old(Now().Sections())
      ensures !done ==> forall u :: u in grace ==> InsideThroughout(tr, u, |old(acts)|, |acts|)
    {
      hide Inv, Contents, Run, LeftBetween, InsideThroughout;
      CallSynchronize(t, arg, victim, copy);
      ghost var n := |old(acts)|;
      k := WaitForGrace(t, env);
      GraceRun(tr, acts, n + 1, |acts|, t);
      GraceFromCall(n);
      done := grace == {};
      if done {
        assert forall u :: u in tr[n].Sections() ==> LeftBetween(tr, u, n, |acts|);
        ghost var before := tr;
        EndGrace(t, arg, victim, copy);
        forall u | u in old(Now().Sections()) ensures LeftBetween(tr, u, n, |acts|) {
          LeftStays(before, tr, u, n, |before| - 1);
        }
      }
    }

    /** The readers that the call at action n still waits for, and those it has waited for, counted from the call
        itself. */
    lemma GraceFromCall(n: nat)
      requires Valid() && n + 1 < |tr| && tr[n + 1].grace == tr[n].Sections()
      requires forall u :: u in grace ==> InsideThroughout(tr, u, n + 1, |acts|)
      requires forall u :: u in tr[n + 1].grace && u !in grace ==> LeftBetween(tr, u, n + 1, |acts|)
      requires grace <= tr[n + 1].grace
      ensures forall u :: u in grace ==> InsideThroughout(tr, u, n, |acts|)
      ensures forall u :: u in tr[n].Sections() && u !in grace ==> LeftBetween(tr, u, n, |acts|)
    {
      hide Inv, Step;
      forall u | u in grace ensures InsideThroughout(tr, u, n, |acts|) {
        assert InsideThroughout(tr, u, n + 1, |acts|) && u in tr[n].Sections();
      }
      forall u | u in tr[n].Sections() && u !in grace ensures LeftBetween(tr, u, n, |acts|) {
        var m :| n + 1 <= m <= |acts| && !tr[m].At(u).InSection();
      }
    }

    method CallSynchronize(t: Tid, arg: nat, victim: Ptr, copy: Ptr)
      requires Valid() && Now().At(t) == UpdReplaced(arg, victim, copy)
      modifies this
      ensures Valid() && tr == old(tr) + [Now()] && acts == old(acts) + [Go(t, 0)]
      ensures Contents(Now()) == Contents(old(Now())) && Now().At(t) == UpdGrace(arg, victim, copy)
      ensures grace == Now().Sections() == old(Now().Sections())
    {
      hide Inv, Contents, Run;
      ghost var s := Now();
      Safe();
      QuietStep(s, t);
      grace, threads := OpenSections(), threads[t := UpdGrace(arg, victim, copy)];
      Record(Go(t, 0), s);
    }

    method EndGrace(t: Tid, arg: nat, victim: Ptr, copy: Ptr)
      requires Valid() && Now().At(t) == UpdGrace(arg, victim, copy) && grace == {}
      modifies this
      ensures Valid() && tr == old(tr) + [Now()] && acts == old(acts) + [Go(t, 0)]
      ensures Contents(Now()) == Contents(old(Now())) && Now().At(t) == UpdFree(arg, victim, copy)
    {
      hide Inv, Contents, Run;
      ghost var s := Now();
      Safe();
      QuietStep(s, t);
      threads := threads[t := UpdFree(arg, victim, copy)];
      Record(Go(t, 0), s);
    }

    method WaitForGrace(t: Tid, env: seq<seq<Action>>) returns (ghost used: nat)
      requires Valid() && Others(env, t) && Now().At(t).UpdGrace?
      modifies this
      ensures Valid() && old(tr) <= tr && Contents(Now()) == Contents(old(Now())) && Now().At(t) == old(Now().At(t))
      ensures used <= |env| && acts == old(acts) + Flat(env[..used]) && (grace != {} ==> used == |env|)
      ensures forall m :: |old(acts)| <= m < |acts| ==> acts[m].t != t
    {
      hide Inv, Contents, Run, Step;
      var k := 0;
      while grace != {} && k < |env|
        invariant Valid() && old(tr) <= tr && Contents(Now()) == Contents(old(Now()))
        invariant k <= |env| && acts == old(acts) + Flat(env[..k]) && Now().At(t) == old(Now().At(t))
        invariant forall m :: |old(acts)| <= m < |acts| ==> acts[m].t != t
        decreases |env| - k
      {
        FlatSnoc(env, k);
        Interfere(t, env[k]);
        k := k + 1;
      }
      used := k;
    }

    function OpenSections(): set<Tid>
      reads this
    {
      Now().Sections()
    }

    lemma QuietStep(s: Sys, t: Tid)
      requires Inv(s) && s.At(t).Updating() && !s.At(t).UpdFound? && !s.At(t).UpdReady? && !s.At(t).UpdFree?
      ensures !s.fault && s.lock == Some(t) && Contents(WriterStep(s, t, 0)) == Contents(s)
    {
      hide Linked, WriterOk, ReaderOk, WriterStep;
      QuietWriterStep(s, t, 0);
    }

    /** kfree of the unlinked node, the report, and the unlock. */
    method Reclaim(t: Tid, arg: nat, victim: Ptr, copy: Ptr) returns (data: nat)
      requires Valid() && Now().At(t) == UpdFree(arg, victim, copy)
      modifies this
      ensures Valid() && old(tr) <= tr && Contents(Now()) == Contents(old(Now()))
      ensures Now().At(t) == UpdReport(arg, copy) && Lookup(Contents(Now()), arg) == Some(data)
    {
      hide ReaderOk;
      ghost var s := Now();
      Safe();
      assert lock == Some(t);
      FreeKeepsInv(s, t, 0);
      heap := heap - {victim};
      threads := threads[t := UpdReport(arg, copy)];
      Note(t, 0, s);
      data := heap[copy].data;
      ghost var i :| 0 <= i < |s.spine| && s.spine[i] == copy && Passed(s, arg, i);
      assert spine[i] in spine;
      LookupAt(Contents(Now()), arg, i);
    }

    method SpinUnlock(t: Tid, arg: nat)
      requires Valid() && Now().At(t) == UpdUnlock
      modifies this
      ensures Valid() && old(tr) <= tr && Contents(Now()) == Contents(old(Now())) && Now().At(t) == Idle && lock.None?
    {
      hide Inv;
      ghost var s := Now();
      Safe();
      QuietStep(s, t);
      lock, threads := None, threads[t := Idle];
      Note(t, 0, s);
    }

    /** The report (or the failed search) that precedes the unlock. */
    method Finish(t: Tid)
      requires Valid() && (Now().At(t).UpdReport? || (Now().At(t).UpdAt? && Now().At(t).pos == HEAD))
      modifies this
      ensures Valid() && old(tr) <= tr && Contents(Now()) == Contents(old(Now())) && Now().At(t) == UpdUnlock
      ensures old(Now()).At(t).UpdAt? ==> old(Now()).At(t).arg !in Ids(Contents(Now()))
    {
      hide Linked, ReaderOk;
      ghost var s := Now();
      Safe();
      QuietStep(s, t);
      threads := threads[t := UpdUnlock];
      Note(t, 0, s);
    }

    /** The copy-replace-wait-free sequence on the node that Search found; state `sync` is where it calls
        synchronize_rcu. */
    method ReplaceAndReclaim(t: Tid, arg: nat, victim: Ptr, env: seq<seq<Action>>) returns (r: Outcome, ghost sync: nat)
      requires Valid() && Others(env, t) && Now().At(t) == UpdFound(arg, victim)
      modifies this
      ensures Valid() && old(tr) <= tr && (r.Updated? || r.InGrace?)
      ensures Contents(Now()) == Bump(Contents(old(Now())), arg)
      ensures r.Updated? ==> Now().At(t).UpdReport? && Lookup(Contents(Now()), arg) == Some(r.data)
      ensures sync == |old(acts)| + 2 < |tr| && tr[sync].Sections() <= old(Now().Sections())
      ensures r.InGrace? ==> WaitingFrom(t, sync)
    {
      hide Inv, Step, Run, Contents, Bump, Lookup, InsideThroughout, LeftBetween;
      ghost var n := |acts|;
      var copy := CopyNode(t, arg, victim);
      ReplaceNode(t, arg, victim, copy);
      sync := |acts|;
      SectionsShrink(tr, acts, n, sync);
      var done, k := SynchronizeRcu(t, arg, victim, copy, env);
      if !done { return InGrace, sync; }
      var data := Reclaim(t, arg, victim, copy);
      return Updated(data), sync;
    }

    /** Thread t has published its node and waits: some reader is still in a section that was open in state sync. */
    ghost predicate WaitingFrom(t: Tid, sync: nat)
      reads this
    {
      && Now().At(t).UpdGrace? && grace != {} && sync < |tr| && grace <= tr[sync].Sections()
      && forall u :: u in grace ==> InsideThroughout(tr, u, sync, |acts|)
    }

    /** The update with the lock free; `walk` is what others do during the search, `env` during the grace period. */
    method LockedUpdate(t: Tid, arg: nat, walk: seq<seq<Action>>, env: seq<seq<Action>>)
        returns (r: Outcome, ghost sync: nat)
      requires Valid() && Now().At(t).Idle? && Others(walk, t) && Others(env, t) && lock.None?
      modifies this
      ensures Valid() && old(tr) <= tr && !r.LockBusy?
      ensures r.NotFound? ==> Contents(Now()) == Contents(old(Now())) && arg !in Ids(Contents(Now()))
      ensures !r.NotFound? ==> Contents(Now()) == Bump(Contents(old(Now())), arg)
      ensures r.Updated? ==> Lookup(Contents(Now()), arg) == Some(r.data)
      ensures r.InGrace? ==> |old(acts)| <= sync && WaitingFrom(t, sync)
      ensures old(Now().Sections()) == {} && NoReads(walk) ==> !r.InGrace?
      ensures !r.InGrace? ==> Now().At(t).Idle? && lock.None?
    {
      hide Inv, Step, Run, Contents, Bump, Lookup, Ids, InsideThroughout;
      ghost var n := |acts|;
      SpinLock(t, arg);
      var pos := Search(t, arg, walk);
      if NoReads(walk) { SectionsShrink(tr, acts, n, |acts|); }
      r, sync := NotFound, 0;
      if pos != HEAD {
        r, sync := ReplaceAndReclaim(t, arg, pos, env);
        if r.InGrace? { return; }
      }
      Finish(t);
      SpinUnlock(t, arg);
    }

    /** The lock was taken at each of the first `used` looks at it, one before each batch of the others, from state n
        on. */
    ghost predicate LockTaken(n: nat, wait: seq<seq<Action>>, used: nat)
      requires used <= |wait|
      reads this
    {
      forall j :: 0 <= j < used ==> n + |Flat(wait[..j])| < |tr| && tr[n + |Flat(wait[..j])|].lock.Some?
    }

    /** spin_lock_irqsave: others run until the lock is free, or until they have all run with the lock taken throughout.
        */
    method AwaitLock(t: Tid, wait: seq<seq<Action>>) returns (free: bool, ghost used: nat)
      requires Valid() && Now().At(t).Idle? && Others(wait, t)
      modifies this
      ensures Valid() && old(tr) <= tr && Now().At(t).Idle?
      ensures used <= |wait| && acts == old(acts) + Flat(wait[..used])
      ensures (free <==> lock.None?) && (!free ==> used == |wait|)
      ensures LockTaken(|old(acts)|, wait, used)
      ensures old(lock).None? ==> free && Now() == old(Now())
    {
      hide Inv, Step, Run, Contents;
      var k := 0;
      while lock.Some? && k < |wait|
        invariant Valid() && old(tr) <= tr && Now().At(t).Idle?
        invariant k <= |wait| && acts == old(acts) + Flat(wait[..k])
        invariant LockTaken(|old(acts)|, wait, k) && (old(lock).None? ==> k == 0 && Now() == old(Now()))
        decreases |wait| - k
      {
        assert tr[|old(acts)| + |Flat(wait[..k])|] == Now();
        FlatSnoc(wait, k);
        Interfere(t, wait[k]);
        k := k + 1;
      }
      free, used := lock.None?, k;
    }

    /** IOCTL_UPDATE under any interference: `wait` is what others do while it waits for the lock, then as above. If it
        gets the lock and its grace period ends, it is one atomic increment of the first node with this id: between
        taking the lock (state `begin`) and releasing it nothing else changes the list. If it does not return, others
        have held the lock each time it looked, or some reader is still in a section that was open when it called
        synchronize_rcu (state `sync`). */
    method IoctlUpdate(t: Tid, arg: nat, wait: seq<seq<Action>>, walk: seq<seq<Action>>, env: seq<seq<Action>>)
      returns (r: Outcome, ghost begin: nat, ghost sync: nat)
      requires Valid() && Now().At(t).Idle? && Others(wait, t) && Others(walk, t) && Others(env, t)
      modifies this
      ensures Valid() && old(tr) <= tr && |old(tr)| - 1 <= begin < |tr|
      ensures !r.LockBusy? && !r.NotFound? ==> Contents(Now()) == Bump(Contents(tr[begin]), arg)
      ensures r.Updated? ==> Lookup(Contents(Now()), arg) == Some(r.data)
      ensures r.NotFound? ==> Contents(Now()) == Contents(tr[begin]) && arg !in Ids(Contents(Now()))
      ensures r.Updated? || r.NotFound? ==> Now().At(t).Idle? && lock.None? && tr[begin].lock.None?
      ensures r.LockBusy? ==> Now().At(t).Idle? && lock.Some? && acts == old(acts) + Flat(wait)
      ensures r.LockBusy? ==> LockTaken(|old(acts)|, wait, |wait|)
      ensures r.InGrace? ==> begin <= sync && WaitingFrom(t, sync)
      ensures old(lock).None? && old(Now().Sections()) == {} && NoReads(walk) ==> r.Updated? || r.NotFound?
    {
      hide Inv, Step, Run, Contents, Bump, Lookup, Ids, WaitingFrom, Flat, LockTaken;
      var free, used := AwaitLock(t, wait);
      begin, sync := |tr| - 1, 0;
      if !free {
        assert wait[..used] == wait;
        return LockBusy, begin, sync;
      }
      r, sync := LockedUpdate(t, arg, walk, env);
    }
  }

  lemma AnsweredStays(tr: seq<Sys>, tr': seq<Sys>, i: nat, j: nat, arg: nat, out: Option<nat>)
    requires i <= j < |tr| && tr <= tr' && Answered(tr, i, j, arg, out)
    ensures Answered(tr', i, j, arg, out)
  {
    var k :| i <= k <= j && Lookup(Contents(tr[k]), arg) == out;
    assert tr'[k] == tr[k];
  }
}

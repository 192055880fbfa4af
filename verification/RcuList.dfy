/**
  synchronization/exercise3/simple_rculist.c as an interleaved step system.

  A schedule is any sequence of actions of any threads; an action that is not possible where its thread
  stands (a busy spin lock, an unfinished grace period) leaves the system as it is, so every sequence is a run.
  Each load a reader makes is a step of its own. Inside the spin lock only the steps a reader can observe are
  kept apart: allocate and copy, publish, call synchronize_rcu, return from it, kfree.
  Touching an address that is not allocated sets `fault`.
 */
module RcuList {
  import opened Options
  import opened Runs

  type Tid = nat
  type Ptr = nat

  /** Address of the static list head `mylist`. */
  const HEAD: Ptr := 0
  /** What list_replace_rcu leaves in the `prev` field of the node it unlinks. */
  const POISON: Ptr := 0x200
  /** `unsigned long` arithmetic wraps here. */
  const WORD: nat := 0x1_0000_0000_0000_0000

  datatype Node = Node(next: Ptr, prev: Ptr, id: nat, data: nat)

  /** Where a thread stands inside simple_ioctl. */
  datatype Phase =
    | Idle
      // IOCTL_READ, inside the read section
    | ReadHead(arg: nat)
    | ReadAt(arg: nat, pos: Ptr)
    | ReadNext(arg: nat, pos: Ptr)
    | ReadHit(arg: nat, pos: Ptr)
    | ReadDone(arg: nat, out: Option<nat>)
      // IOCTL_UPDATE, holding my_lock
    | UpdHead(arg: nat)
    | UpdAt(arg: nat, pos: Ptr)
    | UpdFound(arg: nat, victim: Ptr)
    | UpdReady(arg: nat, victim: Ptr, copy: Ptr)
    | UpdReplaced(arg: nat, victim: Ptr, copy: Ptr)
    | UpdGrace(arg: nat, victim: Ptr, copy: Ptr)
    | UpdFree(arg: nat, victim: Ptr, copy: Ptr)
    | UpdReport(arg: nat, copy: Ptr)
    | UpdUnlock
  {
    predicate InSection() { ReadHead? || ReadAt? || ReadNext? || ReadHit? || ReadDone? }
    predicate Updating() { !Idle? && !InSection() }
    predicate Unlinked() { UpdReplaced? || UpdGrace? || UpdFree? }
  }

  /** `spine` records the addresses on the list in order; no step reads it (invariant Linked ties it to the pointers).
      `grace` holds the readers the running synchronize_rcu still waits for. */
  datatype Sys = Sys(heap: map<Ptr, Node>, spine: seq<Ptr>, lock: Option<Tid>, grace: set<Tid>,
                     threads: map<Tid, Phase>, fault: bool)
  {
    function At(t: Tid): Phase { if t in threads then threads[t] else Idle }
    function Goto(t: Tid, ph: Phase): Sys { this.(threads := threads[t := ph]) }
    function Fault(): Sys { this.(fault := true) }
    function Writer(): Phase { if lock.Some? then At(lock.value) else Idle }
    function Sections(): set<Tid> { set t | t in threads && threads[t].InSection() }
  }

  /** Begin a READ or an UPDATE, or let thread t take its next step; `addr` is what kmalloc would hand out. */
  datatype Action = Read(t: Tid, arg: nat) | Update(t: Tid, arg: nat) | Go(t: Tid, addr: Ptr)

  function PtrAt(spine: seq<Ptr>, i: int): Ptr { if 0 <= i < |spine| then spine[i] else HEAD }

  function Incremented(n: Node): Node { n.(data := (n.data + 1) % WORD) }

  // ---------------------------------------------------------------- steps

  function Step(s: Sys, a: Action): Sys {
    if s.fault then s else
    match a
    case Read(t, arg) => if s.At(t).Idle? then s.Goto(t, ReadHead(arg)) else s
    case Update(t, arg) =>
      if s.At(t).Idle? && s.lock.None? then s.(lock := Some(t)).Goto(t, UpdHead(arg)) else s
    case Go(t, addr) => if s.At(t).InSection() then ReaderStep(s, t) else WriterStep(s, t, addr)
  }

  function ReaderStep(s: Sys, t: Tid): Sys {
    match s.At(t)
    case ReadHead(arg) =>
      if HEAD in s.heap then s.Goto(t, ReadAt(arg, s.heap[HEAD].next)) else s.Fault()
    case ReadAt(arg, pos) =>
      if pos == HEAD then s.Goto(t, ReadDone(arg, None))
      else if pos !in s.heap then s.Fault()
      else if s.heap[pos].id == arg then s.Goto(t, ReadHit(arg, pos))
      else s.Goto(t, ReadNext(arg, pos))
    case ReadNext(arg, pos) =>
      if pos in s.heap then s.Goto(t, ReadAt(arg, s.heap[pos].next)) else s.Fault()
    case ReadHit(arg, pos) =>
      if pos in s.heap then s.Goto(t, ReadDone(arg, Some(s.heap[pos].data))) else s.Fault()
    case ReadDone(_, _) => s.(grace := s.grace - {t}).Goto(t, Idle)
    case _ => s
  }

  function WriterStep(s: Sys, t: Tid, addr: Ptr): Sys {
    match s.At(t)
    case UpdHead(arg) =>
      if HEAD in s.heap then s.Goto(t, UpdAt(arg, s.heap[HEAD].next)) else s.Fault()
    case UpdAt(arg, pos) =>
      if pos == HEAD then s.Goto(t, UpdUnlock)
      else if pos !in s.heap then s.Fault()
      else if s.heap[pos].id == arg then s.Goto(t, UpdFound(arg, pos))
      else s.Goto(t, UpdAt(arg, s.heap[pos].next))
    case UpdFound(arg, victim) =>
      if victim !in s.heap then s.Fault()
      else if addr in s.heap then s
      else s.(heap := s.heap[addr := Incremented(s.heap[victim])]).Goto(t, UpdReady(arg, victim, addr))
    case UpdReady(arg, victim, copy) => Publish(s, victim, copy).Goto(t, UpdReplaced(arg, victim, copy))
    case UpdReplaced(arg, victim, copy) => s.(grace := s.Sections()).Goto(t, UpdGrace(arg, victim, copy))
    case UpdGrace(arg, victim, copy) => if s.grace == {} then s.Goto(t, UpdFree(arg, victim, copy)) else s
    case UpdFree(arg, victim, copy) =>
      if victim in s.heap then s.(heap := s.heap - {victim}).Goto(t, UpdReport(arg, copy)) else s.Fault()
    case UpdReport(arg, copy) => if copy in s.heap then s.Goto(t, UpdUnlock) else s.Fault()
    case UpdUnlock => s.(lock := None).Goto(t, Idle)
    case _ => s
  }

  /** list_replace_rcu: memcpy has already given the copy both links of the victim; the victim keeps its `next`. */
  function Publish(s: Sys, victim: Ptr, copy: Ptr): Sys {
    if victim !in s.heap || s.heap[victim].prev !in s.heap || s.heap[victim].next !in s.heap then s.Fault() else
    var p, q := s.heap[victim].prev, s.heap[victim].next;
    var h1 := s.heap[p := s.heap[p].(next := copy)];
    var h2 := h1[q := h1[q].(prev := copy)];
    s.(heap := h2[victim := h2[victim].(prev := POISON)], spine := Replaced(s.spine, victim, copy))
  }

  function Replaced(spine: seq<Ptr>, victim: Ptr, copy: Ptr): seq<Ptr> {
    seq(|spine|, i requires 0 <= i < |spine| => if spine[i] == victim then copy else spine[i])
  }

  // ---------------------------------------------------------------- the abstract list

  /** What the list commits to: its (id, data) pairs in order. */
  function Contents(s: Sys): seq<(nat, nat)> {
    seq(|s.spine|, i requires 0 <= i < |s.spine| =>
      if s.spine[i] in s.heap then (s.heap[s.spine[i]].id, s.heap[s.spine[i]].data) else (0, 0))
  }

  function Lookup(c: seq<(nat, nat)>, id: nat): Option<nat> {
    if c == [] then None else if c[0].0 == id then Some(c[0].1) else Lookup(c[1..], id)
  }

  /** Atomic increment of the first pair with this id. */
  function Bump(c: seq<(nat, nat)>, id: nat): seq<(nat, nat)> {
    if c == [] then [] else if c[0].0 == id then [(id, (c[0].1 + 1) % WORD)] + c[1..] else [c[0]] + Bump(c[1..], id)
  }

  lemma {:induction false} LookupAt(c: seq<(nat, nat)>, id: nat, i: nat)
    requires i < |c| && c[i].0 == id
    requires forall j :: 0 <= j < i ==> c[j].0 != id
    ensures Lookup(c, id) == Some(c[i].1)
    ensures Bump(c, id) == c[i := (id, (c[i].1 + 1) % WORD)]
  {
    if i > 0 {
      LookupAt(c[1..], id, i - 1);
      assert c == [c[0]] + c[1..];
    }
  }

  lemma {:induction false} LookupNone(c: seq<(nat, nat)>, id: nat)
    requires forall j :: 0 <= j < |c| ==> c[j].0 != id
    ensures Lookup(c, id) == None
  {
    if c != [] { LookupNone(c[1..], id); }
  }

  // ---------------------------------------------------------------- the invariant

  ghost predicate Linked(heap: map<Ptr, Node>, spine: seq<Ptr>) {
    && HEAD in heap && HEAD !in spine
    && (forall i :: 0 <= i < |spine| ==> spine[i] in heap)
    && (forall i, j :: 0 <= i < j < |spine| ==> spine[i] != spine[j])
    && heap[HEAD].next == PtrAt(spine, 0)
    && heap[HEAD].prev == PtrAt(spine, |spine| - 1)
    && (forall i :: 0 <= i < |spine| ==> LinkedAt(heap, spine, i))
  }

  /** The i-th node points to its two neighbours. */
  ghost predicate LinkedAt(heap: map<Ptr, Node>, spine: seq<Ptr>, i: int)
    requires 0 <= i < |spine| && spine[i] in heap
  {
    heap[spine[i]].next == PtrAt(spine, i + 1) && heap[spine[i]].prev == PtrAt(spine, i - 1)
  }

  /** No node before position i of the list carries the id `arg`. */
  ghost predicate Passed(s: Sys, arg: nat, i: int) {
    forall j :: 0 <= j < i && j < |s.spine| && s.spine[j] in s.heap ==> s.heap[s.spine[j]].id != arg
  }

  /** Reader t may still stand on the unlinked node: its section is older than the grace period. */
  ghost predicate Stale(s: Sys, t: Tid, pos: Ptr) {
    match s.Writer()
    case UpdReplaced(_, victim, _) => pos == victim
    case UpdGrace(_, victim, _) => pos == victim && t in s.grace
    case _ => false
  }

  /** pos is the i-th node of the list, or the node that the i-th node has just replaced. */
  ghost predicate Standing(s: Sys, t: Tid, pos: Ptr, i: int)
    requires 0 <= i < |s.spine|
  {
    s.spine[i] == pos || (Stale(s, t, pos) && s.spine[i] == s.Writer().copy)
  }

  ghost predicate Holds(s: Sys, t: Tid, arg: nat, pos: Ptr) {
    && pos in s.heap
    && exists i :: 0 <= i < |s.spine| && Standing(s, t, pos, i) && Passed(s, arg, i)
  }

  ghost predicate ReaderOk(s: Sys, t: Tid) {
    match s.At(t)
    case ReadAt(arg, pos) => if pos == HEAD then Passed(s, arg, |s.spine|) else Holds(s, t, arg, pos)
    case ReadNext(arg, pos) => Holds(s, t, arg, pos) && s.heap[pos].id != arg
    case ReadHit(arg, pos) => Holds(s, t, arg, pos) && s.heap[pos].id == arg
    case ReadDone(arg, out) => out.None? <==> Passed(s, arg, |s.spine|)
    case _ => true
  }

  ghost predicate OnList(s: Sys, arg: nat, pos: Ptr) {
    exists i :: 0 <= i < |s.spine| && s.spine[i] == pos && Passed(s, arg, i)
  }

  ghost predicate WriterOk(s: Sys) {
    match s.Writer()
    case UpdAt(arg, pos) => if pos == HEAD then Passed(s, arg, |s.spine|) else OnList(s, arg, pos)
    case UpdFound(arg, victim) => OnList(s, arg, victim) && victim in s.heap && s.heap[victim].id == arg
    case UpdReady(arg, victim, copy) =>
      && OnList(s, arg, victim) && victim in s.heap && s.heap[victim].id == arg
      && copy in s.heap && copy !in s.spine && copy != HEAD && s.heap[copy] == Incremented(s.heap[victim])
    case UpdReplaced(arg, victim, copy) => Swapped(s, arg, victim, copy)
    case UpdGrace(arg, victim, copy) => Swapped(s, arg, victim, copy)
    case UpdFree(arg, victim, copy) => Swapped(s, arg, victim, copy)
    case UpdReport(arg, copy) => OnList(s, arg, copy)
    case _ => true
  }

  ghost predicate Swapped(s: Sys, arg: nat, victim: Ptr, copy: Ptr) {
    && OnList(s, arg, copy) && copy in s.heap && s.heap[copy].id == arg
    && victim in s.heap && victim !in s.spine && victim != HEAD
    && s.heap[victim].id == arg && s.heap[victim].next == s.heap[copy].next
  }

  /** The one node that is allocated without being on the list, if any. */
  function InFlight(s: Sys): set<Ptr> {
    match s.Writer()
    case UpdReady(_, _, copy) => {copy}
    case UpdReplaced(_, victim, _) => {victim}
    case UpdGrace(_, victim, _) => {victim}
    case UpdFree(_, victim, _) => {victim}
    case _ => {}
  }

  ghost predicate Inv(s: Sys) {
    && !s.fault
    && Linked(s.heap, s.spine)
    && s.heap.Keys == {HEAD} + (set p | p in s.spine) + InFlight(s)
    && (forall t: Tid :: s.At(t).Updating() <==> s.lock == Some(t))
    && WriterOk(s)
    && (forall t: Tid :: ReaderOk(s, t))
  }

  // ---------------------------------------------------------------- every step keeps it

  /** A reader's claim survives when the nodes on the list keep their ids and the reader may still stand where it
      stands. */
  lemma ReaderFrame(s: Sys, s': Sys, t: Tid)
    requires ReaderOk(s, t) && s'.At(t) == s.At(t)
    requires s'.spine == s.spine
    requires forall p :: p in s.spine ==> p in s.heap && p in s'.heap && s'.heap[p].id == s.heap[p].id
    requires forall p :: p in s.heap && Stale(s, t, p) ==>
               p in s'.heap && s'.heap[p].id == s.heap[p].id && Stale(s', t, p) && s'.Writer().copy == s.Writer().copy
    ensures ReaderOk(s', t)
  {
    forall arg, i | Passed(s, arg, i) ensures Passed(s', arg, i) {
      forall j | 0 <= j < i && j < |s'.spine| ensures s'.heap[s'.spine[j]].id != arg {
        assert s.spine[j] in s.spine;
      }
    }
    forall arg, pos | Holds(s, t, arg, pos) ensures Holds(s', t, arg, pos) && s'.heap[pos].id == s.heap[pos].id {
      var i :| 0 <= i < |s.spine| && Standing(s, t, pos, i) && Passed(s, arg, i);
      assert s.spine[i] in s.spine;
      assert Standing(s', t, pos, i) && Passed(s', arg, i);
    }
  }

  lemma ReaderStepKeepsInv(s: Sys, t: Tid)
    requires Inv(s) && s.At(t).InSection()
    ensures Inv(ReaderStep(s, t))
    ensures Contents(ReaderStep(s, t)) == Contents(s)
  {
    hide Linked, ReaderOk;
    ReaderMoves(s, t);
    ReaderStepKeepsReaders(s, t);
    assert ReaderStep(s, t).Writer() == s.Writer();
  }

  lemma ReaderStepKeepsReaders(s: Sys, t: Tid)
    requires Inv(s) && s.At(t).InSection()
    ensures forall u: Tid :: ReaderOk(ReaderStep(s, t), u)
  {
    hide Linked, ReaderOk, WriterOk;
    var s' := ReaderStep(s, t);
    ReaderMoves(s, t);
    forall u: Tid ensures ReaderOk(s', u) {
      assert ReaderOk(s, u);
      if u != t { ReaderFrame(s, s', u); }
    }
  }

  /** Where a reader gets by following `next`: one place further on the list, even from an unlinked node. */
  lemma NextOf(s: Sys, t: Tid, arg: nat, pos: Ptr)
    requires Linked(s.heap, s.spine) && WriterOk(s) && Holds(s, t, arg, pos) && s.heap[pos].id != arg
    ensures var q := s.heap[pos].next;
            if q == HEAD then Passed(s, arg, |s.spine|) else OnList(s, arg, q)
  {
    var i :| 0 <= i < |s.spine| && Standing(s, t, pos, i) && Passed(s, arg, i);
    assert LinkedAt(s.heap, s.spine, i);
    assert s.heap[s.spine[i]].id != arg && s.heap[pos].next == PtrAt(s.spine, i + 1);
    assert Passed(s, arg, i + 1);
    assert i + 1 < |s.spine| ==> s.spine[i + 1] in s.spine;
  }

  /** Arriving at a node of the current list is always safe. */
  lemma Arrive(s: Sys, t: Tid, arg: nat, q: Ptr)
    requires Linked(s.heap, s.spine)
    requires if q == HEAD then Passed(s, arg, |s.spine|) else OnList(s, arg, q)
    ensures ReaderOk(s.Goto(t, ReadAt(arg, q)), t)
  {
    var s' := s.Goto(t, ReadAt(arg, q));
    if q == HEAD {
      assert Passed(s', arg, |s'.spine|);
    } else {
      var i :| 0 <= i < |s.spine| && s.spine[i] == q && Passed(s, arg, i);
      assert Standing(s', t, q, i) && Passed(s', arg, i);
    }
  }

  lemma Stay(s: Sys, s': Sys, t: Tid, arg: nat, pos: Ptr)
    requires Holds(s, t, arg, pos)
    requires s'.heap == s.heap && s'.spine == s.spine && s'.Writer() == s.Writer() && s'.grace == s.grace
    ensures Holds(s', t, arg, pos)
  {
    var i :| 0 <= i < |s.spine| && Standing(s, t, pos, i) && Passed(s, arg, i);
    assert Standing(s', t, pos, i) && Passed(s', arg, i);
  }

  lemma ReaderMoves(s: Sys, t: Tid)
    requires Inv(s) && s.At(t).InSection()
    ensures var s' := ReaderStep(s, t);
            !s'.fault && ReaderOk(s', t) && s'.heap == s.heap && s'.spine == s.spine && s'.lock == s.lock
  {
    var s' := ReaderStep(s, t);
    assert ReaderOk(s, t) && s.lock != Some(t);
    match s.At(t)
    case ReadHead(arg) =>
      var q := s.heap[HEAD].next;
      assert Passed(s, arg, 0);
      assert q != HEAD ==> s.spine[0] == q;
      Arrive(s, t, arg, q);
    case ReadNext(arg, pos) =>
      NextOf(s, t, arg, pos);
      Arrive(s, t, arg, s.heap[pos].next);
    case ReadHit(arg, pos) =>
      FoundMeansPresent(s, t, arg, pos);
      assert Passed(s', arg, |s'.spine|) <==> Passed(s, arg, |s.spine|);
    case ReadAt(arg, pos) =>
      if pos != HEAD {
        Stay(s, s', t, arg, pos);
      } else {
        assert Passed(s', arg, |s'.spine|);
      }
    case ReadDone(_, _) =>
  }

  lemma FoundMeansPresent(s: Sys, t: Tid, arg: nat, pos: Ptr)
    requires Linked(s.heap, s.spine) && WriterOk(s) && Holds(s, t, arg, pos) && s.heap[pos].id == arg
    ensures !Passed(s, arg, |s.spine|)
  {
    var i :| 0 <= i < |s.spine| && Standing(s, t, pos, i) && Passed(s, arg, i);
    assert s.heap[s.spine[i]].id == arg;
  }

  // ---------------------------------------------------------------- the updater

  lemma NotReading(s: Sys, t: Tid)
    requires !s.At(t).InSection()
    ensures ReaderOk(s, t)
  {}

  /** The steps under the lock that touch neither heap nor list. */
  lemma QuietWriterStep(s: Sys, t: Tid, addr: Ptr)
    requires Inv(s) && s.lock == Some(t)
    requires var ph := s.At(t); !ph.UpdFound? && !ph.UpdReady? && !ph.UpdFree?
    ensures Inv(WriterStep(s, t, addr))
    ensures Contents(WriterStep(s, t, addr)) == Contents(s)
  {
    hide Linked, WriterOk, ReaderOk;
    var s' := WriterStep(s, t, addr);
    assert s.At(t).Updating();
    QuietWriterOk(s, t, addr);
    forall u: Tid ensures ReaderOk(s', u) {
      assert ReaderOk(s, u);
      if u != t && s.At(u).InSection() { ReaderFrame(s, s', u); } else { NotReading(s', u); }
    }
  }

  lemma QuietWriterOk(s: Sys, t: Tid, addr: Ptr)
    requires Inv(s) && s.lock == Some(t)
    requires var ph := s.At(t); !ph.UpdFound? && !ph.UpdReady? && !ph.UpdFree?
    ensures var s' := WriterStep(s, t, addr);
            !s'.fault && s'.heap == s.heap && s'.spine == s.spine && WriterOk(s')
  {
    assert s.At(t).Updating();
    if s.At(t).UpdHead? || s.At(t).UpdAt? {
      SearchStepOk(s, t, addr);
    } else {
      hide ReaderOk, Linked;
      var s' := WriterStep(s, t, addr);
      SameList(s, s', if s.At(t).UpdUnlock? then 0 else s.At(t).arg);
    }
  }

  lemma SearchStepOk(s: Sys, t: Tid, addr: Ptr)
    requires Linked(s.heap, s.spine) && WriterOk(s) && !s.fault && s.lock == Some(t)
             && (s.At(t).UpdHead? || s.At(t).UpdAt?)
    ensures var s' := WriterStep(s, t, addr);
            !s'.fault && s'.heap == s.heap && s'.spine == s.spine && WriterOk(s')
  {
    var s', arg := WriterStep(s, t, addr), s.At(t).arg;
    if s.At(t).UpdHead? {
      SearchAdvances(s, arg, -1);
    } else if s.At(t).pos != HEAD {
      var i :| 0 <= i < |s.spine| && s.spine[i] == s.At(t).pos && Passed(s, arg, i);
      if s.heap[s.spine[i]].id != arg { SearchAdvances(s, arg, i); }
    }
    SameList(s, s', arg);
  }

  /** Following `next` from position i of the list (-1 is the head), after position i did not match. */
  lemma SearchAdvances(s: Sys, arg: nat, i: int)
    requires Linked(s.heap, s.spine) && -1 <= i < |s.spine| && Passed(s, arg, i + 1)
    ensures var q := s.heap[PtrAt(s.spine, i)].next;
            PtrAt(s.spine, i) in s.heap && if q == HEAD then Passed(s, arg, |s.spine|) else OnList(s, arg, q)
  {
    assert i >= 0 ==> LinkedAt(s.heap, s.spine, i);
    assert i + 1 < |s.spine| ==> s.spine[i + 1] in s.spine;
  }

  /** OnList and Passed depend on the addresses on the list and on the ids of those nodes only. */
  lemma SameList(s: Sys, s': Sys, arg: nat)
    requires s'.spine == s.spine
    requires forall p :: p in s.spine ==> p in s.heap && p in s'.heap && s'.heap[p].id == s.heap[p].id
    ensures forall i :: Passed(s, arg, i) ==> Passed(s', arg, i)
    ensures forall pos :: OnList(s, arg, pos) ==> OnList(s', arg, pos)
  {
    forall i | Passed(s, arg, i) ensures Passed(s', arg, i) {
      forall j | 0 <= j < i && j < |s'.spine| ensures s'.heap[s'.spine[j]].id != arg {
        assert s.spine[j] in s.spine;
      }
    }
    forall pos | OnList(s, arg, pos) ensures OnList(s', arg, pos) {
      var i :| 0 <= i < |s.spine| && s.spine[i] == pos && Passed(s, arg, i);
      assert s'.spine[i] == pos && Passed(s', arg, i);
    }
  }

  /** Links survive any change that leaves the nodes on the list alone. */
  lemma LinksFrame(heap: map<Ptr, Node>, heap': map<Ptr, Node>, spine: seq<Ptr>)
    requires Linked(heap, spine)
    requires forall p :: p == HEAD || p in spine ==> p in heap' && heap'[p] == heap[p]
    ensures Linked(heap', spine)
  {
    assert forall i :: 0 <= i < |spine| ==> spine[i] in spine;
    forall i | 0 <= i < |spine| ensures LinkedAt(heap', spine, i) {
      assert LinkedAt(heap, spine, i);
    }
  }

  lemma AllocKeepsInv(s: Sys, t: Tid, addr: Ptr)
    requires Inv(s) && s.lock == Some(t) && s.At(t).UpdFound?
    ensures Inv(WriterStep(s, t, addr))
    ensures Contents(WriterStep(s, t, addr)) == Contents(s)
  {
    hide Linked, ReaderOk;
    var s' := WriterStep(s, t, addr);
    if addr !in s.heap {
      LinksFrame(s.heap, s'.heap, s.spine);
      SameList(s, s', s.At(t).arg);
      forall u: Tid ensures ReaderOk(s', u) {
        assert ReaderOk(s, u);
        if u != t { ReaderFrame(s, s', u); } else { NotReading(s', u); }
      }
    }
  }

  lemma FreeKeepsInv(s: Sys, t: Tid, addr: Ptr)
    requires Inv(s) && s.lock == Some(t) && s.At(t).UpdFree?
    ensures Inv(WriterStep(s, t, addr))
    ensures Contents(WriterStep(s, t, addr)) == Contents(s)
  {
    hide Linked, ReaderOk;
    var s' := WriterStep(s, t, addr);
    LinksFrame(s.heap, s'.heap, s.spine);
    SameList(s, s', s.At(t).arg);
    forall u: Tid ensures ReaderOk(s', u) {
      assert ReaderOk(s, u);
      if u != t { ReaderFrame(s, s', u); } else { NotReading(s', u); }
    }
  }

  /** What list_replace_rcu writes: one `next`, one `prev`, and the poison. */
  ghost predicate Spliced(s: Sys, s': Sys, victim: Ptr, copy: Ptr)
    requires victim in s.heap
  {
    && s'.fault == s.fault && s'.heap.Keys == s.heap.Keys && s'.spine == Replaced(s.spine, victim, copy)
    && forall x :: x in s.heap ==>
         s'.heap[x] == s.heap[x].(
           next := if x == s.heap[victim].prev then copy else s.heap[x].next,
           prev := if x == victim then POISON else if x == s.heap[victim].next then copy else s.heap[x].prev)
  }

  lemma PublishSplices(s: Sys, victim: Ptr, copy: Ptr)
    requires victim in s.heap && s.heap[victim].prev in s.heap && s.heap[victim].next in s.heap
    requires s.heap[victim].prev != victim && s.heap[victim].next != victim
    ensures Spliced(s, Publish(s, victim, copy), victim, copy)
  {}

  /** The copy takes exactly the victim's place; the victim's neighbours are those of the list around it. */
  lemma SplicedLinks(s: Sys, s': Sys, victim: Ptr, copy: Ptr, i: nat)
    requires Linked(s.heap, s.spine) && i < |s.spine| && s.spine[i] == victim && victim in s.heap
    requires copy in s.heap && copy !in s.spine && copy != HEAD && s.heap[copy] == Incremented(s.heap[victim])
    requires Spliced(s, s', victim, copy)
    ensures Linked(s'.heap, s'.spine) && s'.spine == s.spine[i := copy]
    ensures s'.heap[victim].next == s.heap[victim].next == s'.heap[copy].next
  {
    hide LinkedAt, Spliced, Incremented;
    SplicedEnds(s, s', victim, copy, i);
    forall j | 0 <= j < |s.spine| ensures s'.spine[j] in s'.heap && LinkedAt(s'.heap, s'.spine, j) {
      SplicedLinkedAt(s, s', victim, copy, i, j);
    }
  }

  lemma SplicedEnds(s: Sys, s': Sys, victim: Ptr, copy: Ptr, i: nat)
    requires Linked(s.heap, s.spine) && i < |s.spine| && s.spine[i] == victim && victim in s.heap
    requires copy in s.heap && copy !in s.spine && copy != HEAD && s.heap[copy] == Incremented(s.heap[victim])
    requires Spliced(s, s', victim, copy)
    ensures s'.spine == s.spine[i := copy] && HEAD in s'.heap && HEAD !in s'.spine
    ensures forall j, k :: 0 <= j < k < |s'.spine| ==> s'.spine[j] != s'.spine[k]
    ensures s'.heap[HEAD].next == PtrAt(s'.spine, 0) && s'.heap[HEAD].prev == PtrAt(s'.spine, |s.spine| - 1)
    ensures s'.heap[victim].next == s.heap[victim].next == s'.heap[copy].next
  {
    var n := |s.spine|;
    assert s'.spine == s.spine[i := copy];
    assert forall j :: 0 <= j < n ==> s.spine[j] in s.spine;
    assert LinkedAt(s.heap, s.spine, i);
    assert PtrAt(s.spine, i - 1) == HEAD <==> i == 0;
    assert PtrAt(s.spine, i + 1) == HEAD <==> i == n - 1;
    assert PtrAt(s.spine, i - 1) != copy && PtrAt(s.spine, i - 1) != victim;
  }

  lemma SplicedLinkedAt(s: Sys, s': Sys, victim: Ptr, copy: Ptr, i: nat, j: nat)
    requires Linked(s.heap, s.spine) && i < |s.spine| && s.spine[i] == victim && j < |s.spine|
    requires copy in s.heap && copy !in s.spine && copy != HEAD && s.heap[copy] == Incremented(s.heap[victim])
    requires Spliced(s, s', victim, copy) && s'.spine == s.spine[i := copy]
    ensures s'.spine[j] in s'.heap && LinkedAt(s'.heap, s'.spine, j)
  {
    assert s.spine[i] in s.spine && s.spine[j] in s.spine;
    assert LinkedAt(s.heap, s.spine, i) && LinkedAt(s.heap, s.spine, j);
    assert i > 0 ==> s.spine[i - 1] in s.spine;
    assert i + 1 < |s.spine| ==> s.spine[i + 1] in s.spine;
    var x := s.spine[j];
    if j != i {
      assert x == PtrAt(s.spine, i - 1) <==> j == i - 1;
      assert x == PtrAt(s.spine, i + 1) <==> j == i + 1;
    }
  }

  lemma PublishKeepsInv(s: Sys, t: Tid, addr: Ptr)
    requires Inv(s) && s.lock == Some(t) && s.At(t).UpdReady?
    ensures Inv(WriterStep(s, t, addr))
    ensures Contents(WriterStep(s, t, addr)) == Bump(Contents(s), s.At(t).arg)
  {
    var s', arg, victim, copy := WriterStep(s, t, addr), s.At(t).arg, s.At(t).victim, s.At(t).copy;
    var i :| 0 <= i < |s.spine| && s.spine[i] == victim && Passed(s, arg, i);
    VictimNeighbours(s, victim, i);
    PublishSplices(s, victim, copy);
    assert Spliced(s, s', victim, copy);
    PublishedInv(s, s', t, arg, victim, copy, i);
    PublishedContents(s, s', arg, victim, copy, i);
  }

  lemma VictimNeighbours(s: Sys, victim: Ptr, i: nat)
    requires Linked(s.heap, s.spine) && i < |s.spine| && s.spine[i] == victim
    ensures s.heap[victim].prev in s.heap && s.heap[victim].next in s.heap
    ensures s.heap[victim].prev != victim && s.heap[victim].next != victim
  {
    assert LinkedAt(s.heap, s.spine, i) && s.spine[i] in s.spine;
    assert i > 0 ==> s.spine[i - 1] in s.heap;
    assert i + 1 < |s.spine| ==> s.spine[i + 1] in s.heap;
  }

  lemma PublishedInv(s: Sys, s': Sys, t: Tid, arg: nat, victim: Ptr, copy: Ptr, i: nat)
    requires Inv(s) && s.lock == Some(t) && s.At(t) == UpdReady(arg, victim, copy)
    requires i < |s.spine| && s.spine[i] == victim && Passed(s, arg, i)
    requires victim in s.heap && Spliced(s, s', victim, copy) && s'.lock == s.lock && s'.grace == s.grace
    requires s'.threads == s.threads[t := UpdReplaced(arg, victim, copy)]
    ensures Inv(s')
  {
    hide Linked, WriterOk, ReaderOk, Spliced;
    ReadyFacts(s, arg, victim, copy);
    SplicedLinks(s, s', victim, copy, i);
    PublishedKeys(s, s', arg, victim, copy, i);
    PublishedWriter(s, s', arg, victim, copy, i);
    assert forall u: Tid :: s'.At(u) == if u == t then UpdReplaced(arg, victim, copy) else s.At(u);
    forall u: Tid ensures ReaderOk(s', u) {
      assert ReaderOk(s, u);
      if u != t { PublishReader(s, s', u, victim, copy, i); } else { NotReading(s', u); }
    }
  }

  lemma ReadyFacts(s: Sys, arg: nat, victim: Ptr, copy: Ptr)
    requires WriterOk(s) && s.Writer() == UpdReady(arg, victim, copy)
    ensures victim in s.heap && s.heap[victim].id == arg && copy in s.heap && copy !in s.spine && copy != HEAD
    ensures s.heap[copy] == Incremented(s.heap[victim])
  {}

  lemma PublishedKeys(s: Sys, s': Sys, arg: nat, victim: Ptr, copy: Ptr, i: nat)
    requires Linked(s.heap, s.spine) && i < |s.spine| && s.spine[i] == victim && victim in s.heap && copy !in s.spine
    requires s.heap.Keys == {HEAD} + (set p | p in s.spine) + {copy}
    requires Spliced(s, s', victim, copy) && s'.spine == s.spine[i := copy]
    ensures s'.heap.Keys == {HEAD} + (set p | p in s'.spine) + {victim} && victim !in s'.spine && s'.fault == s.fault
  {
    SplicedAddresses(s.spine, s'.spine, victim, copy, i);
  }

  lemma PublishedWriter(s: Sys, s': Sys, arg: nat, victim: Ptr, copy: Ptr, i: nat)
    requires Linked(s.heap, s.spine) && Linked(s'.heap, s'.spine) && victim in s.heap && copy in s.heap
    requires i < |s.spine| && s.spine[i] == victim && s.heap[copy] == Incremented(s.heap[victim]) && Passed(s, arg, i)
    requires s.heap[victim].id == arg && victim !in s'.spine
    requires Spliced(s, s', victim, copy) && s'.spine == s.spine[i := copy]
    requires s'.heap[victim].next == s'.heap[copy].next && s'.Writer() == UpdReplaced(arg, victim, copy)
    ensures WriterOk(s')
  {
    PassedSpliced(s, s', victim, copy, i, arg, i);
    assert s'.spine[i] == copy && Passed(s', arg, i);
    assert s.spine[i] in s.spine;
  }

  lemma SplicedAddresses(spine: seq<Ptr>, spine': seq<Ptr>, victim: Ptr, copy: Ptr, i: nat)
    requires i < |spine| && spine[i] == victim && copy !in spine && spine' == spine[i := copy]
    requires forall j, k :: 0 <= j < k < |spine| ==> spine[j] != spine[k]
    ensures victim !in spine'
    ensures (set p | p in spine') == (set p | p in spine) - {victim} + {copy}
  {
    forall p | p in spine && p != victim ensures p in spine' {
      var j :| 0 <= j < |spine| && spine[j] == p;
      assert spine'[j] == p;
    }
    assert spine'[i] == copy;
  }

  /** Position by position, the ids on the list do not change. */
  lemma PassedSpliced(s: Sys, s': Sys, victim: Ptr, copy: Ptr, i: nat, arg: nat, k: int)
    requires Linked(s.heap, s.spine) && Linked(s'.heap, s'.spine) && victim in s.heap && copy in s.heap
    requires i < |s.spine| && s.spine[i] == victim && s.heap[copy] == Incremented(s.heap[victim])
    requires Spliced(s, s', victim, copy) && s'.spine == s.spine[i := copy]
    ensures Passed(s, arg, k) <==> Passed(s', arg, k)
  {
    assert forall j :: 0 <= j < |s.spine| ==> s.spine[j] in s.heap && s'.heap[s'.spine[j]].id == s.heap[s.spine[j]].id;
  }

  lemma PublishReader(s: Sys, s': Sys, u: Tid, victim: Ptr, copy: Ptr, i: nat)
    requires Linked(s.heap, s.spine) && Linked(s'.heap, s'.spine) && victim in s.heap && copy in s.heap
    requires i < |s.spine| && s.spine[i] == victim && s.heap[copy] == Incremented(s.heap[victim])
    requires Spliced(s, s', victim, copy) && s'.spine == s.spine[i := copy]
    requires s.Writer().UpdReady? && s'.Writer().UpdReplaced? && s'.Writer().victim == victim
             && s'.Writer().copy == copy
    requires ReaderOk(s, u) && s'.At(u) == s.At(u)
    ensures ReaderOk(s', u)
  {
    forall b, k ensures Passed(s, b, k) <==> Passed(s', b, k) {
      PassedSpliced(s, s', victim, copy, i, b, k);
    }
    forall b, pos | Holds(s, u, b, pos) ensures Holds(s', u, b, pos) && s'.heap[pos].id == s.heap[pos].id {
      var k :| 0 <= k < |s.spine| && Standing(s, u, pos, k) && Passed(s, b, k);
      assert s'.spine[k] == if k == i then copy else pos;
      assert Standing(s', u, pos, k) && Passed(s', b, k);
    }
  }

  lemma PublishedContents(s: Sys, s': Sys, arg: nat, victim: Ptr, copy: Ptr, i: nat)
    requires Linked(s.heap, s.spine) && i < |s.spine| && s.spine[i] == victim && Passed(s, arg, i)
    requires copy in s.heap && copy !in s.spine && s.heap[copy] == Incremented(s.heap[victim])
             && s.heap[victim].id == arg
    requires Spliced(s, s', victim, copy)
    ensures Contents(s') == Bump(Contents(s), arg)
  {
    assert s'.spine == s.spine[i := copy];
    LookupAt(Contents(s), arg, i);
    assert Contents(s') == Contents(s)[i := (arg, (s.heap[victim].data + 1) % WORD)];
  }

  // ---------------------------------------------------------------- all schedules

  /** The id whose increment this action commits, if it is the publication of a new node. */
  function Commits(s: Sys, a: Action): Option<nat> {
    if a.Go? && !s.fault && s.At(a.t).UpdReady? then Some(s.At(a.t).arg) else None
  }

  function Committed(c: seq<(nat, nat)>, commit: Option<nat>): seq<(nat, nat)> {
    if commit.Some? then Bump(c, commit.value) else c
  }

  /** Each step keeps the invariant and is, on the abstract list, one atomic increment or nothing. */
  lemma StepRefines(s: Sys, a: Action)
    requires Inv(s)
    ensures Inv(Step(s, a))
    ensures Contents(Step(s, a)) == Committed(Contents(s), Commits(s, a))
  {
    match a
    case Read(t, arg) => BeginKeepsInv(s, a);
    case Update(t, arg) => BeginKeepsInv(s, a);
    case Go(t, addr) =>
      if s.At(t).InSection() {
        ReaderStepKeepsInv(s, t);
      } else if s.At(t).Updating() {
        assert s.lock == Some(t);
        match s.At(t)
        case UpdFound(_, _) => AllocKeepsInv(s, t, addr);
        case UpdReady(_, _, _) => PublishKeepsInv(s, t, addr);
        case UpdFree(_, _, _) => FreeKeepsInv(s, t, addr);
        case _ => QuietWriterStep(s, t, addr);
      }
  }

  lemma BeginKeepsInv(s: Sys, a: Action)
    requires Inv(s) && !a.Go?
    ensures Inv(Step(s, a)) && Contents(Step(s, a)) == Contents(s)
  {
    hide Linked;
    var s' := Step(s, a);
    assert s.At(a.t).Updating() <==> s.lock == Some(a.t);
    if a.Read? { assert s'.Writer() == s.Writer(); }
    SameList(s, s', if s.Writer().UpdAt? || s.Writer().UpdFound? || s.Writer().UpdReady? || s.Writer().Unlinked()
                       || s.Writer().UpdReport? then s.Writer().arg else 0);
    forall u: Tid ensures ReaderOk(s', u) {
      assert ReaderOk(s, u);
      if u != a.t { ReaderFrame(s, s', u); }
    }
  }

  /** Main result: nothing a schedule can do breaks the invariant; in particular no step touches freed memory. */
  lemma InvAlways(tr: seq<Sys>, acts: seq<Action>, k: nat)
    requires Run(Step, tr, acts) && Inv(tr[0]) && k <= |acts|
    ensures Inv(tr[k])
  {
    hide Inv, Step;
    forall s, a | Inv(s) ensures Inv(Step(s, a)) { StepRefines(s, a); }
    Always(Step, Inv, tr, acts, k);
  }

  // ---------------------------------------------------------------- reads linearise

  /** A node's id and data never change while it is allocated. */
  lemma NodeImmutable(s: Sys, a: Action, p: Ptr)
    requires Inv(s) && p in s.heap && p in Step(s, a).heap
    ensures Step(s, a).heap[p].id == s.heap[p].id && Step(s, a).heap[p].data == s.heap[p].data
  {
    if a.Go? && s.At(a.t).UpdReady? {
      var victim := s.At(a.t).victim;
      assert s.lock == Some(a.t);
      var i :| 0 <= i < |s.spine| && s.spine[i] == victim && Passed(s, s.At(a.t).arg, i);
      VictimNeighbours(s, victim, i);
      PublishSplices(s, victim, s.At(a.t).copy);
    }
  }

  /** In state u, the node that reader state v is looking at was on the list with what it holds now. */
  ghost predicate Sighting(u: Sys, v: Sys, arg: nat, pos: Ptr) {
    OnList(u, arg, pos) && pos in u.heap && pos in v.heap && u.heap[pos].id == v.heap[pos].id
        && u.heap[pos].data == v.heap[pos].data
  }

  ghost predicate Sighted(tr: seq<Sys>, i: nat, j: nat, arg: nat, pos: Ptr)
    requires i <= j < |tr|
  {
    exists k :: i <= k <= j && Sighting(tr[k], tr[j], arg, pos)
  }

  /** Some state between i and j answers a lookup of `arg` with `out`. */
  ghost predicate Answered(tr: seq<Sys>, i: nat, j: nat, arg: nat, out: Option<nat>)
    requires i <= j < |tr|
  {
    exists k :: i <= k <= j && Lookup(Contents(tr[k]), arg) == out
  }

  ghost predicate Tracked(tr: seq<Sys>, i: nat, j: nat, t: Tid, arg: nat)
    requires i <= j < |tr|
  {
    match tr[j].At(t)
    case ReadHead(b) => b == arg
    case ReadAt(b, pos) => b == arg && (pos != HEAD ==> Sighted(tr, i, j, arg, pos))
    case ReadNext(b, pos) => b == arg && Sighted(tr, i, j, arg, pos)
    case ReadHit(b, pos) => b == arg && Sighted(tr, i, j, arg, pos)
    case ReadDone(b, out) => b == arg && Answered(tr, i, j, arg, out)
    case _ => false
  }

  /** Steps of other threads leave a reader where it is, and the node under it as it is. */
  lemma OtherThread(s: Sys, a: Action, t: Tid)
    requires Inv(s) && s.At(t).InSection() && (a.t != t || !a.Go?)
    ensures Step(s, a).At(t) == s.At(t)
  {
    hide Linked, WriterOk, ReaderOk;
  }

  lemma OwnStep(s: Sys, a: Action)
    requires Inv(s) && s.At(a.t).InSection() && a.Go?
    ensures Step(s, a) == ReaderStep(s, a.t)
  {}

  /** The node under a reader is allocated. */
  lemma HeldIsAllocated(s: Sys, t: Tid)
    requires Inv(s) && (s.At(t).ReadAt? || s.At(t).ReadNext? || s.At(t).ReadHit?)
    ensures s.At(t).pos in s.heap
  {
    assert ReaderOk(s, t);
  }

  lemma SightStays(tr: seq<Sys>, i: nat, j: nat, arg: nat, pos: Ptr)
    requires i < j < |tr| && Sighted(tr, i, j - 1, arg, pos) && pos in tr[j - 1].heap && pos in tr[j].heap
    requires tr[j].heap[pos].id == tr[j - 1].heap[pos].id && tr[j].heap[pos].data == tr[j - 1].heap[pos].data
    ensures Sighted(tr, i, j, arg, pos)
  {
    var k :| i <= k <= j - 1 && Sighting(tr[k], tr[j - 1], arg, pos);
    assert Sighting(tr[k], tr[j], arg, pos);
  }

  lemma ArrivalSighted(tr: seq<Sys>, i: nat, j: nat, arg: nat, q: Ptr)
    requires i < j < |tr| && OnList(tr[j - 1], arg, q) && Linked(tr[j - 1].heap, tr[j - 1].spine)
    requires tr[j].heap == tr[j - 1].heap
    ensures Sighted(tr, i, j, arg, q)
  {
    assert Sighting(tr[j - 1], tr[j], arg, q);
  }

  lemma SightingAnswers(u: Sys, v: Sys, arg: nat, pos: Ptr)
    requires Linked(u.heap, u.spine) && Sighting(u, v, arg, pos) && v.heap[pos].id == arg
    ensures Lookup(Contents(u), arg) == Some(v.heap[pos].data)
  {
    var i :| 0 <= i < |u.spine| && u.spine[i] == pos && Passed(u, arg, i);
    LookupAt(Contents(u), arg, i);
  }

  ghost predicate AllSafe(tr: seq<Sys>) { forall k :: 0 <= k < |tr| ==> Inv(tr[k]) }

  /** Thread t began a READ of `arg` in state i and is still in that section in state j. */
  ghost predicate InSectionFrom(tr: seq<Sys>, i: nat, j: nat, t: Tid, arg: nat) {
    i <= j < |tr| && tr[i].At(t) == ReadHead(arg) && forall k :: i <= k <= j ==> tr[k].At(t).InSection()
  }

  lemma TrackOwnStep(tr: seq<Sys>, i: nat, j: nat, t: Tid, arg: nat)
    requires i < j < |tr| && Tracked(tr, i, j - 1, t, arg) && tr[j - 1].At(t).InSection()
    requires tr[j] == ReaderStep(tr[j - 1], t) && tr[j].At(t).InSection()
    requires AllSafe(tr)
    ensures Tracked(tr, i, j, t, arg)
  {
    var u, v := tr[j - 1], tr[j];
    assert Inv(u) && ReaderOk(u, t);
    ReaderMoves(u, t);
    match u.At(t)
    case ReadHead(_) =>
      var q := u.heap[HEAD].next;
      if q != HEAD {
        assert u.spine[0] == q && Passed(u, arg, 0);
        ArrivalSighted(tr, i, j, arg, q);
      }
    case ReadNext(_, pos) =>
      NextOf(u, t, arg, pos);
      var q := u.heap[pos].next;
      if q != HEAD { ArrivalSighted(tr, i, j, arg, q); }
    case ReadAt(_, pos) =>
      if pos != HEAD {
        SightStays(tr, i, j, arg, pos);
      } else {
        LookupNone(Contents(u), arg);
        assert Lookup(Contents(tr[j - 1]), arg) == v.At(t).out;
      }
    case ReadHit(_, pos) =>
      var k :| i <= k <= j - 1 && Sighting(tr[k], u, arg, pos);
      assert Inv(tr[k]);
      SightingAnswers(tr[k], u, arg, pos);
      assert Lookup(Contents(tr[k]), arg) == v.At(t).out;
  }

  lemma TrackOtherStep(tr: seq<Sys>, i: nat, j: nat, t: Tid, arg: nat, a: Action)
    requires i < j < |tr| && Tracked(tr, i, j - 1, t, arg) && tr[j].At(t) == tr[j - 1].At(t)
    requires Inv(tr[j - 1]) && Inv(tr[j]) && tr[j] == Step(tr[j - 1], a)
    ensures Tracked(tr, i, j, t, arg)
  {
    var u, v := tr[j - 1], tr[j];
    if u.At(t).ReadNext? || u.At(t).ReadHit? || (u.At(t).ReadAt? && u.At(t).pos != HEAD) {
      HeldIsAllocated(u, t);
      HeldIsAllocated(v, t);
      NodeImmutable(u, a, u.At(t).pos);
      SightStays(tr, i, j, arg, u.At(t).pos);
    } else if u.At(t).ReadDone? {
      var k :| i <= k <= j - 1 && Lookup(Contents(tr[k]), arg) == u.At(t).out;
    }
  }

  lemma TrackStep(tr: seq<Sys>, i: nat, j: nat, t: Tid, arg: nat, a: Action)
    requires i < j < |tr| && Tracked(tr, i, j - 1, t, arg)
    requires tr[j - 1].At(t).InSection() && tr[j].At(t).InSection()
    requires AllSafe(tr) && tr[j] == Step(tr[j - 1], a)
    ensures Tracked(tr, i, j, t, arg)
  {
    assert Inv(tr[j - 1]) && Inv(tr[j]);
    if a.Go? && a.t == t {
      OwnStep(tr[j - 1], a);
      TrackOwnStep(tr, i, j, t, arg);
    } else {
      OtherThread(tr[j - 1], a, t);
      TrackOtherStep(tr, i, j, t, arg, a);
    }
  }

  lemma {:induction false} TrackedThroughout(tr: seq<Sys>, acts: seq<Action>, i: nat, j: nat, t: Tid, arg: nat)
    requires Run(Step, tr, acts) && AllSafe(tr) && InSectionFrom(tr, i, j, t, arg)
    ensures Tracked(tr, i, j, t, arg)
  {
    hide Step, Inv;
    if i < j {
      TrackedThroughout(tr, acts, i, j - 1, t, arg);
      assert Follows(Step, tr, acts, j - 1);
      TrackStep(tr, i, j, t, arg, acts[j - 1]);
    }
  }

  /** Main result: a READ answers what the list committed to for its id at some instant inside its own section,
      whatever updates interleave. */
  lemma ReadLinearizes(tr: seq<Sys>, acts: seq<Action>, i: nat, j: nat, t: Tid, arg: nat)
    requires Run(Step, tr, acts) && Inv(tr[0]) && InSectionFrom(tr, i, j, t, arg) && tr[j].At(t).ReadDone?
    ensures Answered(tr, i, j, arg, tr[j].At(t).out)
  {
    hide Inv, Step;
    forall k | 0 <= k < |tr| ensures Inv(tr[k]) { InvAlways(tr, acts, k); }
    TrackedThroughout(tr, acts, i, j, t, arg);
  }

  // ---------------------------------------------------------------- ids, updates, allocation

  function Ids(c: seq<(nat, nat)>): seq<nat> { seq(|c|, i requires 0 <= i < |c| => c[i].0) }

  /** After simple_rculist_init: five nodes with ids 1 to 5 and data 100, nobody inside the driver. */
  ghost predicate Initial(s: Sys) {
    && Inv(s) && s.lock.None? && s.threads == map[] && s.grace == {}
    && Contents(s) == [(1, 100), (2, 100), (3, 100), (4, 100), (5, 100)]
  }

  lemma {:induction false} LookupBump(c: seq<(nat, nat)>, x: nat, id: nat)
    ensures Ids(Bump(c, x)) == Ids(c)
    ensures Lookup(Bump(c, x), id) == match Lookup(c, id)
                                      case Some(d) => Some(if x == id then (d + 1) % WORD else d)
                                      case None => None
  {
    if c != [] {
      LookupBump(c[1..], x, id);
      assert Ids(c) == [c[0].0] + Ids(c[1..]);
      if c[0].0 != x { assert Ids(Bump(c, x)) == [c[0].0] + Ids(Bump(c[1..], x)); }
    }
  }

  lemma {:induction false} IdsConstant(tr: seq<Sys>, acts: seq<Action>, k: nat)
    requires Run(Step, tr, acts) && Inv(tr[0]) && k <= |acts|
    ensures Ids(Contents(tr[k])) == Ids(Contents(tr[0]))
  {
    hide Inv, Step;
    if k > 0 {
      IdsConstant(tr, acts, k - 1);
      InvAlways(tr, acts, k - 1);
      assert Follows(Step, tr, acts, k - 1);
      StepRefines(tr[k - 1], acts[k - 1]);
      var x := Commits(tr[k - 1], acts[k - 1]);
      if x.Some? { LookupBump(Contents(tr[k - 1]), x.value, 0); }
    }
  }

  /** Main result: a READ reports "not found" exactly for ids that were never on the list. */
  lemma ReadMissesOnlyAbsentIds(tr: seq<Sys>, acts: seq<Action>, k: nat, t: Tid)
    requires Run(Step, tr, acts) && Inv(tr[0]) && k <= |acts| && tr[k].At(t).ReadDone?
    ensures tr[k].At(t).out == None <==> tr[k].At(t).arg !in Ids(Contents(tr[0]))
  {
    InvAlways(tr, acts, k);
    IdsConstant(tr, acts, k);
    var s, arg := tr[k], tr[k].At(t).arg;
    assert ReaderOk(s, t);
    var ids := Ids(Contents(s));
    if arg in ids {
      var i :| 0 <= i < |ids| && ids[i] == arg;
      assert s.heap[s.spine[i]].id == arg;
    } else {
      assert forall j :: 0 <= j < |s.spine| ==> s.heap[s.spine[j]].id == ids[j];
    }
  }

  /** The id whose update this action completes. */
  function Completes(s: Sys, a: Action): Option<nat> {
    if a.Go? && !s.fault && s.At(a.t).UpdReport? then Some(s.At(a.t).arg) else None
  }

  function Completed(tr: seq<Sys>, acts: seq<Action>, id: nat, k: nat): nat
    requires |tr| == |acts| + 1 && k <= |acts|
  {
    if k == 0 then 0
    else Completed(tr, acts, id, k - 1) + if Completes(tr[k - 1], acts[k - 1]) == Some(id) then 1 else 0
  }

  /** 1 while an update of this id has been published but not yet completed. */
  function Published(s: Sys, id: nat): nat {
    if (s.Writer().Unlinked() || s.Writer().UpdReport?) && s.Writer().arg == id then 1 else 0
  }

  lemma PublishedBalance(s: Sys, a: Action, id: nat)
    requires Inv(s)
    ensures Published(Step(s, a), id) + (if Completes(s, a) == Some(id) then 1 else 0)
         == Published(s, id) + (if Commits(s, a) == Some(id) then 1 else 0)
  {
    assert s.At(a.t).Updating() <==> s.lock == Some(a.t);
    if a.Go? && s.At(a.t).Updating() {
      UpdaterBalance(s, a.t, a.addr, id);
    } else if a.Go? && s.At(a.t).InSection() {
      ReaderMoves(s, a.t);
      assert Step(s, a).Writer() == s.Writer();
    }
  }

  lemma UpdaterBalance(s: Sys, t: Tid, addr: Ptr, id: nat)
    requires Inv(s) && s.lock == Some(t) && s.At(t).Updating()
    ensures Published(WriterStep(s, t, addr), id) + (if s.At(t).UpdReport? && s.At(t).arg == id then 1 else 0)
         == Published(s, id) + (if s.At(t).UpdReady? && s.At(t).arg == id then 1 else 0)
  {
    hide Linked, ReaderOk;
    match s.At(t)
    case UpdFound(_, _) =>
    case UpdReady(_, _, _) =>
    case UpdFree(_, _, _) =>
    case _ => QuietWriterOk(s, t, addr);
  }

  /** Main result: no update is lost. After any run each id's data is 100 plus the number of its completed updates
      (plus the one that is published and still in progress), in `unsigned long` arithmetic. */
  lemma {:induction false} NoLostUpdate(tr: seq<Sys>, acts: seq<Action>, id: nat, k: nat)
    requires Run(Step, tr, acts) && Initial(tr[0]) && k <= |acts| && 1 <= id <= 5
    ensures Lookup(Contents(tr[k]), id) == Some((100 + Completed(tr, acts, id, k) + Published(tr[k], id)) % WORD)
  {
    hide Inv, Step, Bump;
    if k == 0 {
      LookupAt(Contents(tr[0]), id, id - 1);
    } else {
      NoLostUpdate(tr, acts, id, k - 1);
      RunStep(tr, acts, id, k);
      CommittedValue(Contents(tr[k - 1]), Commits(tr[k - 1], acts[k - 1]), id,
                     100 + Completed(tr, acts, id, k - 1) + Published(tr[k - 1], id));
    }
  }

  lemma RunStep(tr: seq<Sys>, acts: seq<Action>, id: nat, k: nat)
    requires Run(Step, tr, acts) && Inv(tr[0]) && 0 < k <= |acts|
    ensures Contents(tr[k]) == Committed(Contents(tr[k - 1]), Commits(tr[k - 1], acts[k - 1]))
    ensures Published(tr[k], id) + (if Completes(tr[k - 1], acts[k - 1]) == Some(id) then 1 else 0)
         == Published(tr[k - 1], id) + (if Commits(tr[k - 1], acts[k - 1]) == Some(id) then 1 else 0)
  {
    InvAlways(tr, acts, k - 1);
    assert Follows(Step, tr, acts, k - 1);
    StepRefines(tr[k - 1], acts[k - 1]);
    PublishedBalance(tr[k - 1], acts[k - 1], id);
  }

  lemma CommittedValue(c: seq<(nat, nat)>, commit: Option<nat>, id: nat, n: nat)
    requires Lookup(c, id) == Some(n % WORD)
    ensures Lookup(Committed(c, commit), id) == Some((n + if commit == Some(id) then 1 else 0) % WORD)
  {
    if commit.Some? { LookupBump(c, commit.value, id); }
    assert (n % WORD + 1) % WORD == (n + 1) % WORD;
  }

  /** Main result: at the kfree no reader stands on the node, and during the grace period only readers
      that were inside before synchronize_rcu do. The node is allocated, so nothing is freed twice. */
  lemma SafeReclamation(tr: seq<Sys>, acts: seq<Action>, k: nat)
    requires Run(Step, tr, acts) && Inv(tr[0]) && k <= |acts|
    ensures !tr[k].fault
    ensures tr[k].Writer().UpdFree? ==> tr[k].Writer().victim in tr[k].heap
    ensures forall t: Tid :: tr[k].Writer().UpdFree? ==> !StandsOn(tr[k], t, tr[k].Writer().victim)
    ensures forall t: Tid :: tr[k].Writer().UpdGrace? && StandsOn(tr[k], t, tr[k].Writer().victim) ==> t in tr[k].grace
  {
    InvAlways(tr, acts, k);
    forall t: Tid
      ensures tr[k].Writer().UpdFree? ==> !StandsOn(tr[k], t, tr[k].Writer().victim)
      ensures tr[k].Writer().UpdGrace? && StandsOn(tr[k], t, tr[k].Writer().victim) ==> t in tr[k].grace
    {
      assert ReaderOk(tr[k], t);
    }
  }

  /** Reader t will dereference p, or has it as the node to move on from. */
  predicate StandsOn(s: Sys, t: Tid, p: Ptr) {
    (s.At(t).ReadAt? || s.At(t).ReadNext? || s.At(t).ReadHit?) && s.At(t).pos == p
  }

  function Addresses(spine: seq<Ptr>): set<Ptr> { set p | p in spine }

  lemma {:induction false} DistinctSize(spine: seq<Ptr>)
    requires forall i, j :: 0 <= i < j < |spine| ==> spine[i] != spine[j]
    ensures |Addresses(spine)| == |spine|
  {
    if spine != [] {
      DistinctSize(spine[1..]);
      assert spine == [spine[0]] + spine[1..];
      assert spine[0] !in spine[1..];
      assert Addresses(spine) == Addresses(spine[1..]) + {spine[0]};
    }
  }

  /** Main result: live nodes are the list nodes plus exactly one between kmalloc and kfree. */
  lemma NoLeak(tr: seq<Sys>, acts: seq<Action>, k: nat)
    requires Run(Step, tr, acts) && Initial(tr[0]) && k <= |acts|
    ensures |tr[k].heap.Keys - {HEAD}| ==
              5 + if tr[k].Writer().UpdReady? || tr[k].Writer().Unlinked() then 1 else 0
  {
    InvAlways(tr, acts, k);
    IdsConstant(tr, acts, k);
    assert |Ids(Contents(tr[0]))| == 5;
    LiveNodes(tr[k]);
  }

  lemma LiveNodes(s: Sys)
    requires Inv(s)
    ensures |s.heap.Keys - {HEAD}| == |Ids(Contents(s))| + |InFlight(s)|
  {
    DistinctSize(s.spine);
    assert s.heap.Keys - {HEAD} == Addresses(s.spine) + InFlight(s);
    assert Addresses(s.spine) !! InFlight(s);
  }

  // ---------------------------------------------------------------- why the grace period is there

  /** Thread 0 stands on the first node p; thread 1 has searched for it and found it. */
  lemma EarlySteps(s: Sys, p: Ptr)
    requires !s.fault && s.lock.None? && s.threads == map[]
    requires HEAD in s.heap && p in s.heap && p != HEAD && s.heap[HEAD].next == p && s.heap[p].id == 1
    ensures var u := Step(Step(Step(Step(Step(s, Read(0, 1)), Go(0, 0)), Update(1, 1)), Go(1, 0)), Go(1, 0));
            && u.heap == s.heap && u.spine == s.spine && !u.fault
            && u.At(0) == ReadAt(1, p) && u.At(1) == UpdFound(1, p) && u.lock == Some(1)
  {
    var s2 := Step(Step(s, Read(0, 1)), Go(0, 0));
    assert s2.At(0) == ReadAt(1, p) && s2.heap == s.heap;
  }

  /** The same as a run. */
  lemma EarlyRun(s: Sys, p: Ptr)
    requires !s.fault && s.lock.None? && s.threads == map[]
    requires HEAD in s.heap && p in s.heap && p != HEAD && s.heap[HEAD].next == p && s.heap[p].id == 1
    ensures var u := After(Step, s, [Read(0, 1), Go(0, 0), Update(1, 1), Go(1, 0), Go(1, 0)]);
            && u.heap == s.heap && u.spine == s.spine && !u.fault
            && u.At(0) == ReadAt(1, p) && u.At(1) == UpdFound(1, p) && u.lock == Some(1)
  {
    EarlySteps(s, p);
    hide Step;
    var a1, a2, a3 := [Read(0, 1)], [Read(0, 1), Go(0, 0)], [Read(0, 1), Go(0, 0), Update(1, 1)];
    AfterSnoc(Step, s, [], Read(0, 1));
    assert [] + [Read(0, 1)] == a1;
    AfterSnoc(Step, s, a1, Go(0, 0));
    assert a1 + [Go(0, 0)] == a2;
    AfterSnoc(Step, s, a2, Update(1, 1));
    assert a2 + [Update(1, 1)] == a3;
    AfterSnoc(Step, s, a3, Go(1, 0));
    AfterSnoc(Step, s, a3 + [Go(1, 0)], Go(1, 0));
    assert a3 + [Go(1, 0)] + [Go(1, 0)] == [Read(0, 1), Go(0, 0), Update(1, 1), Go(1, 0), Go(1, 0)];
  }

  /** Thread 1 replaces p, on which thread 0 stands. */
  lemma LateSteps(s: Sys, p: Ptr, addr: Ptr)
    requires !s.fault && s.lock == Some(1) && s.At(0) == ReadAt(1, p) && s.At(1) == UpdFound(1, p)
    requires p in s.heap && p != HEAD && s.heap[p].prev in s.heap && s.heap[p].next in s.heap && addr !in s.heap
    ensures var u := Step(Step(s, Go(1, addr)), Go(1, 0));
            && u.At(1) == UpdReplaced(1, p, addr) && StandsOn(u, 0, p) && !u.fault
            && Step(u.(heap := u.heap - {p}), Go(0, 0)).fault
  {}
  /** Some run leaves a reader on the node that an update has just unlinked; freeing it at that point, without waiting,
      makes the reader's next step touch freed memory. */
  lemma GracePeriodNeeded(s: Sys, addr: Ptr)
    requires Initial(s) && addr !in s.heap
    ensures var acts := [Read(0, 1), Go(0, 0), Update(1, 1), Go(1, 0), Go(1, 0), Go(1, addr), Go(1, 0)];
            var u := After(Step, s, acts);
            && u.At(1).UpdReplaced? && StandsOn(u, 0, u.At(1).victim) && !u.fault
            && Step(u.(heap := u.heap - {u.At(1).victim}), Go(0, 0)).fault
  {
    var p := s.spine[0];
    assert Contents(s)[0] == (1, 100) && p in s.spine && LinkedAt(s.heap, s.spine, 0);
    VictimNeighbours(s, p, 0);
    EarlyRun(s, p);
    hide Step, Inv, Contents;
    var a5 := [Read(0, 1), Go(0, 0), Update(1, 1), Go(1, 0), Go(1, 0)];
    LateSteps(After(Step, s, a5), p, addr);
    AfterSnoc(Step, s, a5, Go(1, addr));
    AfterSnoc(Step, s, a5 + [Go(1, addr)], Go(1, 0));
    assert a5 + [Go(1, addr)] + [Go(1, 0)]
        == [Read(0, 1), Go(0, 0), Update(1, 1), Go(1, 0), Go(1, 0), Go(1, addr), Go(1, 0)];
  }
}

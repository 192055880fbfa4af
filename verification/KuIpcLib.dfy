/**
  assignment1/ku_ipc_lib.c: what a process does around the kernel's operations. `queue_use` marks the queues a process
  has got; a blocking send or receive repeats its ioctl until it succeeds.
  The first part interleaves any number of processes between a check, its ioctl and the marking after it; the second
  part is the library's code with other processes' operations between two tries.
 */
module KuIpcLib {
  import opened Options
  import opened Runs
  import opened KuIpc
  import opened KuIpcDevice

  type Pid = nat

  /** Where a process stands in ku_msgget or ku_msgclose. */
  datatype Phase =
    | Ready
    | GetAsked(key: int, flg: int)
    | GetAnswered(ret: int)
    | CloseAsked(key: int)
    | CloseAnswered(key: int, ret: int)

  datatype Proc = Proc(queueUse: seq<bool>, ph: Phase)
  datatype Sys = Sys(kernel: Kernel, procs: map<Pid, Proc>) {
    function Set(p: Pid, pr: Proc): Sys { this.(procs := procs[p := pr]) }
  }

  datatype Action = Get(p: Pid, key: int, flg: int) | Close(p: Pid, key: int) | Go(p: Pid)

  /** A known process, a key from 0 to 9. */
  predicate Possible(s: Sys, a: Action) {
    && s.kernel.Valid()
    && a.p in s.procs && |s.procs[a.p].queueUse| == QUEUE_NUM
    && (a.Go? || IsKey(a.key))
    && match s.procs[a.p].ph
       case GetAsked(key, _) => IsKey(key)
       case GetAnswered(ret) => ret < QUEUE_NUM
       case CloseAsked(key) => IsKey(key)
       case CloseAnswered(key, _) => IsKey(key)
       case Ready => true
  }

  /** The library over the kernel as written, or over the one that refuses unknown flags. */
  function Step(s: Sys, a: Action, repaired: bool): Sys {
    if !Possible(s, a) then s else
    var pr := s.procs[a.p];
    match a
    case Get(p, key, flg) => if pr.ph.Ready? && !pr.queueUse[key] then s.Set(p, pr.(ph := GetAsked(key, flg))) else s
    case Close(p, key) => if pr.ph.Ready? && pr.queueUse[key] then s.Set(p, pr.(ph := CloseAsked(key))) else s
    case Go(p) =>
      match pr.ph
      case GetAsked(key, flg) =>
        var r := MsgGet(s.kernel, key, flg, repaired);
        s.(kernel := r.1).Set(p, pr.(ph := GetAnswered(r.0)))
      case GetAnswered(ret) =>
        s.Set(p, Proc(if ret < 0 then pr.queueUse else pr.queueUse[ret := true], Ready))
      case CloseAsked(key) =>
        var r := MsgClose(s.kernel, key);
        s.(kernel := r.1).Set(p, pr.(ph := CloseAnswered(key, r.0)))
      case CloseAnswered(key, ret) =>
        s.Set(p, Proc(if ret < 0 then pr.queueUse else pr.queueUse[key := false], Ready))
      case Ready => s
  }

  function CodeStep(s: Sys, a: Action): Sys { Step(s, a, false) }
  function RepairedStep(s: Sys, a: Action): Sys { Step(s, a, true) }

  /** As written, only good flags are harmless; as repaired, all are. */
  predicate Harmless(a: Action, repaired: bool) { a.Get? && !repaired ==> GoodFlag(a.flg) }

  /** Holding a queue: it is marked and not just released, or has just been granted. */
  predicate Holds(pr: Proc, key: int)
    requires |pr.queueUse| == QUEUE_NUM && IsKey(key)
  {
    match pr.ph
    case GetAnswered(ret) => pr.queueUse[key] || ret == key
    case CloseAnswered(c, ret) => pr.queueUse[key] && !(c == key && ret >= 0)
    case _ => pr.queueUse[key]
  }

  ghost predicate WellFormed(s: Sys) {
    && s.kernel.Valid()
    && forall p :: p in s.procs ==> |s.procs[p].queueUse| == QUEUE_NUM
  }

  function Holders(s: Sys, key: int): set<Pid>
    requires WellFormed(s) && IsKey(key)
  {
    set p | p in s.procs && Holds(s.procs[p], key)
  }

  ghost predicate ProcOk(pr: Proc, repaired: bool)
    requires |pr.queueUse| == QUEUE_NUM
  {
    match pr.ph
    case Ready => true
    case GetAsked(key, flg) => IsKey(key) && !pr.queueUse[key] && (repaired || GoodFlag(flg))
    case GetAnswered(ret) => ret == -1 || (IsKey(ret) && !pr.queueUse[ret])
    case CloseAsked(key) => IsKey(key) && pr.queueUse[key]
    case CloseAnswered(key, ret) => IsKey(key) && pr.queueUse[key] && ret == 0
  }

  ghost predicate Balanced(s: Sys, key: int)
    requires WellFormed(s) && IsKey(key)
  {
    s.kernel.refs[key] == |Holders(s, key)|
  }

  ghost predicate Inv(s: Sys, repaired: bool) {
    && WellFormed(s)
    && (forall p :: p in s.procs ==> ProcOk(s.procs[p], repaired))
    && (forall key :: IsKey(key) ==> Balanced(s, key))
  }

  /** How a step of process p changes the holders of one queue. */
  lemma HoldersAfter(s: Sys, s': Sys, p: Pid, key: int)
    requires WellFormed(s) && WellFormed(s') && IsKey(key) && p in s.procs && p in s'.procs
    requires s'.procs == s.procs[p := s'.procs[p]]
    ensures Holders(s', key) == if Holds(s'.procs[p], key) then Holders(s, key) + {p} else Holders(s, key) - {p}
  {}

  lemma StepKeepsInv(s: Sys, a: Action, repaired: bool)
    requires Inv(s, repaired) && Harmless(a, repaired)
    ensures Inv(Step(s, a, repaired), repaired)
  {
    if Possible(s, a) {
      ProcStaysOk(s, a, repaired);
      forall key | IsKey(key) ensures Balanced(Step(s, a, repaired), key) {
        StepBalances(s, a, key, repaired);
      }
    }
    hide Holders, Step, ProcOk;
  }

  lemma ProcStaysOk(s: Sys, a: Action, repaired: bool)
    requires Inv(s, repaired) && Harmless(a, repaired) && Possible(s, a)
    ensures WellFormed(Step(s, a, repaired))
    ensures forall p :: p in Step(s, a, repaired).procs ==> ProcOk(Step(s, a, repaired).procs[p], repaired)
  {
    CloseGranted(s, a.p, repaired);
  }

  /** A holder that asks to close is counted, so the counter is positive. */
  lemma CloseGranted(s: Sys, p: Pid, repaired: bool)
    requires Inv(s, repaired) && p in s.procs
    ensures s.procs[p].ph.CloseAsked? ==> IsKey(s.procs[p].ph.key) && s.kernel.refs[s.procs[p].ph.key] > 0
  {
    assert ProcOk(s.procs[p], repaired);
    if s.procs[p].ph.CloseAsked? {
      var key := s.procs[p].ph.key;
      assert p in Holders(s, key) && Balanced(s, key);
    }
  }

  /** A step moves the counter of a queue exactly as it moves the process in or out of its holders. */
  lemma StepDelta(s: Sys, a: Action, key: int, repaired: bool)
    requires Inv(s, repaired) && Harmless(a, repaired) && Possible(s, a) && IsKey(key)
    ensures WellFormed(Step(s, a, repaired))
            && Step(s, a, repaired).procs == s.procs[a.p := Step(s, a, repaired).procs[a.p]]
    ensures Step(s, a, repaired).kernel.refs[key] - s.kernel.refs[key]
         == (if Holds(Step(s, a, repaired).procs[a.p], key) then 1 else 0) - (if Holds(s.procs[a.p], key) then 1 else 0)
  {
    hide Holders;
    CloseGranted(s, a.p, repaired);
    assert ProcOk(s.procs[a.p], repaired);
  }

  lemma StepBalances(s: Sys, a: Action, key: int, repaired: bool)
    requires Inv(s, repaired) && Harmless(a, repaired) && Possible(s, a) && IsKey(key)
             && WellFormed(Step(s, a, repaired))
    ensures Balanced(Step(s, a, repaired), key)
  {
    hide Step, Holds, ProcOk;
    StepDelta(s, a, key, repaired);
    assert Balanced(s, key);
    HoldersAfter(s, Step(s, a, repaired), a.p, key);
    assert a.p in Holders(s, key) <==> Holds(s.procs[a.p], key);
  }

  /** Nobody inside the library and nothing marked. */
  lemma StartsBalanced(s: Sys, repaired: bool)
    requires s.kernel == EMPTY && forall p :: p in s.procs ==> s.procs[p] == Proc(seq(QUEUE_NUM, _ => false), Ready)
    ensures Inv(s, repaired)
  {
    forall key | IsKey(key) ensures Balanced(s, key) {
      assert Holders(s, key) == {};
    }
  }

  lemma {:induction false} InvAlways(tr: seq<Sys>, acts: seq<Action>, k: nat, repaired: bool)
    requires Run(if repaired then RepairedStep else CodeStep, tr, acts) && Inv(tr[0], repaired) && k <= |acts|
    requires forall i :: 0 <= i < |acts| ==> Harmless(acts[i], repaired)
    ensures Inv(tr[k], repaired)
  {
    hide Inv, Step, Harmless;
    if k > 0 {
      InvAlways(tr, acts, k - 1, repaired);
      assert Follows(if repaired then RepairedStep else CodeStep, tr, acts, k - 1);
      StepKeepsInv(tr[k - 1], acts[k - 1], repaired);
    }
  }

  /** Main result: in every interleaving of closes and gets (with good flags; with any flags in the repair), the
      kernel's counter of a queue is the number of processes holding it; an exclusive get is granted only to a process
      that is then its one holder; and a holder's close is never refused. */
  lemma ReferenceCounts(tr: seq<Sys>, acts: seq<Action>, k: nat, key: int, repaired: bool)
    requires Run(if repaired then RepairedStep else CodeStep, tr, acts) && Inv(tr[0], repaired) && k <= |acts|
             && IsKey(key)
    requires forall i :: 0 <= i < |acts| ==> Harmless(acts[i], repaired)
    ensures WellFormed(tr[k]) && tr[k].kernel.refs[key] == |Holders(tr[k], key)|
    ensures forall p :: p in tr[k].procs && tr[k].procs[p].ph == GetAsked(key, CREAT + EXCL) ==>
              (MsgGet(tr[k].kernel, key, CREAT + EXCL, repaired).0 == key <==> Holders(tr[k], key) == {})
    ensures forall p :: p in tr[k].procs && tr[k].procs[p].ph == CloseAsked(key) ==> MsgClose(tr[k].kernel, key).0 == 0
  {
    InvAlways(tr, acts, k, repaired);
    var s := tr[k];
    assert Balanced(s, key);
    forall p | p in s.procs && s.procs[p].ph == CloseAsked(key) ensures MsgClose(s.kernel, key).0 == 0 {
      assert ProcOk(s.procs[p], repaired);
      assert p in Holders(s, key);
    }
  }

  /** The flag condition is needed in the code as written, and this is exactly how it fails: any other flag is answered
      with 0, so the process marks queue 0 without being counted, unless it held queue 0 before. */
  lemma OtherFlags(s: Sys, p: Pid, key: int, flg: int)
    requires Inv(s, false) && p in s.procs && s.procs[p].ph.Ready? && IsKey(key) && !s.procs[p].queueUse[key]
    requires !GoodFlag(flg)
    ensures var s' := CodeStep(CodeStep(CodeStep(s, Action.Get(p, key, flg)), Go(p)), Go(p));
            && WellFormed(s') && s'.procs[p] == Proc(s.procs[p].queueUse[0 := true], Ready) && s'.kernel == s.kernel
            && (Balanced(s', 0) <==> s.procs[p].queueUse[0])
  {
    var pr := s.procs[p];
    var s1 := CodeStep(s, Action.Get(p, key, flg));
    assert s1 == s.Set(p, pr.(ph := GetAsked(key, flg)));
    var s2 := CodeStep(s1, Go(p));
    assert s2 == s.Set(p, pr.(ph := GetAnswered(0)));
    var s' := CodeStep(s2, Go(p));
    assert s' == s.Set(p, Proc(pr.queueUse[0 := true], Ready));
    assert Balanced(s, 0);
    HoldersAfter(s, s', p, 0);
    assert p in Holders(s, 0) <==> pr.queueUse[0];
    if pr.queueUse[0] { assert Holders(s', 0) == Holders(s, 0); }
  }

  // ---------------------------------------------------------------- the library's code

  const NOWAIT: int := 1

  /** The kernel after n batches of other processes' operations. */
  function Rounds(k: Kernel, env: seq<seq<Op>>, n: nat): (k': Kernel)
    requires k.Valid() && n <= |env| && forall i :: 0 <= i < |env| ==> AllValid(env[i])
    ensures k'.Valid()
  {
    if n == 0 then k else Exec(Rounds(k, env, n - 1), env[n - 1], false)
  }

  /** What a receive answers, by what is pending. */
  function Answer(q: seq<Msgbuf>, typ: seq<byte>, sz: nat, flg: int): int {
    if OfType(q, typ) == [] then -1 else if TooLong(q, typ, sz) && !HasBit(flg, NOERROR) then -2 else 0
  }

  class Process {
    const kernel: Device
    /** queue_use */
    const queueUse: array<bool>

    ghost predicate Valid()
      reads this, queueUse, kernel, kernel.queues, kernel.refs
    {
      kernel.Valid() && queueUse.Length == QUEUE_NUM
    }

    constructor (kernel: Device)
      requires kernel.Valid()
      ensures this.kernel == kernel && Valid() && fresh(queueUse) && queueUse[..] == seq(QUEUE_NUM, _ => false)
    {
      this.kernel := kernel;
      queueUse := new bool[QUEUE_NUM](_ => false);
      new;
      assert queueUse[..] == seq(QUEUE_NUM, _ => false);
    }

    method Msgget(key: int, flg: int) returns (ret: int)
      requires Valid() && IsKey(key)
      modifies queueUse, kernel.refs
      ensures Valid()
      ensures old(queueUse[key]) ==> ret == -1 && kernel.Now() == old(kernel.Now()) && queueUse[..] == old(queueUse[..])
      ensures !old(queueUse[key]) ==>
                && (ret, kernel.Now()) == MsgGet(old(kernel.Now()), key, flg, false)
                && queueUse[..] == if ret < 0 then old(queueUse[..]) else old(queueUse[..])[ret := true]
    {
      if queueUse[key] { return -1; }
      ret := kernel.Msgget(key, flg, false);
      if ret >= 0 { queueUse[ret] := true; }
    }

    method Msgclose(key: int) returns (ret: int)
      requires Valid() && IsKey(key)
      modifies queueUse, kernel.refs
      ensures Valid()
      ensures !old(queueUse[key]) ==>
                ret == -1 && kernel.Now() == old(kernel.Now()) && queueUse[..] == old(queueUse[..])
      ensures old(queueUse[key]) ==>
                && (ret, kernel.Now()) == MsgClose(old(kernel.Now()), key)
                && queueUse[..] == if ret < 0 then old(queueUse[..]) else old(queueUse[..])[key := false]
    {
      if !queueUse[key] { return -1; }
      ret := kernel.Msgclose(key);
      if ret >= 0 { queueUse[key] := false; }
    }

    /** Other processes run. */
    method Others(ops: seq<Op>)
      requires Valid() && AllValid(ops)
      modifies kernel.queues, kernel.refs
      ensures Valid() && kernel.Now() == Exec(old(kernel.Now()), ops, false)
    {
      var i := 0;
      while i < |ops|
        invariant i <= |ops| && Valid() && Exec(kernel.Now(), ops[i..], false) == Exec(old(kernel.Now()), ops, false)
      {
        kernel.Perform(ops[i]);
        i := i + 1;
      }
    }

    /** The ioctl of a send: it fails if and only if the queue is full. */
    method TrySnd(key: int, msg: Msgbuf, sz: nat) returns (r: int)
      requires Valid() && IsKey(key) && sz <= MSGBUF_SIZE
      modifies kernel.queues, kernel.refs
      ensures Valid() && (r, kernel.Now()) == MsgSnd(old(kernel.Now()), key, msg, sz, false)
      ensures r == if Full(old(kernel.Now()).queues[key], SIZEOF_INT) then -1 else 0
    {
      SendAnswers(kernel.Now(), key, msg, sz, false);
      r := kernel.Msgsnd(key, msg, sz, false);
    }

    /** The first try and the loop after it. */
    method RetrySnd(key: int, msg: Msgbuf, sz: nat, env: seq<seq<Op>>) returns (r: int, ghost n: nat)
      requires Valid() && IsKey(key) && sz <= MSGBUF_SIZE && forall i :: 0 <= i < |env| ==> AllValid(env[i])
      modifies kernel.queues, kernel.refs
      ensures Valid() && n <= |env| && (r, kernel.Now()) == MsgSnd(Rounds(old(kernel.Now()), env, n), key, msg, sz,
              false)
      ensures r == if Full(Rounds(old(kernel.Now()), env, n).queues[key], SIZEOF_INT) then -1 else 0
      ensures forall j :: 0 <= j < n ==> Full(Rounds(old(kernel.Now()), env, j).queues[key], SIZEOF_INT)
      ensures r < 0 ==> n == |env|
    {
      hide Full, Exec;
      r := TrySnd(key, msg, sz);
      n := 0;
      var k := 0;
      while r < 0 && k < |env|
        invariant Valid() && k <= |env| && n == k
        invariant (r, kernel.Now()) == MsgSnd(Rounds(old(kernel.Now()), env, k), key, msg, sz, false)
        invariant r == if Full(Rounds(old(kernel.Now()), env, k).queues[key], SIZEOF_INT) then -1 else 0
        invariant forall j :: 0 <= j < k ==> Full(Rounds(old(kernel.Now()), env, j).queues[key], SIZEOF_INT)
        decreases |env| - k
      {
        assert kernel.Now() == Rounds(old(kernel.Now()), env, k);
        Others(env[k]);
        r := TrySnd(key, msg, sz);
        k := k + 1;
        n := k;
      }
    }

    /** ku_msgsnd. None means that the environment ended while the call was still retrying: the queue was full at every
        try. Refused tries change nothing: a send that succeeds after n rounds of other processes is those rounds
        followed by one accepted message. */
    method Msgsnd(key: int, msg: Msgbuf, sz: nat, flg: int, env: seq<seq<Op>>) returns (ret: Option<int>, ghost n: nat)
      requires Valid() && IsKey(key) && sz <= MSGBUF_SIZE && forall i :: 0 <= i < |env| ==> AllValid(env[i])
      modifies kernel.queues, kernel.refs
      ensures Valid() && n <= |env| && (HasBit(flg, NOWAIT) ==> n == 0)
      ensures !queueUse[key] ==> ret == Some(-1) && kernel.Now() == old(kernel.Now())
      ensures queueUse[key] ==>
                var k := Rounds(old(kernel.Now()), env, n);
                && kernel.Now() == MsgSnd(k, key, msg, sz, false).1
                && ret == if !Full(k.queues[key], SIZEOF_INT) then Some(0)
                          else if HasBit(flg, NOWAIT) then Some(-1) else None
      ensures queueUse[key] ==> forall j :: 0 <= j < n ==>
              Full(Rounds(old(kernel.Now()), env, j).queues[key], SIZEOF_INT)
      ensures queueUse[key] && ret.None? ==> n == |env|
    {
      hide Full, Exec, MsgSnd;
      n := 0;
      if !queueUse[key] { return Some(-1), 0; }
      var r;
      if HasBit(flg, NOWAIT) {
        r := TrySnd(key, msg, sz);
        return Some(r), 0;
      }
      r, n := RetrySnd(key, msg, sz, env);
      ret := if r < 0 then None else Some(r);
    }

    /** The ioctl of a receive, and what it answers. */
    method TryRcv(key: int, user: Msgbuf, sz: nat, typ: seq<byte>, flg: int) returns (r: int, out: Msgbuf)
      requires Valid() && IsKey(key) && sz <= MSGBUF_SIZE
      modifies kernel.queues, kernel.refs
      ensures Valid() && (r, kernel.Now(), out) == MsgRcv(old(kernel.Now()), key, user, sz, typ, flg)
      ensures r == Answer(old(kernel.Now()).queues[key], typ, sz, flg)
    {
      ReceiveAnswers(kernel.Now(), key, user, sz, typ, flg);
      r, out := kernel.Msgrcv(key, user, sz, typ, flg);
    }

    /** The first try and the loop after it. */
    method RetryRcv(key: int, user: Msgbuf, sz: nat, typ: seq<byte>, flg: int, env: seq<seq<Op>>)
      returns (r: int, out: Msgbuf, ghost n: nat)
      requires Valid() && IsKey(key) && sz <= MSGBUF_SIZE && forall i :: 0 <= i < |env| ==> AllValid(env[i])
      modifies kernel.queues, kernel.refs
      ensures Valid() && n <= |env|
      ensures (r, kernel.Now(), out) == MsgRcv(Rounds(old(kernel.Now()), env, n), key, user, sz, typ, flg)
      ensures r == Answer(Rounds(old(kernel.Now()), env, n).queues[key], typ, sz, flg)
      ensures forall j :: 0 <= j < n ==> OfType(Rounds(old(kernel.Now()), env, j).queues[key], typ) == []
      ensures r == -1 ==> n == |env|
    {
      hide OfType, TooLong, Exec;
      r, out := TryRcv(key, user, sz, typ, flg);
      n := 0;
      var k := 0;
      while r == -1 && k < |env|
        invariant Valid() && k <= |env| && n == k
        invariant (r, kernel.Now(), out) == MsgRcv(Rounds(old(kernel.Now()), env, k), key, user, sz, typ, flg)
        invariant r == Answer(Rounds(old(kernel.Now()), env, k).queues[key], typ, sz, flg)
        invariant forall j :: 0 <= j < k ==> OfType(Rounds(old(kernel.Now()), env, j).queues[key], typ) == []
        decreases |env| - k
      {
        assert kernel.Now() == Rounds(old(kernel.Now()), env, k);
        Others(env[k]);
        r, out := TryRcv(key, user, sz, typ, flg);
        k := k + 1;
        n := k;
      }
    }

    /** ku_msgrcv: retries only while no message of the type is pending (-1 of the kernel); a message that does not fit
        (-2) ends the call with -1. None: none was pending at any try. */
    method Msgrcv(key: int, user: Msgbuf, sz: nat, typ: seq<byte>, flg: int, env: seq<seq<Op>>)
      returns (ret: Option<int>, out: Msgbuf, ghost n: nat)
      requires Valid() && IsKey(key) && sz <= MSGBUF_SIZE && forall i :: 0 <= i < |env| ==> AllValid(env[i])
      modifies kernel.queues, kernel.refs
      ensures Valid() && n <= |env| && (HasBit(flg, NOWAIT) ==> n == 0)
      ensures !queueUse[key] ==> ret == Some(-1) && out == user && kernel.Now() == old(kernel.Now())
      ensures queueUse[key] ==>
                var k := Rounds(old(kernel.Now()), env, n);
                var r, q := MsgRcv(k, key, user, sz, typ, flg), k.queues[key];
                && kernel.Now() == r.1 && out == r.2
                && ret == if OfType(q, typ) == [] then (if HasBit(flg, NOWAIT) then Some(-1) else None)
                          else if TooLong(q, typ, sz) && !HasBit(flg, NOERROR) then Some(-1)
                          else Some(LibSize(out))
      ensures queueUse[key] ==> forall j :: 0 <= j < n ==>
              OfType(Rounds(old(kernel.Now()), env, j).queues[key], typ) == []
      ensures queueUse[key] && ret.None? ==> n == |env|
    {
      hide OfType, TooLong, Exec, MsgRcv;
      n := 0;
      if !queueUse[key] { return Some(-1), user, 0; }
      var r;
      if HasBit(flg, NOWAIT) {
        r, out := TryRcv(key, user, sz, typ, flg);
        return Some(LibReturn(r, out)), out, 0;
      }
      r, out, n := RetryRcv(key, user, sz, typ, flg, env);
      ret := if r == -1 then None else Some(LibReturn(r, out));
    }
  }
}

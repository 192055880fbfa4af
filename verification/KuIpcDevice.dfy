/** ku_ipc.c in its own form: the two global arrays, changed in place by the four operations. */
module KuIpcDevice {
  import opened KuIpc

  class Device {
    /** msg_queue_head */
    const queues: array<seq<Msgbuf>>
    /** queue_reference_counter */
    const refs: array<int>

    ghost predicate Valid()
      reads this, queues, refs
    {
      queues.Length == QUEUE_NUM && refs.Length == QUEUE_NUM && Now().Valid()
    }

    function Now(): Kernel
      reads queues, refs
    {
      Kernel(queues[..], refs[..])
    }

    /** ku_ipc_init. */
    constructor ()
      ensures Valid() && Now() == EMPTY && fresh(queues) && fresh(refs)
    {
      queues := new seq<Msgbuf>[QUEUE_NUM](_ => []);
      refs := new int[QUEUE_NUM](_ => 0);
      new;
      assert refs[..] == seq(QUEUE_NUM, _ => 0);
      assert queues[..] == EMPTY.queues;
    }

    /** Any flag but CREAT and CREAT|EXCL is answered with 0; `repaired` selects the version that answers -1. */
    method Msgget(key: int, flg: int, repaired: bool) returns (ret: int)
      requires Valid() && IsKey(key)
      modifies refs
      ensures Valid() && (ret, Now()) == MsgGet(old(Now()), key, flg, repaired)
    {
      ret := if repaired then -1 else 0;
      if flg == CREAT + EXCL {
        if refs[key] != 0 {
          ret := -1;
        } else {
          refs[key] := refs[key] + 1;
          ret := key;
        }
      } else if flg == CREAT {
        refs[key] := refs[key] + 1;
        ret := key;
      }
    }

    method Msgclose(key: int) returns (ret: int)
      requires Valid() && IsKey(key)
      modifies refs
      ensures Valid() && (ret, Now()) == MsgClose(old(Now()), key)
    {
      if refs[key] == 0 {
        ret := -1;
      } else {
        refs[key] := refs[key] - 1;
        ret := 0;
      }
    }

    /** Line 112 charges sizeof(msgsz); `repaired` selects the version that charges msgsz. */
    method Msgsnd(key: int, msg: Msgbuf, sz: nat, repaired: bool) returns (ret: int)
      requires Valid() && IsKey(key) && sz <= MSGBUF_SIZE
      modifies queues
      ensures Valid() && (ret, Now()) == MsgSnd(old(Now()), key, msg, sz, repaired)
    {
      var num, vol := 0, 0;
      var q := queues[key];
      while num < |q|
        invariant num <= |q| && vol == TotalVolume(q[..num])
      {
        assert q[..num + 1][..num] == q[..num];
        vol := vol + SIZEOF_LONG + StrLen(Text(q[num])) + 1;
        num := num + 1;
      }
      assert q[..num] == q;
      vol := vol + if repaired then sz else SIZEOF_INT;
      if vol > MAXVOL || num >= MAXMSG {
        ret := -1;
      } else {
        ret := 0;
        queues[key] := queues[key] + [Stored(msg, sz)];
      }
    }

    /** `out` is what the caller's buffer holds afterwards. */
    method Msgrcv(key: int, user: Msgbuf, sz: nat, typ: seq<byte>, flg: int) returns (ret: int, out: Msgbuf)
      requires Valid() && IsKey(key) && sz <= MSGBUF_SIZE
      modifies queues
      ensures Valid() && (ret, Now(), out) == MsgRcv(old(Now()), key, user, sz, typ, flg)
    {
      var q, i := queues[key], 0;
      ret, out := -1, user;
      while i < |q|
        invariant i <= |q| && ret == -1 && out == user && queues[..] == old(queues[..])
        invariant forall j :: 0 <= j < i ==> TypeOf(q[j]) != typ
      {
        if TypeOf(q[i]) == typ {
          FirstIs(q, typ, i);
          if !HasBit(flg, NOERROR) && sz < SIZEOF_LONG + StrLen(Text(q[i])) + 1 {
            ret := -2;
          } else {
            ret, out := 0, Overwrite(user, q[i], sz);
            queues[key] := q[..i] + q[i + 1..];
          }
          return;
        }
        i := i + 1;
      }
    }

    lemma FirstIs(q: seq<Msgbuf>, typ: seq<byte>, i: nat)
      requires i < |q| && TypeOf(q[i]) == typ && forall j :: 0 <= j < i ==> TypeOf(q[j]) != typ
      ensures FirstOf(q, typ) == i
    {}

    /** One operation of some process. */
    method Perform(op: Op)
      requires Valid() && op.Valid()
      modifies queues, refs
      ensures Valid() && Now() == Step(old(Now()), op, false)
    {
      match op
      case Get(key, flg) => var _ := Msgget(key, flg, false);
      case Close(key) => var _ := Msgclose(key);
      case Snd(key, msg, sz) => var _ := Msgsnd(key, msg, sz, false);
      case Rcv(key, user, sz, typ, flg) => var _, _ := Msgrcv(key, user, sz, typ, flg);
    }

    /** ku_ipc_exit: every message that is left is freed once; the lists themselves are left as they are. */
    method Exit() returns (freed: seq<Msgbuf>)
      requires Valid()
      ensures freed == Pending(queues[..])
    {
      freed := [];
      for i := 0 to QUEUE_NUM
        invariant freed == Pending(queues[..i])
      {
        for j := 0 to |queues[i]|
          invariant freed == Pending(queues[..i]) + queues[i][..j]
        {
          freed := freed + [queues[i][j]];
        }
        assert queues[i][..|queues[i]|] == queues[i];
        assert queues[..i + 1][..i] == queues[..i];
      }
      assert queues[..QUEUE_NUM] == queues[..];
    }
  }

  lemma PendingSnoc(queues: seq<seq<Msgbuf>>, i: nat)
    requires i < |queues|
    ensures Pending(queues[..i + 1]) == Pending(queues[..i]) + queues[i]
  {
    assert queues[..i + 1][..i] == queues[..i];
  }

  /** Pending holds every message of every queue, each at a place of its own, queue by queue and in order, and nothing
      else. */
  lemma {:induction false} PendingAt(queues: seq<seq<Msgbuf>>, i: nat, j: nat)
    requires i < |queues| && j < |queues[i]|
    ensures |Pending(queues[..i + 1])| == |Pending(queues[..i])| + |queues[i]| && Pending([]) == []
    ensures |Pending(queues[..i])| + j < |Pending(queues)|
            && Pending(queues)[|Pending(queues[..i])| + j] == queues[i][j]
    decreases |queues|
  {
    var n := |queues| - 1;
    PendingSnoc(queues, i);
    assert queues[..|queues|] == queues;
    if i < n {
      PendingAt(queues[..n], i, j);
      assert queues[..n][..i] == queues[..i] && queues[..n][..i + 1] == queues[..i + 1];
    }
  }

  /** All messages of all queues, in order. */
  function Pending(queues: seq<seq<Msgbuf>>): seq<Msgbuf> {
    if queues == [] then [] else Pending(queues[..|queues| - 1]) + queues[|queues| - 1]
  }
}

/**
  assignment1/ku_ipc.c: ten message queues. Every operation runs under one spin lock, so an interleaving of processes
  is a sequence of operations. A message is a `struct msgbuf`: the bytes of a long (the type), then 128 bytes of text.
 */
module KuIpc {
  const QUEUE_NUM: nat := 10
  const SIZEOF_LONG: nat := 8
  const SIZEOF_INT: nat := 4
  const TEXT_SIZE: nat := 128
  const MSGBUF_SIZE: nat := SIZEOF_LONG + TEXT_SIZE
  const MAXMSG: nat := 5
  const MAXVOL: nat := 100
  const CREAT: int := 1
  const EXCL: int := 2
  const NOERROR: int := 2

  newtype byte = x: int | 0 <= x < 256
  type Msgbuf = b: seq<byte> | |b| == MSGBUF_SIZE witness Zeros(MSGBUF_SIZE)

  function Zeros(n: nat): (z: seq<byte>)
    ensures |z| == n
  {
    seq(n, _ => 0)
  }

  function TypeOf(b: Msgbuf): seq<byte> { b[..SIZEOF_LONG] }
  function Text(b: Msgbuf): seq<byte> { b[SIZEOF_LONG..] }

  /** strlen, within the bounds of the text. */
  function StrLen(text: seq<byte>): (n: nat)
    ensures n <= |text| && (n < |text| ==> text[n] == 0)
    ensures forall i :: 0 <= i < n ==> text[i] != 0
  {
    if text == [] || text[0] == 0 then 0 else 1 + StrLen(text[1..])
  }

  /** A NUL-terminated text. */
  ghost predicate Terminated(text: seq<byte>) { StrLen(text) < |text| }

  /** What the kernel keeps of a message sent with size sz: the first sz bytes in a zeroed buffer. */
  function Stored(msg: Msgbuf, sz: nat): Msgbuf
    requires sz <= MSGBUF_SIZE
  {
    msg[..sz] + Zeros(MSGBUF_SIZE - sz)
  }

  /** What a message counts for when space is checked. */
  function Volume(b: Msgbuf): nat { SIZEOF_LONG + StrLen(Text(b)) + 1 }

  function TotalVolume(q: seq<Msgbuf>): nat {
    if q == [] then 0 else TotalVolume(q[..|q| - 1]) + Volume(q[|q| - 1])
  }

  /** `flg & bit`, for a bit that is a power of two, in two's complement. */
  predicate HasBit(flg: int, bit: nat)
    requires bit > 0
  {
    (flg / bit) % 2 == 1
  }

  datatype Kernel = Kernel(queues: seq<seq<Msgbuf>>, refs: seq<int>) {
    predicate Valid() {
      |queues| == QUEUE_NUM && |refs| == QUEUE_NUM && forall key :: 0 <= key < QUEUE_NUM ==> refs[key] >= 0
    }
  }

  const EMPTY: Kernel := Kernel(seq(QUEUE_NUM, _ => []), seq(QUEUE_NUM, _ => 0))

  predicate IsKey(key: int) { 0 <= key < QUEUE_NUM }

  // ---------------------------------------------------------------- the four operations

  /** The two flag values that the kernel understands. */
  predicate GoodFlag(flg: int) { flg == CREAT || flg == CREAT + EXCL }

  /** The code answers any other flag with 0, which the library takes for queue 0; the repair answers -1. */
  function MsgGet(k: Kernel, key: int, flg: int, repaired: bool): (r: (int, Kernel))
    requires k.Valid() && IsKey(key)
    ensures r.1.Valid() && r.1.queues == k.queues
  {
    if flg == CREAT + EXCL then
      if k.refs[key] != 0 then (-1, k) else (key, k.(refs := k.refs[key := k.refs[key] + 1]))
    else if flg == CREAT then (key, k.(refs := k.refs[key := k.refs[key] + 1]))
    else (if repaired then -1 else 0, k)
  }

  function MsgClose(k: Kernel, key: int): (r: (int, Kernel))
    requires k.Valid() && IsKey(key)
    ensures r.1.Valid() && r.1.queues == k.queues
  {
    if k.refs[key] == 0 then (-1, k) else (0, k.(refs := k.refs[key := k.refs[key] - 1]))
  }

  /** Whether a queue has room, when `charge` is what the new message is counted for. */
  predicate Room(q: seq<Msgbuf>, charge: nat) { TotalVolume(q) + charge <= MAXVOL && |q| < MAXMSG }

  /** The code charges `sizeof(msgsz)`, the size of an int, whatever is sent; the repair charges msgsz. */
  function Charge(sz: nat, repaired: bool): nat { if repaired then sz else SIZEOF_INT }

  function MsgSnd(k: Kernel, key: int, msg: Msgbuf, sz: nat, repaired: bool): (r: (int, Kernel))
    requires k.Valid() && IsKey(key) && sz <= MSGBUF_SIZE
    ensures r.1.Valid() && r.1.refs == k.refs && (r.0 != 0 ==> r.1 == k)
    ensures forall j :: 0 <= j < QUEUE_NUM && j != key ==> r.1.queues[j] == k.queues[j]
  {
    if Room(k.queues[key], Charge(sz, repaired))
    then (0, k.(queues := k.queues[key := k.queues[key] + [Stored(msg, sz)]]))
    else (-1, k)
  }

  /** Index of the first message of this type, or the length of the queue. */
  function FirstOf(q: seq<Msgbuf>, typ: seq<byte>): (i: nat)
    ensures i <= |q| && (i < |q| ==> TypeOf(q[i]) == typ)
    ensures forall j :: 0 <= j < i ==> TypeOf(q[j]) != typ
  {
    if q == [] || TypeOf(q[0]) == typ then 0 else 1 + FirstOf(q[1..], typ)
  }

  function Without(q: seq<Msgbuf>, i: nat): seq<Msgbuf>
    requires i < |q|
  {
    q[..i] + q[i + 1..]
  }

  /** copy_to_user of the first sz bytes. */
  function Overwrite(user: Msgbuf, b: Msgbuf, sz: nat): Msgbuf
    requires sz <= MSGBUF_SIZE
  {
    b[..sz] + user[sz..]
  }

  /** msgrcv refuses a message that does not fit, unless truncation is allowed. */
  predicate TooSmall(b: Msgbuf, sz: nat, flg: int) { !HasBit(flg, NOERROR) && sz < Volume(b) }

  /** Result, new state, and what the caller's buffer holds afterwards. */
  function MsgRcv(k: Kernel, key: int, user: Msgbuf, sz: nat, typ: seq<byte>, flg: int): (r: (int, Kernel, Msgbuf))
    requires k.Valid() && IsKey(key) && sz <= MSGBUF_SIZE
    ensures r.1.Valid() && r.1.refs == k.refs
    ensures forall j :: 0 <= j < QUEUE_NUM && j != key ==> r.1.queues[j] == k.queues[j]
    ensures r.0 != 0 ==> r.1 == k && r.2 == user
  {
    var q := k.queues[key];
    var i := FirstOf(q, typ);
    if i == |q| then (-1, k, user)
    else if TooSmall(q[i], sz, flg) then (-2, k, user)
    else (0, k.(queues := k.queues[key := Without(q, i)]), Overwrite(user, q[i], sz))
  }

  // ---------------------------------------------------------------- runs

  datatype Op =
    | Get(key: int, flg: int)
    | Close(key: int)
    | Snd(key: int, msg: Msgbuf, sz: nat)
    | Rcv(key: int, user: Msgbuf, sz: nat, typ: seq<byte>, flg: int)
  {
    predicate Valid() { IsKey(key) && (Snd? || Rcv? ==> sz <= MSGBUF_SIZE) }
  }

  ghost predicate AllValid(ops: seq<Op>) { forall i :: 0 <= i < |ops| ==> ops[i].Valid() }

  function Step(k: Kernel, op: Op, repaired: bool): (k': Kernel)
    requires k.Valid() && op.Valid()
    ensures k'.Valid()
  {
    match op
    case Get(key, flg) => MsgGet(k, key, flg, repaired).1
    case Close(key) => MsgClose(k, key).1
    case Snd(key, msg, sz) => MsgSnd(k, key, msg, sz, repaired).1
    case Rcv(key, user, sz, typ, flg) => MsgRcv(k, key, user, sz, typ, flg).1
  }

  function Exec(k: Kernel, ops: seq<Op>, repaired: bool): (k': Kernel)
    requires k.Valid() && AllValid(ops)
    ensures k'.Valid()
    decreases |ops|
  {
    if ops == [] then k else Exec(Step(k, ops[0], repaired), ops[1..], repaired)
  }

  function OfType(q: seq<Msgbuf>, typ: seq<byte>): seq<Msgbuf> {
    if q == [] then [] else (if TypeOf(q[0]) == typ then [q[0]] else []) + OfType(q[1..], typ)
  }

  /** What this operation adds to queue `key` as a message of type `typ`. */
  function Gives(k: Kernel, op: Op, repaired: bool, key: int, typ: seq<byte>): seq<Msgbuf>
    requires k.Valid() && op.Valid()
  {
    if op.Snd? && op.key == key && MsgSnd(k, key, op.msg, op.sz, repaired).0 == 0
       && TypeOf(Stored(op.msg, op.sz)) == typ
    then [Stored(op.msg, op.sz)] else []
  }

  /** What this operation hands to its caller from queue `key`, asking for type `typ`. */
  function Takes(k: Kernel, op: Op, key: int, typ: seq<byte>): seq<Msgbuf>
    requires k.Valid() && op.Valid()
  {
    if op.Rcv? && op.key == key && op.typ == typ && MsgRcv(k, key, op.user, op.sz, typ, op.flg).0 == 0
    then [k.queues[key][FirstOf(k.queues[key], typ)]] else []
  }

  function Accepted(k: Kernel, ops: seq<Op>, repaired: bool, key: int, typ: seq<byte>): seq<Msgbuf>
    requires k.Valid() && AllValid(ops)
    decreases |ops|
  {
    if ops == [] then []
    else Gives(k, ops[0], repaired, key, typ) + Accepted(Step(k, ops[0], repaired), ops[1..], repaired, key, typ)
  }

  function Delivered(k: Kernel, ops: seq<Op>, repaired: bool, key: int, typ: seq<byte>): seq<Msgbuf>
    requires k.Valid() && AllValid(ops)
    decreases |ops|
  {
    if ops == [] then []
    else Takes(k, ops[0], key, typ) + Delivered(Step(k, ops[0], repaired), ops[1..], repaired, key, typ)
  }

  // ---------------------------------------------------------------- conservation

  lemma OfTypeCons(m: Msgbuf, q: seq<Msgbuf>, typ: seq<byte>)
    ensures OfType([m] + q, typ) == OfType([m], typ) + OfType(q, typ)
    ensures OfType([m], typ) == if TypeOf(m) == typ then [m] else []
  {
    hide TypeOf;
    assert ([m] + q)[1..] == q;
  }

  lemma {:induction false} OfTypeConcat(p: seq<Msgbuf>, q: seq<Msgbuf>, typ: seq<byte>)
    ensures OfType(p + q, typ) == OfType(p, typ) + OfType(q, typ)
  {
    if p == [] {
      assert p + q == q;
    } else {
      var m, rest := p[0], p[1..];
      hide OfType, TypeOf;
      OfTypeConcat(rest, q, typ);
      OfTypeCons(m, rest, typ);
      OfTypeCons(m, rest + q, typ);
      assert p == [m] + rest && p + q == [m] + (rest + q);
    }
  }

  lemma {:induction false} NoneOfType(q: seq<Msgbuf>, typ: seq<byte>)
    requires forall j :: 0 <= j < |q| ==> TypeOf(q[j]) != typ
    ensures OfType(q, typ) == []
  {
    if q != [] { NoneOfType(q[1..], typ); }
  }

  lemma OfTypeAround(front: seq<Msgbuf>, m: Msgbuf, back: seq<Msgbuf>, typ: seq<byte>)
    requires TypeOf(m) == typ ==> forall j :: 0 <= j < |front| ==> TypeOf(front[j]) != typ
    ensures OfType(front + ([m] + back), typ) == (if TypeOf(m) == typ then [m] else []) + OfType(front + back, typ)
  {
    hide OfType, TypeOf;
    OfTypeConcat(front, [m] + back, typ);
    OfTypeConcat(front, back, typ);
    OfTypeCons(m, back, typ);
    if TypeOf(m) == typ { NoneOfType(front, typ); }
  }

  /** Taking out message i leaves the other types alone, and its own type without it. */
  lemma OfTypeWithout(q: seq<Msgbuf>, i: nat, typ: seq<byte>)
    requires i < |q| && i == FirstOf(q, TypeOf(q[i]))
    ensures OfType(q, typ) == (if TypeOf(q[i]) == typ then [q[i]] else []) + OfType(Without(q, i), typ)
  {
    hide OfType, TypeOf;
    var front, back := q[..i], q[i + 1..];
    assert q == front + ([q[i]] + back);
    OfTypeAround(front, q[i], back, typ);
  }

  lemma StepConserves(k: Kernel, op: Op, repaired: bool, key: int, typ: seq<byte>)
    requires k.Valid() && op.Valid() && IsKey(key)
    ensures OfType(k.queues[key], typ) + Gives(k, op, repaired, key, typ)
         == Takes(k, op, key, typ) + OfType(Step(k, op, repaired).queues[key], typ)
  {
    var q := k.queues[key];
    match op
    case Snd(_, msg, sz) =>
      OfTypeConcat(q, [Stored(msg, sz)], typ);
      assert OfType([Stored(msg, sz)], typ) == if TypeOf(Stored(msg, sz)) == typ then [Stored(msg, sz)] else [];
    case Rcv(_, _, _, wanted, _) =>
      var i := FirstOf(q, wanted);
      if op.key == key && i < |q| { OfTypeWithout(q, i, typ); }
    case _ =>
  }

  lemma Chain<T>(before: seq<T>, gives: seq<T>, takes: seq<T>, middle: seq<T>, acc: seq<T>, del: seq<T>, after: seq<T>)
    requires before + gives == takes + middle && middle + acc == del + after
    ensures before + (gives + acc) == (takes + del) + after
  {
    assert before + (gives + acc) == (before + gives) + acc == takes + (middle + acc);
  }

  /** Main result: per key and type, first in first out and nothing lost or made up, over every run of every process:
      what was pending and what was accepted is what was delivered followed by what is pending. */
  lemma {:induction false} TypedFifo(k: Kernel, ops: seq<Op>, repaired: bool, key: int, typ: seq<byte>)
    requires k.Valid() && AllValid(ops) && IsKey(key)
    ensures OfType(k.queues[key], typ) + Accepted(k, ops, repaired, key, typ)
         == Delivered(k, ops, repaired, key, typ) + OfType(Exec(k, ops, repaired).queues[key], typ)
    decreases |ops|
  {
    hide Step, Gives, Takes, OfType;
    if ops != [] {
      var k' := Step(k, ops[0], repaired);
      StepConserves(k, ops[0], repaired, key, typ);
      TypedFifo(k', ops[1..], repaired, key, typ);
      Chain(OfType(k.queues[key], typ), Gives(k, ops[0], repaired, key, typ), Takes(k, ops[0], key, typ),
            OfType(k'.queues[key], typ), Accepted(k', ops[1..], repaired, key, typ),
            Delivered(k', ops[1..], repaired, key, typ), OfType(Exec(k, ops, repaired).queues[key], typ));
    }
  }

  // ---------------------------------------------------------------- what the calls answer

  /** `&` with the two flag bits, for every flag word: each bit is seen whatever the other bits are. */
  lemma HasBits(nowait: nat, noerror: nat, rest: int)
    requires nowait <= 1 && noerror <= 1
    ensures HasBit(nowait + 2 * noerror + 4 * rest, 1) <==> nowait == 1
    ensures HasBit(nowait + 2 * noerror + 4 * rest, NOERROR) <==> noerror == 1
  {
    var flg := nowait + 2 * noerror + 4 * rest;
    assert flg / 2 == noerror + 2 * rest;
  }

  /** The sizes sizeof(long) + strlen + 1 of the pending messages, added up. */
  function Sizes(q: seq<Msgbuf>): nat {
    if q == [] then 0 else SIZEOF_LONG + StrLen(Text(q[0])) + 1 + Sizes(q[1..])
  }

  lemma {:induction false} SizesAreVolume(q: seq<Msgbuf>)
    ensures Sizes(q) == TotalVolume(q)
  {
    if q != [] {
      SizesAreVolume(q[1..]);
      assert q == [q[0]] + q[1..];
      TotalVolumeConcat([q[0]], q[1..]);
      TotalVolumeOne(q[0]);
    }
  }

  /** No room for a message that is charged this much: five are pending, or their sizes leave too little. */
  predicate Full(q: seq<Msgbuf>, charge: nat) { |q| >= MAXMSG || Sizes(q) + charge > MAXVOL }

  /** Main result: a send is refused if and only if the queue is full, for an int whatever is sent in the code as
      written, for msgsz as repaired; if it is not, the send is accepted and the message is the last one pending. */
  lemma SendAnswers(k: Kernel, key: int, msg: Msgbuf, sz: nat, repaired: bool)
    requires k.Valid() && IsKey(key) && sz <= MSGBUF_SIZE
    ensures var r, full := MsgSnd(k, key, msg, sz, repaired), Full(k.queues[key], if repaired then sz else 4);
            && r.0 == (if full then -1 else 0)
            && r.1.queues[key] == if full then k.queues[key] else k.queues[key] + [Stored(msg, sz)]
  {
    hide Stored, TotalVolume, Sizes;
    SizesAreVolume(k.queues[key]);
  }

  /** The messages that sends to one key leave when all are accepted. */
  function StoredBy(ops: seq<Op>): (b: seq<Msgbuf>)
    requires forall i :: 0 <= i < |ops| ==> ops[i].Snd? && ops[i].sz <= MSGBUF_SIZE
    ensures |b| == |ops|
  {
    seq(|ops|, i requires 0 <= i < |ops| => Stored(ops[i].msg, ops[i].sz))
  }

  /** The most that each of four messages may count for, so that a fifth fits. */
  const SHORT: nat := (MAXVOL - SIZEOF_INT) / (MAXMSG - 1)

  lemma {:induction false} ShortSends(k: Kernel, key: int, ops: seq<Op>)
    requires k.Valid() && AllValid(ops) && IsKey(key) && |k.queues[key]| + |ops| <= MAXMSG
    requires Sizes(k.queues[key]) <= SHORT * |k.queues[key]|
    requires forall i :: 0 <= i < |ops| ==> ops[i].Snd? && ops[i].key == key && Need(ops[i].msg, ops[i].sz) <= SHORT
    ensures Exec(k, ops, false).queues[key] == k.queues[key] + StoredBy(ops)
    decreases |ops|
  {
    hide Stored, Sizes, Volume, TotalVolume, Need;
    var q := k.queues[key];
    if ops == [] {
      assert q + StoredBy(ops) == q;
    } else {
      var b := Stored(ops[0].msg, ops[0].sz);
      SendAnswers(k, key, ops[0].msg, ops[0].sz, false);
      SizesAreVolume(q);
      SizesAreVolume(q + [b]);
      TotalVolumeSnoc(q, b);
      StoredVolume(ops[0].msg, ops[0].sz);
      ShortSends(Step(k, ops[0], false), key, ops[1..]);
      assert q + [b] + StoredBy(ops[1..]) == q + StoredBy(ops);
    }
  }

  /** Main result: any five short sends to an empty queue are all accepted, in order, and any sixth send is refused. */
  lemma FiveShortSends(k: Kernel, key: int, ops: seq<Op>, msg: Msgbuf, sz: nat)
    requires k.Valid() && AllValid(ops) && IsKey(key) && k.queues[key] == [] && |ops| == 5 && sz <= MSGBUF_SIZE
    requires forall i :: 0 <= i < |ops| ==> ops[i].Snd? && ops[i].key == key && Need(ops[i].msg, ops[i].sz) <= 24
    ensures Exec(k, ops, false).queues[key] == StoredBy(ops)
    ensures MsgSnd(Exec(k, ops, false), key, msg, sz, false).0 == -1
  {
    hide Stored, Exec, Need;
    ShortSends(k, key, ops);
    assert [] + StoredBy(ops) == StoredBy(ops);
    SendAnswers(Exec(k, ops, false), key, msg, sz, false);
  }

  /** The oldest pending message of the type is longer than the room for it. */
  predicate TooLong(q: seq<Msgbuf>, typ: seq<byte>, sz: nat) {
    OfType(q, typ) != [] && sz < SIZEOF_LONG + StrLen(Text(OfType(q, typ)[0])) + 1
  }

  /** Main result: which failure is which. A receive answers -1 if and only if no message of the type is pending, and -2
      if and only if the oldest of the type does not fit and may not be truncated; else 0. */
  lemma ReceiveAnswers(k: Kernel, key: int, user: Msgbuf, sz: nat, typ: seq<byte>, flg: int)
    requires k.Valid() && IsKey(key) && sz <= MSGBUF_SIZE
    ensures var q, r := k.queues[key], MsgRcv(k, key, user, sz, typ, flg).0;
            && (r == -1 <==> OfType(q, typ) == [])
            && (r == -2 <==> TooLong(q, typ, sz) && !HasBit(flg, NOERROR))
            && -2 <= r <= 0
  {
    FirstIsHead(k.queues[key], typ);
  }

  // ---------------------------------------------------------------- references

  /** A get is granted (a good flag, and for an exclusive one no reference yet) or changes nothing; a close undoes a
      granted get; and closing once more than was granted is refused. */
  lemma GetThenClose(k: Kernel, key: int, flg: int, repaired: bool)
    requires k.Valid() && IsKey(key)
    ensures var r := MsgGet(k, key, flg, repaired);
            var granted := flg == CREAT || (flg == CREAT + EXCL && MsgClose(k, key).0 == -1);
            && (r.1 != k <==> granted)
            && r.0 == (if granted then key else if GoodFlag(flg) || repaired then -1 else 0)
            && (granted ==> MsgClose(r.1, key) == (0, k))
  {
    var r := MsgGet(k, key, flg, repaired);
    assert k.refs[key := k.refs[key] + 1][key] == k.refs[key] + 1;
    if r.1 != k { assert r.1.refs[key := r.1.refs[key] - 1] == k.refs; }
  }

  // ---------------------------------------------------------------- capacity

  lemma TotalVolumeSnoc(q: seq<Msgbuf>, b: Msgbuf)
    ensures TotalVolume(q + [b]) == TotalVolume(q) + Volume(b)
  {
    hide Volume;
    assert (q + [b])[..|q|] == q;
  }

  lemma {:induction false} TotalVolumeConcat(p: seq<Msgbuf>, q: seq<Msgbuf>)
    ensures TotalVolume(p + q) == TotalVolume(p) + TotalVolume(q)
  {
    hide Volume;
    if q == [] {
      assert p + q == p;
    } else {
      var front := q[..|q| - 1];
      TotalVolumeConcat(p, front);
      assert p + q == (p + front) + [q[|q| - 1]];
      TotalVolumeSnoc(p + front, q[|q| - 1]);
    }
  }

  lemma TotalVolumeAround(front: seq<Msgbuf>, b: Msgbuf, back: seq<Msgbuf>)
    ensures TotalVolume(front + ([b] + back)) == TotalVolume(front + back) + Volume(b)
  {
    hide Volume, TotalVolume;
    TotalVolumeConcat(front, [b] + back);
    TotalVolumeConcat([b], back);
    TotalVolumeConcat(front, back);
    TotalVolumeOne(b);
  }

  lemma TotalVolumeOne(b: Msgbuf)
    ensures TotalVolume([b]) == Volume(b)
  {
    hide Volume;
    TotalVolumeSnoc([], b);
    assert [] + [b] == [b];
  }

  lemma TotalVolumeWithout(q: seq<Msgbuf>, i: nat)
    requires i < |q|
    ensures TotalVolume(Without(q, i)) + Volume(q[i]) == TotalVolume(q)
  {
    hide Volume, TotalVolume;
    assert q == q[..i] + ([q[i]] + q[i + 1..]);
    TotalVolumeAround(q[..i], q[i], q[i + 1..]);
  }

  function Min(a: nat, b: nat): nat { if a < b then a else b }

  /** How much text a size has room for. */
  function TextRoom(sz: nat): nat { if sz < SIZEOF_LONG then 0 else sz - SIZEOF_LONG }

  /** The text that is kept, in terms of the text that was sent. */
  lemma StoredLength(msg: Msgbuf, sz: nat)
    requires sz <= MSGBUF_SIZE
    ensures StrLen(Text(Stored(msg, sz))) == Min(StrLen(Text(msg)), TextRoom(sz))
    ensures SIZEOF_LONG <= sz ==> TypeOf(Stored(msg, sz)) == TypeOf(msg)
  {
    var t, u, n := Text(msg), Text(Stored(msg, sz)), TextRoom(sz);
    assert forall i :: 0 <= i < n ==> u[i] == t[i];
    assert forall i :: n <= i < TEXT_SIZE ==> u[i] == 0;
    if StrLen(t) < n {
      StrLenIs(u, StrLen(t));
    } else if n < TEXT_SIZE {
      StrLenIs(u, n);
    } else {
      assert u == t;
    }
  }

  /** What a send adds to the volume of its queue, as its caller can tell beforehand. */
  function Need(msg: Msgbuf, sz: nat): nat { SIZEOF_LONG + Min(StrLen(Text(msg)), TextRoom(sz)) + 1 }

  lemma StoredVolume(msg: Msgbuf, sz: nat)
    requires sz <= MSGBUF_SIZE
    ensures Volume(Stored(msg, sz)) == Need(msg, sz)
  {
    StoredLength(msg, sz);
  }

  /** What is stored has a NUL. */
  ghost predicate Readable(op: Op) { op.Snd? ==> Terminated(Text(op.msg)) || op.sz < MSGBUF_SIZE }

  /** The size covers at least the type. */
  ghost predicate CoversType(op: Op) { op.Snd? ==> SIZEOF_LONG <= op.sz }

  /** The size covers the text with its NUL. */
  ghost predicate Covers(op: Op) { op.Snd? ==> SIZEOF_LONG + StrLen(Text(op.msg)) + 1 <= op.sz }

  /** The message counts for at most e more than it is charged. */
  ghost predicate Excess(op: Op, repaired: bool, e: nat) {
    op.Snd? ==> Need(op.msg, op.sz) <= Charge(op.sz, repaired) + e
  }

  lemma ExcessOf(op: Op)
    requires op.Valid()
    ensures Readable(op) ==> Excess(op, false, MSGBUF_SIZE - SIZEOF_INT)
    ensures CoversType(op) ==> Excess(op, true, 1)
    ensures Covers(op) ==> Excess(op, true, 0)
  {}

  lemma StepCount(k: Kernel, op: Op, repaired: bool, key: int)
    requires k.Valid() && op.Valid() && IsKey(key) && |k.queues[key]| <= MAXMSG
    ensures |Step(k, op, repaired).queues[key]| <= MAXMSG
  {
    hide TotalVolume;
  }

  lemma StepVolume(k: Kernel, op: Op, repaired: bool, key: int, e: nat)
    requires k.Valid() && op.Valid() && IsKey(key) && Excess(op, repaired, e)
    requires TotalVolume(k.queues[key]) <= MAXVOL + e
    ensures TotalVolume(Step(k, op, repaired).queues[key]) <= MAXVOL + e
  {
    hide Stored, Volume, TotalVolume, Without, Need;
    var q := k.queues[key];
    if op.Snd? && op.key == key {
      TotalVolumeSnoc(q, Stored(op.msg, op.sz));
      StoredVolume(op.msg, op.sz);
    } else if op.Rcv? && op.key == key {
      var i := FirstOf(q, op.typ);
      if i < |q| { TotalVolumeWithout(q, i); }
    }
  }

  /** No run of any sends, of whatever sizes and texts, ever puts more than MAXMSG messages in a queue. */
  lemma {:induction false} CountLimit(k: Kernel, ops: seq<Op>, repaired: bool, key: int)
    requires k.Valid() && AllValid(ops) && IsKey(key) && |k.queues[key]| <= MAXMSG
    ensures |Exec(k, ops, repaired).queues[key]| <= MAXMSG
    decreases |ops|
  {
    hide Step;
    if ops != [] {
      StepCount(k, ops[0], repaired, key);
      CountLimit(Step(k, ops[0], repaired), ops[1..], repaired, key);
    }
  }

  /** If no message counts for more than e above its charge, no run takes a queue more than e over the limit. */
  lemma {:induction false} VolumeLimit(k: Kernel, ops: seq<Op>, repaired: bool, key: int, e: nat)
    requires k.Valid() && AllValid(ops) && IsKey(key)
    requires forall i :: 0 <= i < |ops| ==> Excess(ops[i], repaired, e)
    requires TotalVolume(k.queues[key]) <= MAXVOL + e
    ensures TotalVolume(Exec(k, ops, repaired).queues[key]) <= MAXVOL + e
    decreases |ops|
  {
    hide Step, Excess, TotalVolume;
    if ops != [] {
      assert Excess(ops[0], repaired, e);
      StepVolume(k, ops[0], repaired, key, e);
      VolumeLimit(Step(k, ops[0], repaired), ops[1..], repaired, key, e);
    }
  }

  /** Main result, for every run from a queue within its limits: the code as written keeps the volume at 100 - 4 + 136 =
      232 for any sizes, as long as the stored texts have a NUL. Charging msgsz keeps it at 101 for any sizes that cover
      the type, and at MAXVOL for sizes that cover the NUL. */
  lemma Capacity(k: Kernel, ops: seq<Op>, key: int)
    requires k.Valid() && AllValid(ops) && IsKey(key) && TotalVolume(k.queues[key]) <= MAXVOL
    ensures (forall i :: 0 <= i < |ops| ==> Readable(ops[i])) ==>
              TotalVolume(Exec(k, ops, false).queues[key]) <= MAXVOL - SIZEOF_INT + MSGBUF_SIZE
    ensures (forall i :: 0 <= i < |ops| ==> CoversType(ops[i])) ==>
              TotalVolume(Exec(k, ops, true).queues[key]) <= MAXVOL + 1
    ensures (forall i :: 0 <= i < |ops| ==> Covers(ops[i])) ==> TotalVolume(Exec(k, ops, true).queues[key]) <= MAXVOL
  {
    hide Readable, CoversType, Covers, Excess, TotalVolume, Exec;
    forall i | 0 <= i < |ops|
      ensures Readable(ops[i]) ==> Excess(ops[i], false, MSGBUF_SIZE - SIZEOF_INT)
      ensures CoversType(ops[i]) ==> Excess(ops[i], true, 1)
      ensures Covers(ops[i]) ==> Excess(ops[i], true, 0)
    {
      ExcessOf(ops[i]);
    }
    if forall i :: 0 <= i < |ops| ==> Readable(ops[i]) { VolumeLimit(k, ops, false, key, MSGBUF_SIZE - SIZEOF_INT); }
    if forall i :: 0 <= i < |ops| ==> CoversType(ops[i]) { VolumeLimit(k, ops, true, key, 1); }
    if forall i :: 0 <= i < |ops| ==> Covers(ops[i]) { VolumeLimit(k, ops, true, key, 0); }
  }

  /** Exactly when one send, of any size and text, overflows MAXVOL in the code as written: the queue has a free slot,
      room for an int, and not for what is kept of the message. */
  lemma OverflowsExactly(k: Kernel, key: int, msg: Msgbuf, sz: nat)
    requires k.Valid() && IsKey(key) && sz <= MSGBUF_SIZE && TotalVolume(k.queues[key]) <= MAXVOL
    ensures var vol := TotalVolume(k.queues[key]);
            TotalVolume(MsgSnd(k, key, msg, sz, false).1.queues[key]) > MAXVOL
            <==> |k.queues[key]| < MAXMSG && vol <= MAXVOL - SIZEOF_INT && MAXVOL < vol + Need(msg, sz)
  {
    hide Stored, Volume, TotalVolume, Need;
    StoredVolume(msg, sz);
    TotalVolumeSnoc(k.queues[key], Stored(msg, sz));
  }

  /** A message of n nonzero text bytes. */
  function Filled(n: nat): Msgbuf
    requires n < TEXT_SIZE
  {
    Zeros(SIZEOF_LONG) + seq(n, _ => 1) + Zeros(TEXT_SIZE - n)
  }

  lemma FilledVolume(n: nat, sz: nat)
    requires n < TEXT_SIZE && sz <= MSGBUF_SIZE
    ensures StrLen(Text(Filled(n))) == n && Volume(Stored(Filled(n), sz)) == SIZEOF_LONG + Min(n, TextRoom(sz)) + 1
  {
    StrLenIs(Text(Filled(n)), n);
    StoredVolume(Filled(n), sz);
  }

  lemma NothingStored()
    ensures TotalVolume([]) == 0
  {}

  /** The bound of the code as written is attained, by two sends that both cover their NUL. */
  lemma CapacityAttained()
    ensures var ops := [Snd(0, Filled(87), 96), Snd(0, Filled(127), 136)];
            && AllValid(ops) && (forall i :: 0 <= i < |ops| ==> Readable(ops[i]) && Covers(ops[i])) && EMPTY.Valid()
            && TotalVolume(Exec(EMPTY, ops, false).queues[0]) == MAXVOL - SIZEOF_INT + MSGBUF_SIZE
  {
    hide Stored, Filled, Volume, TotalVolume;
    var a, b := Snd(0, Filled(87), 96), Snd(0, Filled(127), 136);
    assert TotalVolume([]) == 0 by { NothingStored(); }
    FilledVolume(87, 96);
    FilledVolume(127, 136);
    var k1 := Step(EMPTY, a, false);
    TotalVolumeSnoc([], Stored(a.msg, a.sz));
    assert k1.queues[0] == [] + [Stored(a.msg, a.sz)];
    var k2 := Step(k1, b, false);
    TotalVolumeSnoc(k1.queues[0], Stored(b.msg, b.sz));
    assert [a, b][1..] == [b] && [b][1..] == [];
    assert Exec(EMPTY, [a, b], false) == Exec(k1, [b], false) == Exec(k2, [], false) == k2;
  }

  /** The repair's 101 is attained: 92 bytes of text sent without their NUL are stored with a NUL of their own. */
  lemma CoveringNeeded()
    ensures var op := Snd(0, Filled(127), 100);
            && op.Valid() && CoversType(op) && !Covers(op) && EMPTY.Valid()
            && TotalVolume(Step(EMPTY, op, true).queues[0]) == MAXVOL + 1
  {
    hide Stored, Filled, Volume, TotalVolume;
    var op := Snd(0, Filled(127), 100);
    FilledVolume(127, 100);
    NothingStored();
    TotalVolumeSnoc([], Stored(op.msg, 100));
    assert Step(EMPTY, op, true).queues[0] == [] + [Stored(op.msg, 100)];
  }

  // ---------------------------------------------------------------- from sender to receiver

  /** The size ku_msgrcv computes from the caller's buffer after a successful receive, and what it returns (-1 for both
      failures). */
  function LibSize(user: Msgbuf): int { SIZEOF_LONG + StrLen(Text(user)) + 1 }
  function LibReturn(r: int, user: Msgbuf): int { if r == 0 then LibSize(user) else -1 }

  lemma StrLenIs(text: seq<byte>, n: nat)
    requires n < |text| && text[n] == 0 && forall i :: 0 <= i < n ==> text[i] != 0
    ensures StrLen(text) == n
  {}

  /** What a receive of `room` bytes gets of a message sent with size sz: as many of its bytes as both sizes cover; and
      if both cover the NUL, the whole text, for which the library returns sizeof(long) + strlen + 1. */
  ghost predicate Arrives(msg: Msgbuf, sz: nat, out: Msgbuf, room: nat)
    requires sz <= MSGBUF_SIZE && room <= MSGBUF_SIZE
  {
    var m, n := Min(sz, room), SIZEOF_LONG + StrLen(Text(msg)) + 1;
    out[..m] == msg[..m] && (n <= m ==> LibSize(out) == n)
  }

  lemma CopiedArrives(msg: Msgbuf, sz: nat, user: Msgbuf, room: nat)
    requires sz <= MSGBUF_SIZE && room <= MSGBUF_SIZE
    ensures Arrives(msg, sz, Overwrite(user, Stored(msg, sz), room), room)
  {
    var out, m, len := Overwrite(user, Stored(msg, sz), room), Min(sz, room), StrLen(Text(msg));
    assert forall i :: 0 <= i < m ==> out[i] == msg[i];
    if SIZEOF_LONG + len + 1 <= m {
      assert forall i :: 0 <= i <= len ==> Text(out)[i] == out[SIZEOF_LONG + i] && Text(msg)[i] == msg[SIZEOF_LONG + i];
      StrLenIs(Text(out), len);
    }
  }

  /** The first message of a type, wherever it is in the queue, is the head of the messages of that type. */
  lemma {:induction false} FirstIsHead(q: seq<Msgbuf>, typ: seq<byte>)
    ensures OfType(q, typ) == [] <==> FirstOf(q, typ) == |q|
    ensures FirstOf(q, typ) < |q| ==> OfType(q, typ)[0] == q[FirstOf(q, typ)]
  {
    if q != [] { FirstIsHead(q[1..], typ); }
  }

  lemma TakesHead(q: seq<Msgbuf>, typ: seq<byte>)
    requires FirstOf(q, typ) < |q|
    ensures OfType(q, typ) == [q[FirstOf(q, typ)]] + OfType(Without(q, FirstOf(q, typ)), typ)
  {
    OfTypeWithout(q, FirstOf(q, typ), typ);
  }

  /** Main result: a message sent with its NUL and received with room for it, wherever it waits in the queue and with
      any flags, comes back byte for byte with return value sizeof(long) + strlen + 1, and the next of its type is then
      first. */
  lemma RoundTrip(k: Kernel, key: int, typ: seq<byte>, msg: Msgbuf, sz: nat, user: Msgbuf, room: nat, flg: int)
    requires k.Valid() && IsKey(key) && sz <= MSGBUF_SIZE && room <= MSGBUF_SIZE
    requires var q := k.queues[key]; FirstOf(q, typ) < |q| && q[FirstOf(q, typ)] == Stored(msg, sz)
    requires SIZEOF_LONG + StrLen(Text(msg)) + 1 <= Min(sz, room)
    ensures var r, n := MsgRcv(k, key, user, room, typ, flg), SIZEOF_LONG + StrLen(Text(msg)) + 1;
            && r.0 == 0 && r.2[..n] == msg[..n] && LibReturn(r.0, r.2) == n
            && OfType(k.queues[key], typ) == [Stored(msg, sz)] + OfType(r.1.queues[key], typ)
  {
    hide Stored, OfType, Volume;
    StoredVolume(msg, sz);
    CopiedArrives(msg, sz, user, room);
    TakesHead(k.queues[key], typ);
    var r, n := MsgRcv(k, key, user, room, typ, flg), SIZEOF_LONG + StrLen(Text(msg)) + 1;
    assert r.2[..n] == r.2[..Min(sz, room)][..n] == msg[..Min(sz, room)][..n] == msg[..n];
  }

  /** A pending message stays the first of its type through every run that delivers none of its type. */
  lemma StaysFirst(k: Kernel, ops: seq<Op>, repaired: bool, key: int, typ: seq<byte>)
    requires k.Valid() && AllValid(ops) && IsKey(key) && FirstOf(k.queues[key], typ) < |k.queues[key]|
    requires Delivered(k, ops, repaired, key, typ) == []
    ensures var q, q' := k.queues[key], Exec(k, ops, repaired).queues[key];
            FirstOf(q', typ) < |q'| && q'[FirstOf(q', typ)] == q[FirstOf(q, typ)]
  {
    hide OfType, Exec, FirstOf;
    var q, q' := k.queues[key], Exec(k, ops, repaired).queues[key];
    TypedFifo(k, ops, repaired, key, typ);
    FirstIsHead(q, typ);
    FirstIsHead(q', typ);
    assert OfType(q', typ) == OfType(q, typ) + Accepted(k, ops, repaired, key, typ);
  }

  /** Main result: a message with no room. With KU_MSG_NOERROR the receiver gets the first bytes that were sent, its
      buffer keeps the rest, and the message is gone from its type. */
  lemma Truncated(k: Kernel, key: int, typ: seq<byte>, msg: Msgbuf, sz: nat, user: Msgbuf, room: nat, flg: int)
    requires k.Valid() && IsKey(key) && sz <= MSGBUF_SIZE && HasBit(flg, NOERROR)
    requires var q := k.queues[key]; FirstOf(q, typ) < |q| && q[FirstOf(q, typ)] == Stored(msg, sz)
    requires room < Need(msg, sz)
    ensures SIZEOF_LONG <= sz ==> room <= sz
    ensures var r, m := MsgRcv(k, key, user, room, typ, flg), Min(sz, room);
            && r.0 == 0 && r.2[..m] == msg[..m] && r.2[room..] == user[room..]
            && OfType(k.queues[key], typ) == [Stored(msg, sz)] + OfType(r.1.queues[key], typ)
  {
    hide Stored, OfType;
    StoredLength(msg, sz);
    CopiedArrives(msg, sz, user, room);
    TakesHead(k.queues[key], typ);
  }

  /** Main result: without KU_MSG_NOERROR the library returns -1, and the message loses nothing: after any run of any
      processes that delivers no other of its type, a receive with room gets it whole. */
  lemma RefusedThenReceived(k: Kernel, ops: seq<Op>, key: int, typ: seq<byte>, msg: Msgbuf, sz: nat,
                            user: Msgbuf, room: nat, flg: int, user': Msgbuf, room': nat, flg': int)
    requires k.Valid() && AllValid(ops) && IsKey(key) && sz <= MSGBUF_SIZE && room' <= MSGBUF_SIZE
             && !HasBit(flg, NOERROR)
    requires var q := k.queues[key]; FirstOf(q, typ) < |q| && q[FirstOf(q, typ)] == Stored(msg, sz)
    requires room < SIZEOF_LONG + StrLen(Text(msg)) + 1 <= Min(sz, room')
    requires Delivered(k, ops, false, key, typ) == []
    ensures var r, n := MsgRcv(k, key, user, room, typ, flg), SIZEOF_LONG + StrLen(Text(msg)) + 1;
            && LibReturn(r.0, r.2) == -1 && r.2 == user && r.1 == k
            && var r' := MsgRcv(Exec(r.1, ops, false), key, user', room', typ, flg');
               r'.2[..n] == msg[..n] && LibReturn(r'.0, r'.2) == n
  {
    hide Stored, OfType, Exec, Volume;
    StoredVolume(msg, sz);
    StaysFirst(k, ops, false, key, typ);
    RoundTrip(Exec(k, ops, false), key, typ, msg, sz, user', room', flg');
  }

  datatype Sent = Sent(msg: Msgbuf, sz: nat)

  /** What a successful receive was given, and what it left in its caller's buffer. */
  datatype Receipt = Receipt(user: Msgbuf, room: nat, out: Msgbuf)

  function SentBy(k: Kernel, op: Op, repaired: bool, key: int, typ: seq<byte>): (s: seq<Sent>)
    requires k.Valid() && op.Valid()
    ensures forall i :: 0 <= i < |s| ==> s[i].sz <= MSGBUF_SIZE
  {
    if Gives(k, op, repaired, key, typ) == [] then [] else [Sent(op.msg, op.sz)]
  }

  function ReceivedBy(k: Kernel, op: Op, key: int, typ: seq<byte>): (r: seq<Receipt>)
    requires k.Valid() && op.Valid() && IsKey(key)
    ensures forall i :: 0 <= i < |r| ==> r[i].room <= MSGBUF_SIZE
  {
    if Takes(k, op, key, typ) == [] then []
    else [Receipt(op.user, op.sz, MsgRcv(k, key, op.user, op.sz, typ, op.flg).2)]
  }

  /** The accepted sends of a run, and its successful receives. */
  function Sends(k: Kernel, ops: seq<Op>, repaired: bool, key: int, typ: seq<byte>): (s: seq<Sent>)
    requires k.Valid() && AllValid(ops)
    ensures forall i :: 0 <= i < |s| ==> s[i].sz <= MSGBUF_SIZE
    decreases |ops|
  {
    if ops == [] then []
    else SentBy(k, ops[0], repaired, key, typ) + Sends(Step(k, ops[0], repaired), ops[1..], repaired, key, typ)
  }

  function Receipts(k: Kernel, ops: seq<Op>, repaired: bool, key: int, typ: seq<byte>): (r: seq<Receipt>)
    requires k.Valid() && AllValid(ops) && IsKey(key)
    ensures forall i :: 0 <= i < |r| ==> r[i].room <= MSGBUF_SIZE
    decreases |ops|
  {
    if ops == [] then []
    else ReceivedBy(k, ops[0], key, typ) + Receipts(Step(k, ops[0], repaired), ops[1..], repaired, key, typ)
  }

  lemma {:induction false} AcceptedAreStored(k: Kernel, ops: seq<Op>, repaired: bool, key: int, typ: seq<byte>)
    requires k.Valid() && AllValid(ops)
    ensures var s, a := Sends(k, ops, repaired, key, typ), Accepted(k, ops, repaired, key, typ);
            |s| == |a| && forall i :: 0 <= i < |s| ==> a[i] == Stored(s[i].msg, s[i].sz)
    decreases |ops|
  {
    hide Step, Stored;
    if ops != [] { AcceptedAreStored(Step(k, ops[0], repaired), ops[1..], repaired, key, typ); }
  }

  lemma {:induction false} DeliveredAreCopied(k: Kernel, ops: seq<Op>, repaired: bool, key: int, typ: seq<byte>)
    requires k.Valid() && AllValid(ops) && IsKey(key)
    ensures var r, d := Receipts(k, ops, repaired, key, typ), Delivered(k, ops, repaired, key, typ);
            |r| == |d| && forall i :: 0 <= i < |r| ==> r[i].out == Overwrite(r[i].user, d[i], r[i].room)
    decreases |ops|
  {
    hide Step, Overwrite;
    if ops != [] { DeliveredAreCopied(Step(k, ops[0], repaired), ops[1..], repaired, key, typ); }
  }

  /** Main result, over every run of every process from a queue without this type: the i-th successful receive of the
      type gets the i-th accepted send of it, byte for byte as far as both sizes reach and with the library's size if
      they cover the NUL; and the sends not yet received are exactly what is pending. */
  lemma EndToEnd(k: Kernel, ops: seq<Op>, repaired: bool, key: int, typ: seq<byte>)
    requires k.Valid() && AllValid(ops) && IsKey(key) && OfType(k.queues[key], typ) == []
    ensures var s, r := Sends(k, ops, repaired, key, typ), Receipts(k, ops, repaired, key, typ);
            && |s| == |r| + |OfType(Exec(k, ops, repaired).queues[key], typ)|
            && forall i :: 0 <= i < |r| ==> Arrives(s[i].msg, s[i].sz, r[i].out, r[i].room)
  {
    hide OfType, Exec, Stored, Overwrite, Arrives;
    var s, r := Sends(k, ops, repaired, key, typ), Receipts(k, ops, repaired, key, typ);
    var d, pending := Delivered(k, ops, repaired, key, typ), OfType(Exec(k, ops, repaired).queues[key], typ);
    TypedFifo(k, ops, repaired, key, typ);
    AcceptedAreStored(k, ops, repaired, key, typ);
    DeliveredAreCopied(k, ops, repaired, key, typ);
    assert Accepted(k, ops, repaired, key, typ) == d + pending;
    forall i | 0 <= i < |r| ensures Arrives(s[i].msg, s[i].sz, r[i].out, r[i].room) {
      assert d[i] == (d + pending)[i] == Stored(s[i].msg, s[i].sz);
      CopiedArrives(s[i].msg, s[i].sz, r[i].user, r[i].room);
    }
  }

  // ---------------------------------------------------------------- the returned size

  /** The size the library returns is at most what was copied exactly when the message fitted: after a truncation it
      counts bytes the caller's buffer held before. */
  lemma ReturnedSize(user: Msgbuf, b: Msgbuf, sz: nat)
    requires SIZEOF_LONG <= sz <= MSGBUF_SIZE && Terminated(Text(b)) && Terminated(Text(Overwrite(user, b, sz)))
    ensures LibSize(Overwrite(user, b, sz)) <= sz <==> Volume(b) <= sz
    ensures Volume(b) <= sz ==> LibSize(Overwrite(user, b, sz)) == Volume(b)
  {
    var u, t, n := Text(Overwrite(user, b, sz)), Text(b), sz - SIZEOF_LONG;
    assert forall i :: 0 <= i < n ==> u[i] == t[i];
    if StrLen(t) < n { StrLenIs(u, StrLen(t)); }
  }

  lemma KeepsOldBytes()
    ensures LibSize(Overwrite(Filled(127), Filled(20), 10)) == MSGBUF_SIZE
    ensures TypeOf(Filled(20)) == Zeros(SIZEOF_LONG) && Stored(Filled(20), MSGBUF_SIZE) == Filled(20)
  {
    var out := Overwrite(Filled(127), Filled(20), 10);
    StrLenIs(Text(out), 127);
  }

  /** A send of 20 bytes of text, received with room for 2 into a buffer that held 127: ten bytes are copied, 136
      reported. */
  lemma SizeTooLarge()
    ensures var k := MsgSnd(EMPTY, 0, Filled(20), MSGBUF_SIZE, false);
            && EMPTY.Valid() && k.0 == 0
            && var r := MsgRcv(k.1, 0, Filled(127), 10, Zeros(SIZEOF_LONG), NOERROR);
               r.0 == 0 && LibReturn(r.0, r.2) == MSGBUF_SIZE > 10
  {
    hide Filled, Stored, Overwrite, TypeOf, LibSize, Zeros, TotalVolume;
    NothingStored();
    KeepsOldBytes();
    var k := MsgSnd(EMPTY, 0, Filled(20), MSGBUF_SIZE, false).1;
    assert k.queues[0] == [] + [Filled(20)];
    assert FirstOf(k.queues[0], Zeros(SIZEOF_LONG)) == 0;
  }

  /** The repair: look for the NUL in the copied bytes only, and report no more than those. */
  function LibSizeRepaired(user: Msgbuf, sz: nat): nat
    requires SIZEOF_LONG <= sz <= MSGBUF_SIZE
  {
    Min(sz, SIZEOF_LONG + StrLen(Text(user)[..sz - SIZEOF_LONG]) + 1)
  }

  /** Repaired, the size is that of the message or of the part that was copied, whatever the buffer held before. */
  lemma ReturnedSizeRepaired(user: Msgbuf, b: Msgbuf, sz: nat)
    requires SIZEOF_LONG <= sz <= MSGBUF_SIZE
    ensures LibSizeRepaired(Overwrite(user, b, sz), sz) == Min(sz, Volume(b))
  {
    var t, n := Text(b), sz - SIZEOF_LONG;
    assert Text(Overwrite(user, b, sz))[..n] == t[..n];
    if StrLen(t) < n {
      StrLenIs(t[..n], StrLen(t));
    }
  }
}

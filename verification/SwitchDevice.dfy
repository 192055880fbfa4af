/**
  switch.c in its own form: the global arrays and slots, changed in place by the interrupts, the tasklets and the
  ioctls. The ghost fields record the run that the calls make, so the theorems of SwitchRuns hold of what the code
  does; Log() is the record of that run so far.
 */
module SwitchDevice {
  import opened Runs
  import opened Switch
  import opened SwitchRuns

  /** When the last press was accepted. */
  function LastAccepted(w: World): nat { if w.accepted == [] then 0 else w.accepted[|w.accepted| - 1].timestamp }

  /** The entry that an open key gets next from a log of which it has got `got` since `base`, or -1. */
  function NextOf(inUse: bool, log: seq<Data>, base: nat, got: seq<Data>): int {
    if inUse && base + |got| < |log| then log[base + |got|].value else -1
  }

  lemma NextIsHead(inUse: bool, log: seq<Data>, base: nat, got: seq<Data>, q: seq<Data>)
    requires Matches(inUse, log, base, got, q)
    ensures NextOf(inUse, log, base, got) == if q == [] then -1 else q[0].value
  {
    if inUse {
      assert |log[base..]| == |got| + |q|;
      assert q != [] ==> log[base..][|got|] == (got + q)[|got|] == q[0];
    }
  }

  class Device {
    const inUse: array<bool>
    const sq: array<seq<Data>>
    const uq: array<seq<Data>>
    var pre: nat
    var echo: Echo
    var start: int
    var sdata: Data
    var spend: bool
    var udata: Data
    var upend: bool
    ghost var tr: seq<World>
    ghost var acts: seq<Action>

    ghost predicate Shape()
      reads this
    {
      inUse.Length == QUEUE_NUM && sq.Length == QUEUE_NUM && uq.Length == QUEUE_NUM && sq != uq
    }

    function Now(): Dev
      reads this, inUse, sq, uq
    {
      Dev(inUse[..], sq[..], uq[..], pre, echo, start, sdata, spend, udata, upend)
    }

    ghost predicate Recorded()
      reads this
    {
      |tr| == |acts| + 1 && Run(WorldStep, tr, acts) && tr[0] == Start()
    }

    ghost predicate Valid()
      reads this, inUse, sq, uq
    {
      Shape() && Recorded() && tr[|acts|].dev == Now() && Shaped(Log())
    }

    ghost function Log(): World
      reads this
      requires |tr| > 0
    {
      tr[|tr| - 1]
    }

    lemma Safe()
      requires Valid()
      ensures Inv(Log())
    {
      InvAlways(tr, acts, |acts|);
    }

    /** switch_init. */
    constructor ()
      ensures Valid() && Now() == INITIAL && Log() == Start() && fresh(inUse) && fresh(sq) && fresh(uq)
    {
      inUse := new bool[QUEUE_NUM](_ => false);
      sq := new seq<Data>[QUEUE_NUM](_ => []);
      uq := new seq<Data>[QUEUE_NUM](_ => []);
      pre, echo, start, sdata, spend, udata, upend := 0, Echo.Idle, 0, Data(0, 0), false, Data(0, 0), false;
      new;
      assert inUse[..] == INITIAL.inUse && sq[..] == INITIAL.sq && uq[..] == INITIAL.uq;
      tr, acts := [Start()], [];
    }

    /** Note one action in the run. */
    ghost method Record(a: Action, w: World)
      requires Shape() && Recorded() && Log() == w && Inv(w) && Now() == Step(w.dev, a)
      modifies this`tr, this`acts
      ensures Valid() && Inv(Log()) && Log() == WorldStep(w, a)
      ensures tr == old(tr) + [Log()] && acts == old(acts) + [a]
    {
      hide Step, Inv, WorldStep;
      Extends(WorldStep, tr, acts, a);
      StepOfWorld(w, a);
      tr, acts := tr + [WorldStep(w, a)], acts + [a];
      InvAlways(tr, acts, |acts|);
      InvIsShaped(Log());
    }

    lemma StepOfWorld(w: World, a: Action)
      requires Inv(w)
      ensures WorldStep(w, a).dev == Step(w.dev, a)
    {
      hide Step, FannedOut, Paired, Debounced;
    }

    /** The three switch interrupts. The press will be accepted by its tasklet if and only if no other is made before
        and it is more than GAP jiffies after the last accepted one. */
    method SwitchIsr(value: int, now: nat)
      requires Valid()
      modifies this
      ensures Valid() && tr == old(tr) + [Log()] && acts == old(acts) + [Press(value, now)]
      ensures Now().Accepts() <==> now > LastAccepted(Log()) + GAP
      ensures spend && sdata == Data(value, now) && Log().accepted == old(Log().accepted)
    {
      hide FannedOut, Paired;
      ghost var w := Log();
      Safe();
      sdata := Data(value, now);
      spend := true;
      Record(Press(value, now), w);
    }

    /** The loop over the queues that both tasklets have. */
    method Spread(qs: array<seq<Data>>, d: Data)
      requires Shape() && (qs == sq || qs == uq)
      modifies qs
      ensures qs[..] == FanOut(inUse[..], old(qs[..]), d)
    {
      for i := 0 to QUEUE_NUM
        invariant forall j :: 0 <= j < i ==> qs[j] == if inUse[j] then old(qs[..])[j] + [d] else old(qs[..])[j]
        invariant forall j :: i <= j < QUEUE_NUM ==> qs[j] == old(qs[..])[j]
      {
        if inUse[i] { qs[i] := qs[i] + [d]; }
      }
    }

    /** switch_tasklet_func, if it is scheduled. It accepts the latest press exactly if that is more than GAP jiffies
        after the last accepted one, and then it triggers a measurement exactly if none is under way. */
    method RunSwitchTasklet()
      requires Valid()
      modifies this, sq
      ensures Valid() && tr == old(tr) + [Log()] && acts == old(acts) + [SwitchTasklet] && !spend
      ensures var accepts := old(spend && sdata.timestamp > LastAccepted(Log()) + GAP);
              && Log().accepted == (if accepts then old(Log().accepted) + [old(sdata)] else old(Log().accepted))
              && (accepts && old(echo).Idle? <==> Triggers(tr, acts, |old(acts)|, old(|Log().accepted|)))
    {
      hide FannedOut, Paired;
      ghost var w := Log();
      Safe();
      if spend && sdata.timestamp > pre + GAP {
        Spread(sq, sdata);
        pre := sdata.timestamp;
        if echo.Idle? {
          start := 1;
          echo := Armed;
        }
      }
      spend := false;
      Record(SwitchTasklet, w);
    }

    /** ultrasonic_tasklet_func, if it is scheduled: it pushes the latest measurement. */
    method RunUltraTasklet()
      requires Valid()
      modifies this, uq
      ensures Valid() && tr == old(tr) + [Log()] && acts == old(acts) + [UltraTasklet] && !upend
      ensures old(upend) ==> old(Log().measured) != []
      ensures Log().pushed == if old(upend) then old(Log().pushed) + [old(Log().measured[|Log().measured| - 1].data)]
                              else old(Log().pushed)
    {
      hide FannedOut, Debounced;
      ghost var w := Log();
      Safe();
      if upend {
        upend := false;
        Spread(uq, udata);
      }
      Record(UltraTasklet, w);
    }

    /** Lines 243 and 244. */
    method Distance(ns: int) returns (cm: int)
      ensures cm == Centimetres(start, ns) && Measures(cm, start, ns)
    {
      if start <= ns { MeasuresEcho(start, ns); }
      var time := TruncDiv(ns - start, 1000);
      cm := TruncDiv(ToInt32(time), 58);
    }

    /** ultrasonic_isr, on an edge of the echo pin. A fall that ends a rise, and nothing else, makes a measurement: its
        press is the one whose trigger the rise answered, and its distance is for the time between the two edges. */
    method UltrasonicIsr(high: bool, ns: int, now: nat)
      requires Valid()
      modifies this
      ensures Valid() && tr == old(tr) + [Log()] && acts == old(acts) + [EchoIsr(high, ns, now)]
      ensures |Log().measured| == old(|Log().measured|) + Count(old(echo).Rising? && !high)
      ensures old(Log().measured) <= Log().measured
      ensures echo.Rising? <==> high && !old(echo).Idle?
      ensures old(echo).Armed? && high ==> start == ns
      ensures |Log().measured| > old(|Log().measured|) ==> Measures(udata.value, old(start), ns) && upend
      ensures forall i :: old(|Log().measured|) <= i < |Log().measured| ==>
                HasEcho(tr, acts, |acts|, Log().measured[i]) && Log().measured[i].data == udata
                    && udata.timestamp == now
    {
      hide FannedOut, Paired, Debounced, HasEcho, Centimetres, Measures;
      ghost var w := Log();
      Safe();
      if echo.Armed? {
        if high {
          start := ns;
          echo := Rising;
        }
      } else if echo.Rising? {
        if !high {
          var cm := Distance(ns);
          echo := Echo.Idle;
          udata := Data(cm, now);
          upend := true;
        }
      }
      Record(EchoIsr(high, ns, now), w);
      TracedAlways(tr, acts, |acts|);
    }

    /** A closed key is opened, once; it will get what is accepted and measured from now on. */
    method QueueGet(key: int) returns (ret: int)
      requires Valid() && IsKey(key)
      modifies this`tr, this`acts, inUse
      ensures Valid() && tr == old(tr) + [Log()] && acts == old(acts) + [Get(key)]
      ensures ret == if old(inUse[key]) then -1 else 1
      ensures ret == 1 ==> OpenSince(Log(), key, |Log().accepted|, |Log().pushed|)
                           && PressesOf(Log(), key) == DistancesOf(Log(), key) == []
    {
      ghost var w := Log();
      Safe();
      assert FannedOut(w, key);
      hide FannedOut, Paired, Debounced;
      if inUse[key] {
        ret := -1;
      } else {
        inUse[key] := true;
        ret := 1;
      }
      Record(Get(key), w);
    }

    /** Deletes both queues node by node. */
    method DeleteQueues(key: int)
      requires Shape() && IsKey(key)
      modifies sq, uq
      ensures sq[..] == old(sq[..])[key := []] && uq[..] == old(uq[..])[key := []]
    {
      while sq[key] != []
        invariant forall j :: 0 <= j < QUEUE_NUM && j != key ==> sq[j] == old(sq[..])[j]
        invariant uq[..] == old(uq[..])
        decreases |sq[key]|
      {
        sq[key] := sq[key][1..];
      }
      assert sq[..] == old(sq[..])[key := []];
      while uq[key] != []
        invariant sq[..] == old(sq[..])[key := []]
        invariant forall j :: 0 <= j < QUEUE_NUM && j != key ==> uq[j] == old(uq[..])[j]
        decreases |uq[key]|
      {
        uq[key] := uq[key][1..];
      }
    }

    method QueueClose(key: int) returns (ret: int)
      requires Valid() && IsKey(key)
      modifies this`tr, this`acts, inUse, sq, uq
      ensures Valid() && tr == old(tr) + [Log()] && acts == old(acts) + [Close(key)]
      ensures ret == (if old(inUse[key]) then 1 else -1) && !inUse[key] && sq[key] == uq[key] == []
    {
      ghost var w := Log();
      Safe();
      assert FannedOut(w, key);
      hide FannedOut, Paired, Debounced;
      if !inUse[key] {
        ret := -1;
      } else {
        DeleteQueues(key);
        inUse[key] := false;
        ret := 1;
      }
      Record(Close(key), w);
    }

    /** An open key gets the accepted presses since it was opened, one by one and in order, and -1 when it has got them
        all; a closed one gets -1. */
    method SwitchRecv(key: int) returns (ret: int)
      requires Valid() && IsKey(key)
      modifies this`tr, this`acts, sq
      ensures Valid() && tr == old(tr) + [Log()] && acts == old(acts) + [Recv(key)]
      ensures ret == NextOf(old(inUse[key]), Log().accepted, Log().base[key], old(Log().got[key]))
      ensures PressesOf(Log(), key) == old(PressesOf(Log(), key))
    {
      ghost var w := Log();
      Safe();
      assert FannedOut(w, key);
      NextIsHead(inUse[key], w.accepted, w.base[key], w.got[key], sq[key]);
      hide FannedOut, Paired, Debounced, NextOf, Matches;
      if sq[key] == [] {
        ret := -1;
      } else {
        ret := sq[key][0].value;
        sq[key] := sq[key][1..];
      }
      Record(Recv(key), w);
    }

    /** The same for the distances. */
    method UltrasonicRecv(key: int) returns (ret: int)
      requires Valid() && IsKey(key)
      modifies this`tr, this`acts, uq
      ensures Valid() && tr == old(tr) + [Log()] && acts == old(acts) + [UltraRecv(key)]
      ensures ret == NextOf(old(inUse[key]), Log().pushed, Log().ubase[key], old(Log().ugot[key]))
      ensures DistancesOf(Log(), key) == old(DistancesOf(Log(), key))
    {
      ghost var w := Log();
      Safe();
      assert FannedOut(w, key);
      NextIsHead(inUse[key], w.pushed, w.ubase[key], w.ugot[key], uq[key]);
      hide FannedOut, Paired, Debounced, NextOf, Matches;
      if uq[key] == [] {
        ret := -1;
      } else {
        ret := uq[key][0].value;
        uq[key] := uq[key][1..];
      }
      Record(UltraRecv(key), w);
    }
  }
}

/**
  Runs of the switch driver. Beside the driver's state a World keeps a record of what has happened so far, which no step
  of the driver looks at: the accepted presses, the measurements and which press triggered each, the distances pushed
  and which measurement each was, and per key where it was opened and what has been taken from its queues since.
 */
module SwitchRuns {
  import opened Runs
  import opened Switch

  /** A completed echo: which accepted press's trigger pulse it answers, and what the interrupt stored. */
  datatype Measurement = Measurement(press: nat, data: Data)

  datatype World = World(dev: Dev, accepted: seq<Data>, pushed: seq<Data>,
                         base: seq<nat>, ubase: seq<nat>, got: seq<seq<Data>>, ugot: seq<seq<Data>>,
                         trigger: nat, measured: seq<Measurement>, source: seq<nat>, skipped: nat, overwritten: nat)

  ghost predicate Shaped(w: World) {
    w.dev.Valid() && |w.base| == |w.ubase| == |w.got| == |w.ugot| == QUEUE_NUM
  }

  function Start(): World {
    World(INITIAL, [], [], seq(QUEUE_NUM, _ => 0), seq(QUEUE_NUM, _ => 0),
          seq(QUEUE_NUM, _ => []), seq(QUEUE_NUM, _ => []),
          0, [], [], 0, 0)
  }

  function WorldStep(w: World, a: Action): World {
    if !(w.dev.Valid() && |w.base| == |w.ubase| == |w.got| == |w.ugot| == QUEUE_NUM) then w else
    Noted(w.(dev := Step(w.dev, a)), w.dev, a)
  }

  /** The record of one action; s is the driver before it. */
  function Noted(w: World, s: Dev, a: Action): World
    requires s.Valid() && |w.base| == |w.ubase| == |w.got| == |w.ugot| == QUEUE_NUM
  {
    match a
    case SwitchTasklet =>
      if !s.Accepts() then w
      else if s.echo.Idle? then w.(accepted := w.accepted + [s.sdata], trigger := |w.accepted|)
      else w.(accepted := w.accepted + [s.sdata], skipped := w.skipped + 1)
    case EchoIsr(high, ns, now) =>
      if s.echo.Rising? && !high
      then w.(measured := w.measured + [Measurement(w.trigger, w.dev.udata)],
              overwritten := w.overwritten + if s.upend then 1 else 0)
      else w
    case UltraTasklet =>
      if s.upend && w.measured != []
      then w.(pushed := w.pushed + [s.udata], source := w.source + [|w.measured| - 1])
      else w
    case Get(key) =>
      if !IsKey(key) || s.inUse[key] then w
      else w.(base := w.base[key := |w.accepted|], ubase := w.ubase[key := |w.pushed|],
              got := w.got[key := []], ugot := w.ugot[key := []])
    case Recv(key) =>
      if !IsKey(key) || s.sq[key] == [] then w else w.(got := w.got[key := w.got[key] + [s.sq[key][0]]])
    case UltraRecv(key) =>
      if !IsKey(key) || s.uq[key] == [] then w else w.(ugot := w.ugot[key := w.ugot[key] + [s.uq[key][0]]])
    case _ => w
  }

  // ---------------------------------------------------------------- fan-out

  /** What has been taken from a queue and what is pending in it is the log since it was opened; a closed queue is
      empty. */
  ghost predicate Matches(inUse: bool, log: seq<Data>, base: nat, got: seq<Data>, q: seq<Data>) {
    if inUse then base <= |log| && log[base..] == got + q else q == []
  }

  ghost predicate FannedOut(w: World, key: int)
    requires Shaped(w) && IsKey(key)
  {
    && Matches(w.dev.inUse[key], w.accepted, w.base[key], w.got[key], w.dev.sq[key])
    && Matches(w.dev.inUse[key], w.pushed, w.ubase[key], w.ugot[key], w.dev.uq[key])
  }

  lemma LogGrows(inUse: bool, log: seq<Data>, base: nat, got: seq<Data>, q: seq<Data>, d: Data)
    requires Matches(inUse, log, base, got, q)
    ensures Matches(inUse, log + [d], base, got, if inUse then q + [d] else q)
  {
    if inUse {
      assert (log + [d])[base..] == log[base..] + [d];
      assert got + (q + [d]) == (got + q) + [d];
    }
  }

  lemma HeadTaken(inUse: bool, log: seq<Data>, base: nat, got: seq<Data>, q: seq<Data>)
    requires Matches(inUse, log, base, got, q) && q != []
    ensures Matches(inUse, log, base, got + [q[0]], q[1..])
  {
    assert got + q == (got + [q[0]]) + q[1..];
  }

  lemma Opened(log: seq<Data>)
    ensures Matches(true, log, |log|, [], [])
  {}

  lemma StepMatchesPresses(w: World, a: Action, key: int)
    requires Shaped(w) && IsKey(key) && FannedOut(w, key)
    ensures var w' := WorldStep(w, a);
            Shaped(w') && Matches(w'.dev.inUse[key], w'.accepted, w'.base[key], w'.got[key], w'.dev.sq[key])
  {
    var s := w.dev;
    if a == Get(key) && !s.inUse[key] { Opened(w.accepted); }
    if a.SwitchTasklet? && s.Accepts() {
      LogGrows(s.inUse[key], w.accepted, w.base[key], w.got[key], s.sq[key], s.sdata);
    }
    if a == Recv(key) && s.sq[key] != [] { HeadTaken(s.inUse[key], w.accepted, w.base[key], w.got[key], s.sq[key]); }
    hide Matches;
  }

  lemma StepMatchesDistances(w: World, a: Action, key: int)
    requires Shaped(w) && IsKey(key) && FannedOut(w, key) && (w.dev.upend ==> w.measured != [])
    ensures var w' := WorldStep(w, a);
            Shaped(w') && Matches(w'.dev.inUse[key], w'.pushed, w'.ubase[key], w'.ugot[key], w'.dev.uq[key])
  {
    var s := w.dev;
    if a == Get(key) && !s.inUse[key] { Opened(w.pushed); }
    if a.UltraTasklet? && s.upend { LogGrows(s.inUse[key], w.pushed, w.ubase[key], w.ugot[key], s.uq[key], s.udata); }
    if a == UltraRecv(key) && s.uq[key] != [] {
      HeadTaken(s.inUse[key], w.pushed, w.ubase[key], w.ugot[key], s.uq[key]);
    }
    hide Matches;
  }

  lemma StepFansOut(w: World, a: Action, key: int)
    requires Shaped(w) && IsKey(key) && FannedOut(w, key) && (w.dev.upend ==> w.measured != [])
    ensures Shaped(WorldStep(w, a)) && FannedOut(WorldStep(w, a), key)
  {
    hide WorldStep, Matches;
    StepMatchesPresses(w, a, key);
    StepMatchesDistances(w, a, key);
  }

  // ---------------------------------------------------------------- debounce

  ghost predicate Debounced(w: World) {
    && (forall i :: 0 <= i < |w.accepted| - 1 ==> w.accepted[i].timestamp + GAP < w.accepted[i + 1].timestamp)
    && w.dev.pre == if w.accepted == [] then 0 else w.accepted[|w.accepted| - 1].timestamp
  }

  // ---------------------------------------------------------------- echoes

  ghost predicate Increasing(ns: seq<nat>) { forall i, j :: 0 <= i < j < |ns| ==> ns[i] < ns[j] }

  function Presses(ms: seq<Measurement>): seq<nat> { seq(|ms|, i requires 0 <= i < |ms| => ms[i].press) }

  function Count(b: bool): nat { if b then 1 else 0 }

  /** Each distance pushed is one measurement, each measurement answers one trigger, each trigger is one accepted press,
      always in order; and every press is accounted for. */
  ghost predicate Paired(w: World) {
    && Increasing(Presses(w.measured))
    && (forall i :: 0 <= i < |w.measured| ==> w.measured[i].press < |w.accepted|)
    && (!w.dev.echo.Idle? ==>
          w.trigger < |w.accepted| && forall i :: 0 <= i < |w.measured| ==> w.measured[i].press < w.trigger)
    && |w.source| == |w.pushed| && Increasing(w.source)
    && (forall i :: 0 <= i < |w.source| ==> w.source[i] < |w.measured| && w.pushed[i] == w.measured[w.source[i]].data)
    && (w.dev.upend ==> w.measured != [] && w.dev.udata == w.measured[|w.measured| - 1].data
                        && forall i :: 0 <= i < |w.source| ==> w.source[i] < |w.measured| - 1)
    && |w.accepted| == |w.measured| + w.skipped + Count(!w.dev.echo.Idle?)
    && |w.measured| == |w.pushed| + w.overwritten + Count(w.dev.upend)
  }

  lemma StepDebounces(w: World, a: Action)
    requires Shaped(w) && Debounced(w)
    ensures Debounced(WorldStep(w, a))
  {}

  lemma StepPairs(w: World, a: Action)
    requires Shaped(w) && Paired(w)
    ensures Paired(WorldStep(w, a))
  {
    match a
    case SwitchTasklet => TriggerPairs(w);
    case EchoIsr(_, _, _) => EchoPairs(w, a);
    case UltraTasklet => PushPairs(w);
    case _ => hide Paired;
      OtherPairs(w, a);
  }

  lemma TriggerPairs(w: World)
    requires Shaped(w) && Paired(w)
    ensures Paired(WorldStep(w, SwitchTasklet))
  {
    assert WorldStep(w, SwitchTasklet).measured == w.measured;
  }

  lemma EchoPairs(w: World, a: Action)
    requires Shaped(w) && Paired(w) && a.EchoIsr?
    ensures Paired(WorldStep(w, a))
  {
    hide Centimetres;
    var w' := WorldStep(w, a);
    if w.dev.echo.Rising? && !a.high {
      assert Presses(w'.measured) == Presses(w.measured) + [w.trigger];
    }
  }

  lemma PushPairs(w: World)
    requires Shaped(w) && Paired(w)
    ensures Paired(WorldStep(w, UltraTasklet))
  {
    hide FanOut;
  }

  lemma OtherPairs(w: World, a: Action)
    requires Shaped(w) && Paired(w) && !a.SwitchTasklet? && !a.EchoIsr? && !a.UltraTasklet?
    ensures Paired(WorldStep(w, a))
  {
    var w' := WorldStep(w, a);
    assert w'.measured == w.measured && w'.source == w.source && w'.pushed == w.pushed && w'.accepted == w.accepted;
  }

  ghost predicate Inv(w: World) {
    Shaped(w) && Debounced(w) && Paired(w) && forall key :: IsKey(key) ==> FannedOut(w, key)
  }

  lemma StepKeepsInv(w: World, a: Action)
    requires Inv(w)
    ensures Inv(WorldStep(w, a))
  {
    hide WorldStep, FannedOut, Debounced;
    StepDebounces(w, a);
    StepPairs(w, a);
    forall key | IsKey(key) ensures Shaped(WorldStep(w, a)) && FannedOut(WorldStep(w, a), key) {
      StepFansOut(w, a, key);
    }
    assert IsKey(0);
  }

  lemma InvAlways(tr: seq<World>, acts: seq<Action>, k: nat)
    requires Run(WorldStep, tr, acts) && tr[0] == Start() && k <= |acts|
    ensures Inv(tr[k])
  {
    forall key | IsKey(key) ensures FannedOut(Start(), key) {}
    assert Inv(Start());
    hide WorldStep, Inv;
    forall w, a | Inv(w) ensures Inv(WorldStep(w, a)) { StepKeepsInv(w, a); }
    Always(WorldStep, Inv, tr, acts, k);
  }

  /** Main result, for every run: an open key has received, and has pending, exactly the presses accepted since it was
      opened, in order, and likewise the distances; a closed key has two empty queues. */
  lemma FanOutRefined(tr: seq<World>, acts: seq<Action>, k: nat, key: int)
    requires Run(WorldStep, tr, acts) && tr[0] == Start() && k <= |acts| && IsKey(key)
    ensures Shaped(tr[k]) && FannedOut(tr[k], key)
  {
    InvAlways(tr, acts, k);
  }

  /** Main result: accepted presses are more than GAP jiffies apart, all of them and not only neighbours. */
  lemma AcceptedApart(tr: seq<World>, acts: seq<Action>, k: nat, i: nat, j: nat)
    requires Run(WorldStep, tr, acts) && tr[0] == Start() && k <= |acts| && i < j < |tr[k].accepted|
    ensures tr[k].accepted[i].timestamp + GAP * (j - i) < tr[k].accepted[j].timestamp
    decreases j
  {
    InvAlways(tr, acts, k);
    if i < j - 1 { AcceptedApart(tr, acts, k, i, j - 1); }
    assert tr[k].accepted[j - 1].timestamp + GAP < tr[k].accepted[j - 1 + 1].timestamp;
  }

  // ---------------------------------------------------------------- trigger, rise, fall

  /** Step t of the run accepts press number `press` and sends the trigger pulse. */
  ghost predicate Triggers(tr: seq<World>, acts: seq<Action>, t: nat, press: nat) {
    && t < |acts| == |tr| - 1 && acts[t].SwitchTasklet? && tr[t].dev.Accepts() && tr[t].dev.echo.Idle?
    && |tr[t].accepted| == press
  }

  /** From after step i up to state j the sensor is in this phase. */
  ghost predicate Throughout(tr: seq<World>, i: nat, j: nat, echo: Echo) {
    i < j < |tr| && forall k :: i < k <= j ==> tr[k].dev.echo == echo
  }

  /** For a clock that does not go back, and an echo that is not too long for an int, v is the distance in centimetres.
      */
  ghost predicate Measures(v: int, rise: int, fall: int) {
    0 <= fall - rise < 1000 * (INT_MAX + 1) ==> InCentimetres(v, fall - rise)
  }

  /** The echo that measured m: step t triggers, step r is the rise that answers it, step f the fall that follows,
      nothing else happens to the sensor in between, and the data is the distance for the time from this rise to this
      fall. */
  ghost predicate EchoOf(tr: seq<World>, acts: seq<Action>, m: Measurement, t: nat, r: nat, f: nat) {
    && Triggers(tr, acts, t, m.press)
    && t < r < f < |acts| == |tr| - 1
    && acts[r].EchoIsr? && acts[r].high && Throughout(tr, t, r, Armed)
    && acts[f].EchoIsr? && !acts[f].high && Throughout(tr, r, f, Rising)
    && m.data == Data(Centimetres(acts[r].ns, acts[f].ns), acts[f].now)
    && Measures(m.data.value, acts[r].ns, acts[f].ns)
  }

  /** m was measured by an echo within the first k steps. */
  ghost predicate HasEcho(tr: seq<World>, acts: seq<Action>, k: nat, m: Measurement) {
    exists t: nat, r: nat, f: nat :: f < k && EchoOf(tr, acts, m, t, r, f)
  }

  ghost predicate ArmedSince(tr: seq<World>, acts: seq<Action>, k: nat, t: nat) {
    k < |tr| && Triggers(tr, acts, t, tr[k].trigger) && Throughout(tr, t, k, Armed)
  }

  ghost predicate RisingSince(tr: seq<World>, acts: seq<Action>, k: nat, t: nat, r: nat) {
    && k < |tr| == |acts| + 1 && Triggers(tr, acts, t, tr[k].trigger) && t < r < k
    && acts[r].EchoIsr? && acts[r].high && Throughout(tr, t, r, Armed)
    && Throughout(tr, r, k, Rising) && tr[k].dev.start == acts[r].ns
  }

  /** What the sensor is doing in state k, and all it has measured, in terms of the steps so far. */
  ghost predicate Traced(tr: seq<World>, acts: seq<Action>, k: nat)
    requires k < |tr|
  {
    && (forall i :: 0 <= i < |tr[k].measured| ==> HasEcho(tr, acts, k, tr[k].measured[i]))
    && SensorTracedAt(tr, acts, k)
  }

  ghost predicate SensorTracedAt(tr: seq<World>, acts: seq<Action>, k: nat)
    requires k < |tr|
  {
    && (tr[k].dev.echo.Armed? ==> exists t: nat :: ArmedSince(tr, acts, k, t))
    && (tr[k].dev.echo.Rising? ==> exists t: nat, r: nat :: RisingSince(tr, acts, k, t, r))
  }

  /** The sensor's part of one step. */
  lemma SensorStep(w: World, a: Action)
    requires Shaped(w)
    ensures var w', triggered := WorldStep(w, a), a.SwitchTasklet? && w.dev.Accepts() && w.dev.echo.Idle?;
            var fell := a.EchoIsr? && w.dev.echo.Rising? && !a.high;
            var rose := a.EchoIsr? && w.dev.echo.Armed? && a.high;
            && w'.dev.echo == (if triggered then Armed else if rose then Rising
                               else if fell then Echo.Idle else w.dev.echo)
            && w'.trigger == (if triggered then |w.accepted| else w.trigger)
            && (rose ==> w'.dev.start == a.ns) && (!rose && !triggered ==> w'.dev.start == w.dev.start)
            && w'.measured ==
                 if fell then w.measured + [Measurement(w.trigger, Data(Centimetres(w.dev.start, a.ns), a.now))]
                 else w.measured
  {
    hide FanOut, Centimetres;
  }

  lemma EchoStays(tr: seq<World>, acts: seq<Action>, k: nat, m: Measurement)
    requires HasEcho(tr, acts, k, m)
    ensures HasEcho(tr, acts, k + 1, m)
  {
    var t: nat, r: nat, f: nat :| f < k && EchoOf(tr, acts, m, t, r, f);
    assert EchoOf(tr, acts, m, t, r, f);
  }

  lemma SensorTraced(tr: seq<World>, acts: seq<Action>, k: nat)
    requires Run(WorldStep, tr, acts) && k < |acts| && Shaped(tr[k]) && Traced(tr, acts, k)
    ensures SensorTracedAt(tr, acts, k + 1)
  {
    hide WorldStep, HasEcho;
    assert Follows(WorldStep, tr, acts, k);
    var w, w', a := tr[k], tr[k + 1], acts[k];
    SensorStep(w, a);
    if w'.dev.echo.Armed? {
      if w.dev.echo.Armed? {
        var t: nat :| ArmedSince(tr, acts, k, t);
        assert ArmedSince(tr, acts, k + 1, t);
      } else {
        assert ArmedSince(tr, acts, k + 1, k);
      }
    } else if w'.dev.echo.Rising? {
      if w.dev.echo.Rising? {
        var t: nat, r: nat :| RisingSince(tr, acts, k, t, r);
        assert RisingSince(tr, acts, k + 1, t, r);
      } else {
        var t: nat :| ArmedSince(tr, acts, k, t);
        assert RisingSince(tr, acts, k + 1, t, k);
      }
    }
  }

  lemma MeasuredTraced(tr: seq<World>, acts: seq<Action>, k: nat, i: nat)
    requires Run(WorldStep, tr, acts) && k < |acts| && Shaped(tr[k]) && Traced(tr, acts, k) && i < |tr[k + 1].measured|
    ensures HasEcho(tr, acts, k + 1, tr[k + 1].measured[i])
  {
    hide WorldStep, Centimetres, Triggers, Throughout;
    assert Follows(WorldStep, tr, acts, k);
    SensorStep(tr[k], acts[k]);
    if i < |tr[k].measured| {
      EchoStays(tr, acts, k, tr[k].measured[i]);
    } else {
      var t: nat, r: nat :| RisingSince(tr, acts, k, t, r);
      if acts[r].ns <= acts[k].ns { MeasuresEcho(acts[r].ns, acts[k].ns); }
      assert EchoOf(tr, acts, tr[k + 1].measured[i], t, r, k);
    }
  }

  lemma {:induction false} TracedAlways(tr: seq<World>, acts: seq<Action>, k: nat)
    requires Run(WorldStep, tr, acts) && tr[0] == Start() && k <= |acts|
    ensures Traced(tr, acts, k)
  {
    hide WorldStep, Inv, HasEcho, ArmedSince, RisingSince;
    if k > 0 {
      TracedAlways(tr, acts, k - 1);
      InvAlways(tr, acts, k - 1);
      assert Shaped(tr[k - 1]) by { InvIsShaped(tr[k - 1]); }
      SensorTraced(tr, acts, k - 1);
      forall i | 0 <= i < |tr[k].measured| ensures HasEcho(tr, acts, k, tr[k].measured[i]) {
        MeasuredTraced(tr, acts, k - 1, i);
      }
    }
  }

  lemma InvIsShaped(w: World)
    requires Inv(w)
    ensures Shaped(w)
  {}

  /** The logs only grow: in later states press number i is still the same press. */
  lemma {:induction false} LogGrowsOnly(tr: seq<World>, acts: seq<Action>, i: nat, j: nat)
    requires Run(WorldStep, tr, acts) && i <= j <= |acts|
    ensures tr[i].accepted <= tr[j].accepted
  {
    if i < j {
      LogGrowsOnly(tr, acts, i, j - 1);
      assert Follows(WorldStep, tr, acts, j - 1);
      AcceptedStep(tr[j - 1], acts[j - 1]);
    }
  }

  lemma AcceptedStep(w: World, a: Action)
    ensures w.accepted <= WorldStep(w, a).accepted
    ensures Shaped(w) && a.SwitchTasklet? && w.dev.Accepts() ==> WorldStep(w, a).accepted == w.accepted + [w.dev.sdata]
  {
    hide FanOut, Centimetres;
  }

  /** Main result: every measurement of every run comes from one trigger by an accepted press, then a rise, then a fall,
      and its data is the distance for the time between those two edges. */
  lemma EveryMeasurementHasItsEcho(tr: seq<World>, acts: seq<Action>, k: nat, i: nat)
    requires Run(WorldStep, tr, acts) && tr[0] == Start() && k <= |acts| && i < |tr[k].measured|
    ensures HasEcho(tr, acts, k, tr[k].measured[i])
    ensures forall t: nat, r: nat, f: nat :: f < k && EchoOf(tr, acts, tr[k].measured[i], t, r, f) ==>
              var p := tr[k].measured[i].press; p < |tr[k].accepted| && tr[k].accepted[p] == tr[t].dev.sdata
  {
    TracedAlways(tr, acts, k);
    var m := tr[k].measured[i];
    forall t: nat, r: nat, f: nat | f < k && EchoOf(tr, acts, m, t, r, f)
      ensures m.press < |tr[k].accepted| && tr[k].accepted[m.press] == tr[t].dev.sdata
    {
      TriggeringPress(tr, acts, k, t, m.press);
    }
  }

  lemma TriggeringPress(tr: seq<World>, acts: seq<Action>, k: nat, t: nat, press: nat)
    requires Run(WorldStep, tr, acts) && tr[0] == Start() && t < k <= |acts| && Triggers(tr, acts, t, press)
    ensures press < |tr[k].accepted| && tr[k].accepted[press] == tr[t].dev.sdata
  {
    hide WorldStep, Inv;
    InvAlways(tr, acts, t);
    assert Shaped(tr[t]) by { InvIsShaped(tr[t]); }
    assert Follows(WorldStep, tr, acts, t);
    AcceptedStep(tr[t], acts[t]);
    LogGrowsOnly(tr, acts, t + 1, k);
  }

  /** Main result: every distance pushed is the measurement of its own echo, triggered by its own accepted press, in
      order, so there are never more distances than presses; and the presses without one are exactly those accepted
      during an echo, those whose measurement was overwritten before its tasklet ran, and the one or two still on their
      way. */
  lemma DistancesAccountedFor(tr: seq<World>, acts: seq<Action>, k: nat)
    requires Run(WorldStep, tr, acts) && tr[0] == Start() && k <= |acts|
    ensures var w := tr[k];
            && |w.source| == |w.pushed| && Increasing(w.source) && Increasing(Presses(w.measured))
            && (forall i :: 0 <= i < |w.pushed| ==>
                  w.source[i] < |w.measured| && w.pushed[i] == w.measured[w.source[i]].data)
            && (forall i :: 0 <= i < |w.measured| ==>
                  w.measured[i].press < |w.accepted| && HasEcho(tr, acts, k, w.measured[i]))
            && |w.accepted| - |w.pushed| == w.skipped + w.overwritten + Count(!w.dev.echo.Idle?) + Count(w.dev.upend)
  {
    hide HasEcho;
    InvAlways(tr, acts, k);
    TracedAlways(tr, acts, k);
  }

  lemma {:induction false} IncreasingIsIdentity(ns: seq<nat>, i: nat)
    requires Increasing(ns) && (forall j :: 0 <= j < |ns| ==> ns[j] < |ns|) && i < |ns|
    ensures ns[i] == i
  {
    AtLeastIndex(ns, i);
    AtMostFromEnd(ns, i);
  }

  lemma {:induction false} AtLeastIndex(ns: seq<nat>, i: nat)
    requires Increasing(ns) && i < |ns|
    ensures ns[i] >= i
  {
    if i > 0 { AtLeastIndex(ns, i - 1); }
  }

  lemma {:induction false} AtMostFromEnd(ns: seq<nat>, i: nat)
    requires Increasing(ns) && (forall j :: 0 <= j < |ns| ==> ns[j] < |ns|) && i < |ns|
    ensures ns[i] <= i
    decreases |ns| - i
  {
    if i + 1 < |ns| { AtMostFromEnd(ns, i + 1); }
  }

  /** No press was accepted during an echo and no measurement was overwritten. */
  predicate Undisturbed(w: World) { w.skipped == 0 && w.overwritten == 0 }

  lemma PairedInOrder(w: World, i: nat)
    requires Inv(w) && Undisturbed(w) && i < |w.pushed|
    ensures i < |w.measured| && w.measured[i] == Measurement(i, w.pushed[i])
  {
    var presses := Presses(w.measured);
    if w.dev.echo.Idle? {
      IncreasingIsIdentity(presses, i);
    } else {
      var all := presses + [w.trigger];
      assert Increasing(all) && all[i] == presses[i];
      IncreasingIsIdentity(all, i);
    }
    if w.dev.upend {
      var all := w.source + [|w.measured| - 1];
      assert Increasing(all) && all[i] == w.source[i];
      IncreasingIsIdentity(all, i);
    } else {
      IncreasingIsIdentity(w.source, i);
    }
  }

  /** Main result: undisturbed, the i-th distance is what the echo triggered by the i-th accepted press measured. */
  lemma PairedByIndex(tr: seq<World>, acts: seq<Action>, k: nat, i: nat)
    requires Run(WorldStep, tr, acts) && tr[0] == Start() && k <= |acts| && Undisturbed(tr[k]) && i < |tr[k].pushed|
    ensures HasEcho(tr, acts, k, Measurement(i, tr[k].pushed[i]))
  {
    InvAlways(tr, acts, k);
    PairedInOrder(tr[k], i);
    EveryMeasurementHasItsEcho(tr, acts, k, i);
  }

  /** An accepted press finds the sensor idle and the last distance delivered. */
  predicate Serial(w: World, a: Action) { a.SwitchTasklet? && w.dev.Accepts() ==> w.dev.echo.Idle? && !w.dev.upend }

  ghost predicate SerialRun(tr: seq<World>, acts: seq<Action>) {
    |tr| == |acts| + 1 && forall k :: 0 <= k < |acts| ==> Serial(tr[k], acts[k])
  }

  lemma {:induction false} SerialIsUndisturbed(tr: seq<World>, acts: seq<Action>, k: nat)
    requires Run(WorldStep, tr, acts) && tr[0] == Start() && SerialRun(tr, acts) && k <= |acts|
    ensures Undisturbed(tr[k]) && (tr[k].dev.upend ==> tr[k].dev.echo.Idle?)
  {
    if k > 0 {
      SerialIsUndisturbed(tr, acts, k - 1);
      assert Follows(WorldStep, tr, acts, k - 1) && Serial(tr[k - 1], acts[k - 1]);
    }
  }

  /** How many presses are without their distance in a serial run: the one being measured, if any. */
  function Underway(w: World): nat { Count(!w.dev.echo.Idle?) + Count(w.dev.upend) }

  /** The key is opened by step o and not closed again before state k. */
  ghost predicate OpenedAt(tr: seq<World>, acts: seq<Action>, o: nat, k: nat, key: int) {
    && o < k <= |acts| == |tr| - 1 && IsKey(key) && Shaped(tr[o])
    && acts[o] == Get(key) && !tr[o].dev.inUse[key]
    && forall j :: o < j < k ==> acts[j] != Close(key)
  }

  /** The key is open, and its log starts where the two logs ended when it was opened. */
  ghost predicate OpenSince(w: World, key: int, accepted: nat, pushed: nat) {
    Shaped(w) && IsKey(key) && w.dev.inUse[key] && w.base[key] == accepted && w.ubase[key] == pushed
  }

  lemma OpenStays(w: World, a: Action, key: int, accepted: nat, pushed: nat)
    requires Inv(w) && OpenSince(w, key, accepted, pushed) && a != Close(key)
    ensures OpenSince(WorldStep(w, a), key, accepted, pushed)
  {
    hide FanOut, Centimetres;
  }

  lemma OpensHere(w: World, key: int)
    requires Inv(w) && IsKey(key) && !w.dev.inUse[key]
    ensures OpenSince(WorldStep(w, Get(key)), key, |w.accepted|, |w.pushed|)
  {}

  lemma {:induction false} OpenSinceOpening(tr: seq<World>, acts: seq<Action>, o: nat, k: nat, key: int)
    requires Run(WorldStep, tr, acts) && tr[0] == Start() && OpenedAt(tr, acts, o, k, key)
    ensures OpenSince(tr[k], key, |tr[o].accepted|, |tr[o].pushed|)
  {
    hide WorldStep, Inv, OpenSince;
    InvAlways(tr, acts, k - 1);
    assert Follows(WorldStep, tr, acts, k - 1);
    if o + 1 == k {
      OpensHere(tr[o], key);
    } else {
      OpenSinceOpening(tr, acts, o, k - 1, key);
      OpenStays(tr[k - 1], acts[k - 1], key, |tr[o].accepted|, |tr[o].pushed|);
    }
  }

  /** All that a key has got, and has pending, from its two queues. */
  function PressesOf(w: World, key: int): seq<Data>
    requires Shaped(w) && IsKey(key)
  {
    w.got[key] + w.dev.sq[key]
  }

  function DistancesOf(w: World, key: int): seq<Data>
    requires Shaped(w) && IsKey(key)
  {
    w.ugot[key] + w.dev.uq[key]
  }

  /** The key's i-th distance was measured by the echo that accepted press number first + i triggered. */
  ghost predicate MeasuredFor(tr: seq<World>, acts: seq<Action>, k: nat, key: int, first: int)
    requires k < |tr| && Shaped(tr[k]) && IsKey(key)
  {
    forall i :: 0 <= i < |DistancesOf(tr[k], key)| ==>
      0 <= first + i && HasEcho(tr, acts, k, Measurement(first + i, DistancesOf(tr[k], key)[i]))
  }

  /** Main result, when each echo and its tasklet finish before the next accepted press: a key gets exactly the presses
      accepted since it was opened, and its i-th distance is that of its i-th press, except that a key which was opened
      during a measurement gets that measurement first, so that each distance is that of the press before. At most one
      press of the run is still without its distance. */
  lemma QueuesPaired(tr: seq<World>, acts: seq<Action>, o: nat, k: nat, key: int)
    requires Run(WorldStep, tr, acts) && tr[0] == Start() && SerialRun(tr, acts) && OpenedAt(tr, acts, o, k, key)
    ensures Shaped(tr[k]) && Underway(tr[o]) <= 1 && Underway(tr[k]) <= 1
    ensures var first := |tr[o].accepted|;
            && first <= |tr[k].accepted| && PressesOf(tr[k], key) == tr[k].accepted[first..]
            && MeasuredFor(tr, acts, k, key, first - Underway(tr[o]))
            && |PressesOf(tr[k], key)| + Underway(tr[o]) == |DistancesOf(tr[k], key)| + Underway(tr[k])
  {
    hide WorldStep, HasEcho;
    InvAlways(tr, acts, o);
    InvAlways(tr, acts, k);
    SerialIsUndisturbed(tr, acts, o);
    SerialIsUndisturbed(tr, acts, k);
    OpenSinceOpening(tr, acts, o, k, key);
    var w, ubase := tr[k], |tr[o].pushed|;
    assert FannedOut(w, key);
    assert ubase == |tr[o].accepted| - Underway(tr[o]);
    forall i | 0 <= i < |DistancesOf(w, key)|
      ensures HasEcho(tr, acts, k, Measurement(ubase + i, DistancesOf(w, key)[i]))
    {
      assert DistancesOf(w, key)[i] == w.pushed[ubase..][i] == w.pushed[ubase + i];
      PairedByIndex(tr, acts, k, ubase + i);
    }
  }

  /** Main result: so the two queues of a key that was opened while the sensor was idle are index-aligned. */
  lemma QueuesAligned(tr: seq<World>, acts: seq<Action>, o: nat, k: nat, key: int)
    requires Run(WorldStep, tr, acts) && tr[0] == Start() && SerialRun(tr, acts) && OpenedAt(tr, acts, o, k, key)
    requires tr[o].dev.echo.Idle? && !tr[o].dev.upend
    ensures Shaped(tr[k])
    ensures var p, d := PressesOf(tr[k], key), DistancesOf(tr[k], key);
            && |d| <= |p| <= |d| + 1 && (|p| == |d| <==> tr[k].dev.echo.Idle? && !tr[k].dev.upend)
            && forall i :: 0 <= i < |d| ==>
                 var press := |tr[o].accepted| + i;
                 press < |tr[k].accepted| && p[i] == tr[k].accepted[press]
                     && HasEcho(tr, acts, k, Measurement(press, d[i]))
  {
    hide HasEcho;
    QueuesPaired(tr, acts, o, k, key);
  }
}

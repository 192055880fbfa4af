/**
  assignment2/src/driver/actuator/step_motor/step_motor.c: half-step sequences on four coils. `trace` records the
  coil settings that are held for a delay, in order; the rotor follows them.
 */
module StepMotor {
  const STEPS: nat := 8
  const DEGREE: nat := 128
  const BLUE: seq<int> := [1, 1, 0, 0, 0, 0, 0, 1]
  const PINK: seq<int> := [0, 1, 1, 1, 0, 0, 0, 0]
  const YELLOW: seq<int> := [0, 0, 0, 1, 1, 1, 0, 0]
  const ORANGE: seq<int> := [0, 0, 0, 0, 0, 1, 1, 1]

  datatype Coils = Coils(p1: int, p2: int, p3: int, p4: int)
  const OFF: Coils := Coils(0, 0, 0, 0)

  /** The coil setting of phase j. */
  function Pattern(j: int): Coils
    requires 0 <= j < STEPS
  {
    Coils(BLUE[j], PINK[j], YELLOW[j], ORANGE[j])
  }

  /** The settings held while opening for n cycles (the last one, all off, is not held), and while closing. */
  function OpenSteps(n: nat): (tr: seq<Coils>)
    ensures |tr| == n
  {
    seq(n, i => Pattern(i % STEPS))
  }

  function CloseSteps(n: nat): (tr: seq<Coils>)
    ensures |tr| == n
  {
    seq(n, i => Pattern(STEPS - 1 - i % STEPS))
  }

  class Motor {
    var p1: int
    var p2: int
    var p3: int
    var p4: int
    var trace: seq<Coils>

    function Pins(): Coils
      reads this
    {
      Coils(p1, p2, p3, p4)
    }

    constructor ()
      ensures Pins() == OFF && trace == []
    {
      p1, p2, p3, p4, trace := 0, 0, 0, 0, [];
    }

    /** setstep: one pin after the other. */
    method SetStep(c: Coils)
      modifies this
      ensures Pins() == c && trace == old(trace) + [c]
    {
      p1 := c.p1;
      p2 := c.p2;
      p3 := c.p3;
      p4 := c.p4;
      trace := trace + [c];
    }

    method Open(degree: nat)
      modifies this
      ensures trace == old(trace) + OpenSteps(STEPS * degree) + [OFF] && Pins() == OFF
      ensures forall i :: 0 <= i < STEPS * degree ==> PullsTo(trace[|old(trace)| + i], i % STEPS)
    {
      hide OpenSteps, Pattern, PullsTo;
      assert OpenSteps(0) == [];
      for i := 0 to degree
        invariant trace == old(trace) + OpenSteps(STEPS * i)
      {
        for j := 0 to STEPS
          invariant trace == old(trace) + OpenSteps(STEPS * i + j)
        {
          ModShift(j, i);
          OpenSnoc(STEPS * i + j + 1);
          SetStep(Pattern(j));
        }
      }
      SetStep(OFF);
      forall i | 0 <= i < STEPS * degree ensures PullsTo(trace[|old(trace)| + i], i % STEPS) {
        StepsPull(STEPS * degree, i);
      }
    }

    method Close(degree: nat)
      modifies this
      ensures trace == old(trace) + CloseSteps(STEPS * degree) + [OFF] && Pins() == OFF
      ensures forall i :: 0 <= i < STEPS * degree ==> PullsTo(trace[|old(trace)| + i], STEPS - 1 - i % STEPS)
    {
      hide CloseSteps, Pattern, PullsTo;
      assert CloseSteps(0) == [];
      for i := 0 to degree
        invariant trace == old(trace) + CloseSteps(STEPS * i)
      {
        var j := STEPS - 1;
        while j >= 0
          invariant -1 <= j < STEPS && trace == old(trace) + CloseSteps(STEPS * i + (STEPS - 1 - j))
        {
          ModShift(STEPS - 1 - j, i);
          CloseSnoc(STEPS * i + (STEPS - 1 - j) + 1);
          SetStep(Pattern(j));
          j := j - 1;
        }
      }
      SetStep(OFF);
      forall i | 0 <= i < STEPS * degree ensures PullsTo(trace[|old(trace)| + i], STEPS - 1 - i % STEPS) {
        StepsPull(STEPS * degree, i);
      }
    }
  }

  // ---------------------------------------------------------------- the sequences

  /** Main result: for any number of cycles the closing sequence is the opening one backwards. */
  lemma CloseReversesOpen(n: nat, i: nat)
    requires i < STEPS * n
    ensures CloseSteps(STEPS * n)[i] == OpenSteps(STEPS * n)[STEPS * n - 1 - i]
  {
    assert (STEPS * n - 1 - i) % STEPS == STEPS - 1 - i % STEPS;
  }

  function Differences(c: Coils, d: Coils): nat {
    (if c.p1 != d.p1 then 1 else 0) + (if c.p2 != d.p2 then 1 else 0)
    + (if c.p3 != d.p3 then 1 else 0) + (if c.p4 != d.p4 then 1 else 0)
  }

  /** The pins after the first m of the four writes of setstep. */
  function Writing(from: Coils, to: Coils, m: nat): Coils {
    Coils(if m > 0 then to.p1 else from.p1, if m > 1 then to.p2 else from.p2,
          if m > 2 then to.p3 else from.p3, if m > 3 then to.p4 else from.p4)
  }

  /** Main result: from each held setting to the next exactly one coil changes, across cycle boundaries too, so
      setstep's four separate writes never show a third setting in between. */
  lemma OneCoilAtATime(n: nat, i: nat, m: nat)
    requires i + 1 < n
    ensures Differences(OpenSteps(n)[i], OpenSteps(n)[i + 1]) == 1
    ensures Differences(CloseSteps(n)[i], CloseSteps(n)[i + 1]) == 1
    ensures Writing(OpenSteps(n)[i], OpenSteps(n)[i + 1], m) in {OpenSteps(n)[i], OpenSteps(n)[i + 1]}
    ensures Writing(CloseSteps(n)[i], CloseSteps(n)[i + 1], m) in {CloseSteps(n)[i], CloseSteps(n)[i + 1]}
  {
    var j := i % STEPS;
    assert (i + 1) % STEPS == if j == STEPS - 1 then 0 else j + 1;
    Neighbours(j, m);
    Neighbours(if j == STEPS - 1 then STEPS - 1 else STEPS - 2 - j, m);
  }

  lemma Neighbours(j: nat, m: nat)
    requires j < STEPS
    ensures var c, d := Pattern(j), Pattern(if j == STEPS - 1 then 0 else j + 1);
            && Differences(c, d) == 1 == Differences(d, c)
            && Writing(c, d, m) in {c, d} && Writing(d, c, m) in {c, d}
  {}

  // ---------------------------------------------------------------- the rotor

  /** Whether coil k is on. The coils stand a quarter of a cycle apart, coil k at phase 2k. */
  predicate CoilOn(c: Coils, k: int) {
    match k
    case 0 => c.p1 != 0
    case 1 => c.p2 != 0
    case 2 => c.p3 != 0
    case 3 => c.p4 != 0
    case _ => false
  }

  /** Coil k stands at phase j or one half-step from it; phase 7 is one half-step from coil 0. */
  predicate Near(k: int, j: int) { -1 <= 2 * k - j <= 1 || (k == 0 && j == STEPS - 1) }

  /** A setting pulls the rotor to phase j if exactly the coils near j are on: the coil that stands there alone, or the
      two on either side of it. */
  predicate PullsTo(c: Coils, j: int) { forall k :: 0 <= k < 4 ==> (CoilOn(c, k) <==> Near(k, j)) }

  lemma OnePhase(c: Coils, i: int, j: int)
    requires 0 <= i < STEPS && 0 <= j < STEPS && PullsTo(c, i) && PullsTo(c, j)
    ensures i == j
  {
    assert forall k :: 0 <= k < 4 ==> (Near(k, i) <==> Near(k, j));
    assert Near(0, i) <==> Near(0, j);
    assert Near(1, i) <==> Near(1, j);
    assert Near(2, i) <==> Near(2, j);
    assert Near(3, i) <==> Near(3, j);
  }

  /** The phase a coil setting pulls the rotor to, or -1 for none. */
  function PhaseOf(c: Coils): (j: int)
    ensures -1 <= j < STEPS && if j >= 0 then PullsTo(c, j) else forall i :: 0 <= i < STEPS ==> !PullsTo(c, i)
  {
    if PullsTo(c, 0) then 0 else if PullsTo(c, 1) then 1
    else if PullsTo(c, 2) then 2 else if PullsTo(c, 3) then 3
    else if PullsTo(c, 4) then 4 else if PullsTo(c, 5) then 5
    else if PullsTo(c, 6) then 6 else if PullsTo(c, 7) then 7 else -1
  }

  /** The rotor, at half-step position pos, turns to the nearest position of the phase; exactly opposite it does not
      move. */
  function Pull(pos: int, c: Coils): int {
    if PhaseOf(c) < 0 then pos else
    var d := (PhaseOf(c) - pos) % STEPS;
    if d < STEPS / 2 then pos + d else if d == STEPS / 2 then pos else pos + d - STEPS
  }

  /** Where the rotor is after a trace of settings. */
  function Rotor(pos: int, tr: seq<Coils>): int {
    if tr == [] then pos else Pull(Rotor(pos, tr[..|tr| - 1]), tr[|tr| - 1])
  }

  lemma {:induction false} RotorConcat(pos: int, a: seq<Coils>, b: seq<Coils>)
    ensures Rotor(pos, a + b) == Rotor(Rotor(pos, a), b)
  {
    if b == [] {
      assert a + b == a;
    } else {
      RotorConcat(pos, a, b[..|b| - 1]);
      assert (a + b)[..|a + b| - 1] == a + b[..|b| - 1];
    }
  }

  /** Main result: row j of the four tables energises exactly the coils near phase j; all off pulls nowhere. */
  lemma TablesFitTheCoils(j: nat)
    requires j < STEPS
    ensures PullsTo(Pattern(j), j) && PhaseOf(Pattern(j)) == j && PhaseOf(OFF) == -1
  {
    hide PhaseOf;
    assert PullsTo(Pattern(j), j);
    OnePhase(Pattern(j), j, PhaseOf(Pattern(j)));
    forall i | 0 <= i < STEPS ensures !PullsTo(OFF, i) {
      assert CoilOn(OFF, i / 2) <==> !Near(i / 2, i);
    }
  }

  lemma StepsPull(n: nat, i: nat)
    requires i < n
    ensures PullsTo(OpenSteps(n)[i], i % STEPS) && PullsTo(CloseSteps(n)[i], STEPS - 1 - i % STEPS)
  {
    hide Pattern, PullsTo;
    TablesFitTheCoils(i % STEPS);
    TablesFitTheCoils(STEPS - 1 - i % STEPS);
  }

  lemma RotorSnoc(pos: int, tr: seq<Coils>, c: Coils)
    ensures Rotor(pos, tr + [c]) == Pull(Rotor(pos, tr), c)
  {
    assert (tr + [c])[..|tr|] == tr;
  }

  lemma ModShift(x: int, q: int)
    ensures (x + STEPS * q) % STEPS == x % STEPS
  {}

  /** A rotor at most one half-step from phase j is pulled onto it. */
  lemma PullNear(pos: int, d: int, j: nat)
    requires -1 <= d <= 1 && j < STEPS && (pos + d) % STEPS == j
    ensures Pull(pos, Pattern(j)) == pos + d
  {
    hide Pattern, PhaseOf;
    TablesFitTheCoils(j);
    var q := (pos + d) / STEPS;
    assert j - pos == d + STEPS * -q;
    ModShift(d, -q);
  }

  /** From phase 0, k held settings of the opening sequence turn the rotor k - 1 half-steps. */
  lemma {:induction false} Opening(q: int, k: nat)
    requires k >= 1
    ensures Rotor(STEPS * q, OpenSteps(k)) == STEPS * q + k - 1
  {
    hide Pattern, Pull, OpenSteps;
    var pos, last := STEPS * q, (k - 1) % STEPS;
    OpenSnoc(k);
    RotorSnoc(pos, OpenSteps(k - 1), Pattern(last));
    ModShift(k - 1, q);
    if k == 1 {
      assert OpenSteps(0) == [];
      PullNear(pos, 0, 0);
    } else {
      Opening(q, k - 1);
      PullNear(pos + k - 2, 1, last);
    }
  }

  lemma OpenSnoc(k: nat)
    requires k >= 1
    ensures OpenSteps(k) == OpenSteps(k - 1) + [Pattern((k - 1) % STEPS)]
  {}

  lemma CloseSnoc(k: nat)
    requires k >= 1
    ensures CloseSteps(k) == CloseSteps(k - 1) + [Pattern(STEPS - 1 - (k - 1) % STEPS)]
  {}

  /** From phase 7, k held settings of the closing sequence turn it k - 1 half-steps back. */
  lemma {:induction false} Closing(q: int, k: nat)
    requires k >= 1
    ensures Rotor(STEPS * q + STEPS - 1, CloseSteps(k)) == STEPS * q + STEPS - k
  {
    hide Pattern, Pull, CloseSteps;
    var pos, r := STEPS * q + STEPS - 1, (k - 1) % STEPS;
    CloseSnoc(k);
    RotorSnoc(pos, CloseSteps(k - 1), Pattern(STEPS - 1 - r));
    ModShift(STEPS - 1 - r, q - (k - 1) / STEPS);
    assert STEPS * q + STEPS - k == STEPS - 1 - r + STEPS * (q - (k - 1) / STEPS);
    if k == 1 {
      assert CloseSteps(0) == [];
      PullNear(pos, 0, STEPS - 1);
    } else {
      Closing(q, k - 1);
      PullNear(pos - (k - 2), -1, STEPS - 1 - r);
    }
  }

  /** Main result: for any number n >= 1 of cycles, opening turns a rotor at phase 0 by 8n - 1 half-steps, and closing
      after it turns it back to where it was. */
  lemma OpenThenClose(pos: int, n: nat)
    requires n >= 1 && pos % STEPS == 0
    ensures Rotor(pos, OpenSteps(STEPS * n) + [OFF]) == pos + STEPS * n - 1
    ensures Rotor(pos + STEPS * n - 1, CloseSteps(STEPS * n) + [OFF]) == pos
  {
    hide Pattern, Pull, OpenSteps, CloseSteps;
    var k, q := STEPS * n, pos / STEPS;
    Opening(q, k);
    RotorConcat(pos, OpenSteps(k), [OFF]);
    Closing(q + n - 1, k);
    RotorConcat(pos + k - 1, CloseSteps(k), [OFF]);
    OffHolds(pos + k - 1);
    OffHolds(pos);
  }

  lemma OffHolds(pos: int)
    ensures Rotor(pos, [OFF]) == pos
  {
    assert [OFF][..0] == [];
    TablesFitTheCoils(0);
  }
}

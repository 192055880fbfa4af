/**
  assignment2/src/app/coffer_app.c: the safe. While closed it drains its press queue and its distance queue and
  compares the pairs with the password; while open it polls until a press closes it; the motor turns the bolt. Presses
  and distances may arrive before every single receive: `env` lists what arrives when.
 */
module Coffer {
  import opened Options
  import opened StepMotor

  /** my_password: the switch, and 1 for a distance of 15 cm or more. */
  const PASSWORD: seq<(int, int)> := [(1, 0), (2, 1), (3, 0), (3, 1), (1, 0)]
  const LENGTH: nat := 5
  const FAR: int := 15

  /** The two queues of the key, as values received from them. */
  datatype Queues = Queues(presses: seq<int>, distances: seq<int>)
  datatype Arrival = Arrival(presses: seq<int>, distances: seq<int>)
  /** What one poll took from each queue. */
  datatype Popped = Popped(press: Option<int>, distance: Option<int>)

  function At(env: seq<Arrival>, k: nat): Arrival { if k < |env| then env[k] else Arrival([], []) }

  function Arrive(q: Queues, a: Arrival): Queues { Queues(q.presses + a.presses, q.distances + a.distances) }

  function Head(s: seq<int>): Option<int> { if s == [] then None else Some(s[0]) }
  function Rest(s: seq<int>): seq<int> { if s == [] then [] else s[1..] }

  /** switch_recv and ultrasonic_recv return -1 for an empty queue. */
  function Ret(o: Option<int>): int { if o.Some? then o.value else -1 }

  /** Arrivals, switch_recv, arrivals, ultrasonic_recv. */
  function Poll(q: Queues, env: seq<Arrival>, k: nat): (Popped, Queues) {
    var q1 := Arrive(q, At(env, 2 * k));
    var q2 := Arrive(q1.(presses := Rest(q1.presses)), At(env, 2 * k + 1));
    (Popped(Head(q1.presses), Head(q2.distances)), q2.(distances := Rest(q2.distances)))
  }

  /** The queues after n polls. */
  function Left(q: Queues, env: seq<Arrival>, n: nat): Queues {
    if n == 0 then q else Poll(Left(q, env, n - 1), env, n - 1).1
  }

  /** What poll number k (from 0) takes. */
  function PopAt(q: Queues, env: seq<Arrival>, k: nat): Popped { Poll(Left(q, env, k), env, k).0 }

  function Distance(o: Option<int>): int { if Ret(o) >= FAR then 1 else 0 }

  predicate Digit(p: Popped, i: nat)
    requires i < LENGTH
  {
    Ret(p.press) == PASSWORD[i].0 && Distance(p.distance) == PASSWORD[i].1
  }

  /** The first five polls give the password. */
  predicate Correct(q: Queues, env: seq<Arrival>) { forall i :: 0 <= i < LENGTH ==> Digit(PopAt(q, env, i), i) }

  /** A password round takes count + 1 polls: it counts presses until a poll finds none or five have been counted
      before. */
  ghost predicate RoundTakes(q: Queues, env: seq<Arrival>, count: nat) {
    && count <= LENGTH && (forall i :: 0 <= i < count ==> Ret(PopAt(q, env, i).press) >= 0)
    && (Ret(PopAt(q, env, count).press) < 0 || count == LENGTH)
  }

  /** An open safe polls n times: until a poll takes a press, or until its patience has run out. */
  ghost predicate WaitTakes(q: Queues, env: seq<Arrival>, patience: nat, n: nat, closed: bool) {
    && n <= patience
    && (if closed then n > 0 && Ret(PopAt(q, env, n - 1).press) > 0 else n == patience)
    && forall i :: 0 <= i < (if closed then n - 1 else n) ==> Ret(PopAt(q, env, i).press) <= 0
  }

  /** The bolt is where the flag says: 1023 half-steps from its start when open, at its start when closed. */
  ghost predicate BoltFits(flag: int, trace: seq<Coils>) {
    (flag == 0 || flag == 1) && Rotor(0, trace) == if flag == 1 then STEPS * DEGREE - 1 else 0
  }

  /** The flag and the queues at the head of the outer loop. */
  datatype LoopHead = AtHead(flag: int, queues: Queues)

  /** One pass of the outer loop takes the safe from s to t. */
  ghost predicate Passes(s: LoopHead, t: LoopHead, env: seq<Arrival>, patience: nat, repaired: bool) {
    if s.flag == 0 then
      exists count: nat :: RoundTakes(s.queues, env, count)
        && t == AtHead(if Correct(s.queues, env) then 1 else 0, Left(s.queues, env, count + 1))
    else
      exists n: nat, closed: bool :: WaitTakes(s.queues, env, patience, n, closed)
        && t == AtHead(if closed then 0 else 1, if closed && repaired then Queues([], []) else Left(s.queues, env, n))
  }

  class App {
    /** 0 closed, 1 open. */
    var flag: int
    var queues: Queues
    const motor: Motor

    /** At every head of the outer loop: the bolt is where the flag says. */
    ghost predicate Valid()
      reads this, motor
    {
      BoltFits(flag, motor.trace)
    }

    constructor ()
      ensures Valid() && flag == 0 && queues == Queues([], []) && fresh(motor)
    {
      flag, queues := 0, Queues([], []);
      motor := new Motor();
    }

    method SwitchRecv() returns (ret: int)
      modifies this`queues
      ensures ret == Ret(Head(old(queues).presses)) && queues == old(queues).(presses := Rest(old(queues).presses))
    {
      if queues.presses == [] { return -1; }
      ret := queues.presses[0];
      queues := queues.(presses := queues.presses[1..]);
    }

    method UltrasonicRecv() returns (ret: int)
      modifies this`queues
      ensures ret == Ret(Head(old(queues).distances))
              && queues == old(queues).(distances := Rest(old(queues).distances))
    {
      if queues.distances == [] { return -1; }
      ret := queues.distances[0];
      queues := queues.(distances := queues.distances[1..]);
    }

    /** One receive from each queue, with what arrives before each. */
    method Receive(env: seq<Arrival>, k: nat) returns (ret: int, distance: int)
      modifies this`queues
      ensures var (popped, q) := Poll(old(queues), env, k);
              ret == Ret(popped.press) && distance == Ret(popped.distance) && queues == q
    {
      queues := Arrive(queues, At(env, 2 * k));
      ret := SwitchRecv();
      queues := Arrive(queues, At(env, 2 * k + 1));
      distance := UltrasonicRecv();
    }

    /** A password round: opens exactly when the first five polls give the password. It polls once more than it
        counts, until a poll finds no press or five have been counted before it. */
    method Round(env: seq<Arrival>) returns (opens: bool, count: nat)
      modifies this`queues
      ensures count <= LENGTH && queues == Left(old(queues), env, count + 1)
      ensures RoundTakes(old(queues), env, count)
      ensures opens <==> Correct(old(queues), env)
    {
      hide Poll;
      var incorrect, done := false, false;
      count := 0;
      while !done
        invariant count <= LENGTH && queues == Left(old(queues), env, if done then count + 1 else count)
        invariant forall i :: 0 <= i < count ==> Ret(PopAt(old(queues), env, i).press) >= 0
        invariant done ==> Ret(PopAt(old(queues), env, count).press) < 0 || count == LENGTH
        invariant !incorrect <==> forall i :: 0 <= i < count ==> Digit(PopAt(old(queues), env, i), i)
        decreases LENGTH - count, !done
      {
        var ret, distance := Receive(env, count);
        assert ret == Ret(PopAt(old(queues), env, count).press);
        if ret < 0 || count >= LENGTH {
          done := true;
        } else {
          distance := if distance >= FAR then 1 else 0;
          if PASSWORD[count].0 != ret || PASSWORD[count].1 != distance {
            incorrect := true;
          }
          assert Digit(PopAt(old(queues), env, count), count)
            <==> PASSWORD[count].0 == ret && PASSWORD[count].1 == distance;
          count := count + 1;
        }
      }
      opens := !incorrect && count == LENGTH;
      if count < LENGTH {
        assert PASSWORD[count].0 > 0;
        assert !Digit(PopAt(old(queues), env, count), count);
      }
    }

    /** The polling of the open state, until a press or until `patience` polls have found none. */
    method WaitForPress(env: seq<Arrival>, patience: nat) returns (closed: bool, n: nat)
      modifies this`queues
      ensures n <= patience && queues == Left(old(queues), env, n)
      ensures closed <==> exists i :: 0 <= i < patience && Ret(PopAt(old(queues), env, i).press) > 0
      ensures WaitTakes(old(queues), env, patience, n, closed)
    {
      hide Poll;
      n, closed := 0, false;
      while n < patience && !closed
        invariant n <= patience && queues == Left(old(queues), env, n)
        invariant closed ==> n > 0 && Ret(PopAt(old(queues), env, n - 1).press) > 0
        invariant forall i :: 0 <= i < (if closed then n - 1 else n) ==> Ret(PopAt(old(queues), env, i).press) <= 0
        decreases patience - n, !closed
      {
        var ret, distance := Receive(env, n);
        assert ret == Ret(PopAt(old(queues), env, n).press);
        n := n + 1;
        closed := ret > 0;
      }
    }

    /** The repair of a closing: close the key and open it again, as the program does when it starts. */
    method Reopen()
      modifies this`queues
      ensures queues == Queues([], [])
    {
      while queues.presses != []
        decreases |queues.presses|
      {
        queues := queues.(presses := queues.presses[1..]);
      }
      while queues.distances != []
        invariant queues.presses == []
        decreases |queues.distances|
      {
        queues := queues.(distances := queues.distances[1..]);
      }
    }

    /** One pass of the outer loop, as written or with the repair. */
    method Turn(env: seq<Arrival>, patience: nat, repaired: bool)
      requires Valid()
      modifies this, motor
      ensures Valid()
      ensures old(flag) == 0 ==> (flag == 1 <==> Correct(old(queues), env))
      ensures old(flag) == 1 ==>
                (flag == 0 <==> exists i :: 0 <= i < patience && Ret(PopAt(old(queues), env, i).press) > 0)
      ensures Passes(AtHead(old(flag), old(queues)), AtHead(flag, queues), env, patience, repaired)
      ensures old(motor.trace) <= motor.trace
    {
      hide Correct, RoundTakes, WaitTakes, PopAt, Left;
      ghost var before := motor.trace;
      if flag == 0 {
        var opens, count := Round(env);
        if opens {
          flag := 1;
          motor.Open(DEGREE);
          BoltOpens(before);
        }
      } else {
        var closed, n := WaitForPress(env, patience);
        if closed {
          flag := 0;
          motor.Close(DEGREE);
          BoltCloses(before);
          if repaired { Reopen(); }
        }
      }
    }

    /** The outer loop, for any number of passes: the flag and the queues at each head of it, and how much of the
        motor's trace had been made by then. At every head the bolt is where the flag says. */
    method Run(turns: seq<(seq<Arrival>, nat)>, repaired: bool)
        returns (ghost heads: seq<LoopHead>, ghost marks: seq<nat>)
      requires Valid()
      modifies this, motor
      ensures Valid() && |heads| == |marks| == |turns| + 1
      ensures heads[0] == AtHead(old(flag), old(queues)) && heads[|turns|] == AtHead(flag, queues)
      ensures forall i :: 0 <= i < |turns| ==> Passes(heads[i], heads[i + 1], turns[i].0, turns[i].1, repaired)
      ensures marks[0] == |old(motor.trace)| && marks[|turns|] == |motor.trace|
      ensures forall i :: 0 <= i <= |turns| ==>
              marks[i] <= |motor.trace| && BoltFits(heads[i].flag, motor.trace[..marks[i]])
    {
      hide Passes, BoltFits;
      heads, marks := [AtHead(flag, queues)], [|motor.trace|];
      Fits();
      for i := 0 to |turns|
        invariant Valid() && |heads| == |marks| == i + 1
        invariant heads[0] == AtHead(old(flag), old(queues)) && heads[i] == AtHead(flag, queues)
        invariant forall j :: 0 <= j < i ==> Passes(heads[j], heads[j + 1], turns[j].0, turns[j].1, repaired)
        invariant marks[0] == |old(motor.trace)| && marks[i] == |motor.trace|
        invariant forall j :: 0 <= j <= i ==>
                  marks[j] <= |motor.trace| && BoltFits(heads[j].flag, motor.trace[..marks[j]])
      {
        ghost var before := motor.trace;
        Turn(turns[i].0, turns[i].1, repaired);
        Fits();
        assert forall j :: 0 <= j <= i ==> motor.trace[..marks[j]] == before[..marks[j]];
        heads, marks := heads + [AtHead(flag, queues)], marks + [|motor.trace|];
      }
    }

    lemma Fits()
      requires Valid()
      ensures BoltFits(flag, motor.trace[..|motor.trace|])
    {
      assert motor.trace[..|motor.trace|] == motor.trace;
    }
  }

  lemma BoltOpens(tr: seq<Coils>)
    requires Rotor(0, tr) == 0
    ensures Rotor(0, tr + OpenSteps(STEPS * DEGREE) + [OFF]) == STEPS * DEGREE - 1
  {
    assert tr + OpenSteps(STEPS * DEGREE) + [OFF] == tr + (OpenSteps(STEPS * DEGREE) + [OFF]);
    RotorConcat(0, tr, OpenSteps(STEPS * DEGREE) + [OFF]);
    OpenThenClose(0, DEGREE);
  }

  lemma BoltCloses(tr: seq<Coils>)
    requires Rotor(0, tr) == STEPS * DEGREE - 1
    ensures Rotor(0, tr + CloseSteps(STEPS * DEGREE) + [OFF]) == 0
  {
    assert tr + CloseSteps(STEPS * DEGREE) + [OFF] == tr + (CloseSteps(STEPS * DEGREE) + [OFF]);
    RotorConcat(0, tr, CloseSteps(STEPS * DEGREE) + [OFF]);
    OpenThenClose(0, DEGREE);
  }

  // ---------------------------------------------------------------- what a round consumes

  function Value(o: Option<int>): seq<int> { if o.Some? then [o.value] else [] }

  /** The presses, and the distances, that the first n polls take. */
  function Presses(q: Queues, env: seq<Arrival>, n: nat): seq<int> {
    if n == 0 then [] else Presses(q, env, n - 1) + Value(PopAt(q, env, n - 1).press)
  }

  function Distances(q: Queues, env: seq<Arrival>, n: nat): seq<int> {
    if n == 0 then [] else Distances(q, env, n - 1) + Value(PopAt(q, env, n - 1).distance)
  }

  /** Everything that arrives before or during the first n polls. */
  function Arrived(env: seq<Arrival>, n: nat): Arrival {
    if n == 0 then Arrival([], [])
    else
      var before, a, b := Arrived(env, n - 1), At(env, 2 * (n - 1)), At(env, 2 * (n - 1) + 1);
      Arrival(before.presses + a.presses + b.presses, before.distances + a.distances + b.distances)
  }

  /** Main result: whatever arrives meanwhile, each queue gives its values in order: what n polls have taken, followed
      by what they leave, is what was there followed by what arrived. */
  lemma {:induction false} PollsInOrder(q: Queues, env: seq<Arrival>, n: nat)
    ensures Presses(q, env, n) + Left(q, env, n).presses == q.presses + Arrived(env, n).presses
    ensures Distances(q, env, n) + Left(q, env, n).distances == q.distances + Arrived(env, n).distances
  {
    hide Poll, At, Value, Rest, Head;
    if n > 0 {
      PollsInOrder(q, env, n - 1);
      PollParts(Left(q, env, n - 1), env, n - 1);
      var u, a, b := Left(q, env, n - 1), At(env, 2 * (n - 1)), At(env, 2 * (n - 1) + 1);
      var before := Arrived(env, n - 1);
      TakeThenArrive(Presses(q, env, n - 1), u.presses, q.presses, before.presses, a.presses, b.presses);
      ArriveThenTake(Distances(q, env, n - 1), u.distances, q.distances, before.distances, a.distances, b.distances);
    }
  }

  lemma PollParts(u: Queues, env: seq<Arrival>, k: nat)
    ensures var (popped, q), a, b := Poll(u, env, k), At(env, 2 * k), At(env, 2 * k + 1);
            && popped == Popped(Head(u.presses + a.presses), Head(u.distances + a.distances + b.distances))
            && q == Queues(Rest(u.presses + a.presses) + b.presses, Rest(u.distances + a.distances + b.distances))
  {}

  lemma HeadAndRest(s: seq<int>)
    ensures Value(Head(s)) + Rest(s) == s
  {}

  lemma TakeThenArrive(taken: seq<int>, left: seq<int>, start: seq<int>, arrived: seq<int>, a: seq<int>, b: seq<int>)
    requires taken + left == start + arrived
    ensures (taken + Value(Head(left + a))) + (Rest(left + a) + b) == start + (arrived + a + b)
  {
    HeadAndRest(left + a);
    var h, r := Value(Head(left + a)), Rest(left + a);
    assert (taken + h) + (r + b) == taken + (h + r) + b == (taken + left) + a + b;
  }

  lemma ArriveThenTake(taken: seq<int>, left: seq<int>, start: seq<int>, arrived: seq<int>, a: seq<int>, b: seq<int>)
    requires taken + left == start + arrived
    ensures (taken + Value(Head(left + a + b))) + Rest(left + a + b) == start + (arrived + a + b)
  {
    HeadAndRest(left + a + b);
    var h, r := Value(Head(left + a + b)), Rest(left + a + b);
    assert (taken + h) + r == taken + (h + r) == (taken + left) + a + b;
  }

  function Nth(s: seq<int>, i: nat): Option<int> { if i < |s| then Some(s[i]) else None }
  function Drop(s: seq<int>, n: nat): seq<int> { if n <= |s| then s[n..] else [] }

  lemma QuietPoll(q: Queues, k: nat)
    ensures Poll(q, [], k) == (Popped(Head(q.presses), Head(q.distances)), Queues(Rest(q.presses), Rest(q.distances)))
  {
    forall u: Queues ensures Arrive(u, Arrival([], [])) == u {
      assert u.presses + [] == u.presses && u.distances + [] == u.distances;
    }
  }

  /** With no arrivals, poll k takes the k-th element of each queue. */
  lemma {:induction false} QuietPolls(q: Queues, k: nat)
    ensures Left(q, [], k) == Queues(Drop(q.presses, k), Drop(q.distances, k))
    ensures PopAt(q, [], k) == Popped(Nth(q.presses, k), Nth(q.distances, k))
  {
    hide Poll;
    if k > 0 {
      QuietPolls(q, k - 1);
      QuietPoll(Left(q, [], k - 1), k - 1);
    }
    QuietPoll(Left(q, [], k), k);
  }

  /** The first five distances, missing ones counting as near, are near and far as in the password. */
  predicate Pattern(distances: seq<int>) {
    forall i :: 0 <= i < LENGTH ==> Distance(Nth(distances, i)) == PASSWORD[i].1
  }

  /** The first five presses are those of the password. */
  predicate Keys(presses: seq<int>) {
    |presses| >= LENGTH && forall i :: 0 <= i < LENGTH ==> presses[i] == PASSWORD[i].0
  }

  /** With no arrivals a round opens exactly when keys and distances are both right. */
  lemma QuietCorrect(q: Queues)
    ensures Correct(q, []) <==> Keys(q.presses) && Pattern(q.distances)
  {
    hide Poll, PopAt, Left;
    forall i | 0 <= i < LENGTH ensures PopAt(q, [], i) == Popped(Nth(q.presses, i), Nth(q.distances, i)) {
      QuietPolls(q, i);
    }
    if Correct(q, []) {
      assert |q.presses| >= LENGTH by { assert Digit(PopAt(q, [], LENGTH - 1), LENGTH - 1); }
      forall i | 0 <= i < LENGTH ensures q.presses[i] == PASSWORD[i].0 {
        assert Digit(PopAt(q, [], i), i);
      }
      forall i | 0 <= i < LENGTH ensures Distance(Nth(q.distances, i)) == PASSWORD[i].1 {
        assert Digit(PopAt(q, [], i), i);
      }
    }
    if Keys(q.presses) && Pattern(q.distances) {
      forall i | 0 <= i < LENGTH ensures Digit(PopAt(q, [], i), i) {
        assert Distance(Nth(q.distances, i)) == PASSWORD[i].1;
      }
    }
  }

  /** Main result: with no arrivals during the drain, a round with p presses (none negative) takes min(p, 6) of them,
      because the sixth is taken before the count is tested; and it opens exactly when there are at least five and the
      first five, each with the distance at the same place, or with "near" if there is none, are the password. */
  lemma QuietRound(q: Queues, count: nat)
    requires forall i :: 0 <= i < |q.presses| ==> q.presses[i] >= 0
    requires count <= LENGTH && forall i :: 0 <= i < count ==> Ret(PopAt(q, [], i).press) >= 0
    requires Ret(PopAt(q, [], count).press) < 0 || count == LENGTH
    ensures Left(q, [], count + 1).presses == Drop(q.presses, if |q.presses| <= LENGTH then |q.presses| else LENGTH + 1)
    ensures Correct(q, []) <==> Keys(q.presses) && Pattern(q.distances)
  {
    hide Poll, PopAt, Left, Correct;
    QuietPolls(q, count);
    QuietPolls(q, count + 1);
    if count > 0 { QuietPolls(q, count - 1); }
    QuietCorrect(q);
  }

  // ---------------------------------------------------------------- distances that are left over

  /** Main result: left-over distances move the others back. A round with the right presses opens exactly if what was
      left over, followed by the distances typed, begins with the pattern of the password. */
  lemma StaleRound(q: Queues, stale: seq<int>)
    requires Keys(q.presses)
    ensures Correct(q.(distances := stale + q.distances), []) <==> Pattern(stale + q.distances)
  {
    hide Correct;
    QuietCorrect(q.(distances := stale + q.distances));
  }

  /** Main result: so a password typed at the right distances, which opens the safe when nothing is left over, opens it
      exactly if the left-over distances show the beginning of the pattern themselves and are none, two, or more than
      three; one of them, or three, always spoil it. */
  lemma StaleDistances(q: Queues, stale: seq<int>)
    requires Correct(q, [])
    ensures Correct(q.(distances := stale + q.distances), []) <==>
              |stale| != 1 && |stale| != 3
              && forall i :: 0 <= i < LENGTH && i < |stale| ==> Distance(Some(stale[i])) == PASSWORD[i].1
  {
    hide Correct;
    QuietCorrect(q);
    StaleRound(q, stale);
    var all := stale + q.distances;
    forall i | 0 <= i < LENGTH
      ensures Nth(all, i) == if i < |stale| then Some(stale[i]) else Nth(q.distances, i - |stale|)
    {}
    assert Distance(Nth(q.distances, 0)) == 0 && Distance(Nth(q.distances, 1)) == 1;
    assert |stale| == 1 || |stale| == 3 ==> Distance(Nth(all, |stale|)) != PASSWORD[|stale|].1;
    if Pattern(all) {
      forall i | 0 <= i < LENGTH && i < |stale| ensures Distance(Some(stale[i])) == PASSWORD[i].1 {
        assert Distance(Nth(all, i)) == PASSWORD[i].1;
      }
    }
  }

  /** Main result: the closing press of the code as written. Let its poll leave both queues empty, let its distance, if
      that poll did not take it, arrive before those of the next round, and let the next round be typed right. The safe
      opens if and only if the poll that took the press took its distance too. */
  lemma ClosingPress(q: Queues, env: seq<Arrival>, n: nat, late: int, typed: Queues)
    requires n > 0 && Left(q, env, n) == Queues([], []) && Correct(typed, [])
    ensures var taken := PopAt(q, env, n - 1).distance.Some?;
            var arrives := Arrival(typed.presses, if taken then typed.distances else [late] + typed.distances);
            Correct(Arrive(Left(q, env, n), arrives), []) <==> taken
  {
    hide Correct, PopAt, Left;
    var taken := PopAt(q, env, n - 1).distance.Some?;
    StaleDistances(typed, if taken then [] else [late]);
    assert [] + typed.distances == typed.distances && [] + typed.presses == typed.presses;
    assert [] + ([late] + typed.distances) == [late] + typed.distances;
    assert typed.(distances := typed.distances) == typed;
  }
}

/**
  The safe of coffer_app.c on the driver of switch.c: what a round of Coffer finds in the two queues of its key, after
  any run of SwitchRuns in which each echo and its tasklet finish before the next accepted press.
 */
module SafeRuns {
  import opened Options
  import opened Runs
  import opened Switch
  import opened SwitchRuns
  import Coffer

  function Values(ds: seq<Data>): seq<int> { seq(|ds|, i requires 0 <= i < |ds| => ds[i].value) }

  /** What the safe finds in the queues of its key. */
  function Pending(w: World, key: int): Coffer.Queues
    requires Shaped(w) && IsKey(key)
  {
    Coffer.Queues(Values(w.dev.sq[key]), Values(w.dev.uq[key]))
  }

  /** 1 if the distance measured for accepted press number p is far, 0 if it is near or missing. */
  function FarAt(w: World, p: int): int {
    if 0 <= p < |w.pushed| && w.pushed[p].value >= Coffer.FAR then 1 else 0
  }

  /** The five accepted presses from number p on are those of the password, and the distances measured for the five
      from number d on are near and far as in the password. */
  ghost predicate Password(w: World, p: nat, d: int) {
    && p + Coffer.LENGTH <= |w.accepted|
    && (forall i :: 0 <= i < Coffer.LENGTH ==> w.accepted[p + i].value == Coffer.PASSWORD[i].0)
    && (forall i :: 0 <= i < Coffer.LENGTH ==> FarAt(w, d + i) == Coffer.PASSWORD[i].1)
  }

  /** The pushed log is, press by press, what each press's own echo measured. */
  ghost predicate OwnDistances(tr: seq<World>, acts: seq<Action>, k: nat)
    requires k < |tr|
  {
    forall p :: 0 <= p < |tr[k].pushed| ==> HasEcho(tr, acts, k, Measurement(p, tr[k].pushed[p]))
  }

  /** What is pending for an open key, in terms of the logs: `accepted` and `pushed` are where it was opened. */
  lemma PendingInLogs(w: World, key: int, accepted: nat, pushed: nat)
    requires Inv(w) && OpenSince(w, key, accepted, pushed)
    ensures var p, d := accepted + |w.got[key]|, pushed + |w.ugot[key]|;
            && p <= |w.accepted| && w.dev.sq[key] == w.accepted[p..]
            && d <= |w.pushed| && w.dev.uq[key] == w.pushed[d..]
  {
    assert FannedOut(w, key);
    SuffixOf(w.accepted, accepted, w.got[key], w.dev.sq[key]);
    SuffixOf(w.pushed, pushed, w.ugot[key], w.dev.uq[key]);
  }

  lemma SuffixOf(log: seq<Data>, base: nat, got: seq<Data>, q: seq<Data>)
    requires base <= |log| && log[base..] == got + q
    ensures base + |got| <= |log| && q == log[base + |got|..]
  {
    assert |log[base..]| == |got| + |q|;
    assert log[base + |got|..] == log[base..][|got|..] == q;
  }

  lemma JudgedInLogs(w: World, q: Coffer.Queues, p: nat, d: nat)
    requires p <= |w.accepted| && q.presses == Values(w.accepted[p..])
    requires d <= |w.pushed| && q.distances == Values(w.pushed[d..])
    ensures Coffer.Correct(q, []) <==> Password(w, p, d)
  {
    hide Coffer.Correct;
    Coffer.QuietCorrect(q);
    assert forall i :: 0 <= i < |q.presses| ==> q.presses[i] == w.accepted[p + i].value;
    forall i | 0 <= i < Coffer.LENGTH ensures Coffer.Distance(Coffer.Nth(q.distances, i)) == FarAt(w, d + i) {
      assert i < |q.distances| ==> q.distances[i] == w.pushed[d + i].value;
    }
  }

  /** Main result: a round that starts when nothing is arriving opens the safe exactly if the first five presses that
      the key has not taken yet are those of the password, and the distances that it has not taken yet, counted from
      where the key was opened, show its pattern. */
  lemma RoundJudges(tr: seq<World>, acts: seq<Action>, o: nat, k: nat, key: int)
    requires Run(WorldStep, tr, acts) && tr[0] == Start() && SerialRun(tr, acts) && OpenedAt(tr, acts, o, k, key)
    ensures Shaped(tr[k]) && OwnDistances(tr, acts, k)
    ensures var p := |tr[o].accepted| + |tr[k].got[key]|;
            var d := |tr[o].accepted| - Underway(tr[o]) + |tr[k].ugot[key]|;
            Coffer.Correct(Pending(tr[k], key), []) <==> Password(tr[k], p, d)
  {
    hide WorldStep, Coffer.Correct, Password, HasEcho;
    InvAlways(tr, acts, o);
    InvAlways(tr, acts, k);
    SerialIsUndisturbed(tr, acts, o);
    SerialIsUndisturbed(tr, acts, k);
    OpenSinceOpening(tr, acts, o, k, key);
    forall p | 0 <= p < |tr[k].pushed| ensures HasEcho(tr, acts, k, Measurement(p, tr[k].pushed[p])) {
      PairedByIndex(tr, acts, k, p);
    }
    assert |tr[o].pushed| == |tr[o].accepted| - Underway(tr[o]);
    PendingInLogs(tr[k], key, |tr[o].accepted|, |tr[o].pushed|);
    JudgedInLogs(tr[k], Pending(tr[k], key), |tr[o].accepted| + |tr[k].got[key]|, |tr[o].pushed| + |tr[k].ugot[key]|);
  }

  lemma NothingTaken(w: World, a: Action, key: int)
    requires Shaped(w) && IsKey(key) && w.got[key] == w.ugot[key] == [] && a != Recv(key) && a != UltraRecv(key)
    ensures Shaped(WorldStep(w, a)) && WorldStep(w, a).got[key] == WorldStep(w, a).ugot[key] == []
  {
    hide FanOut, Centimetres;
  }

  lemma {:induction false} NothingTakenSince(tr: seq<World>, acts: seq<Action>, o: nat, k: nat, key: int)
    requires Run(WorldStep, tr, acts) && OpenedAt(tr, acts, o, k, key)
    requires forall j :: o < j < k ==> acts[j] != Recv(key) && acts[j] != UltraRecv(key)
    ensures Shaped(tr[k]) && tr[k].got[key] == tr[k].ugot[key] == []
  {
    assert Follows(WorldStep, tr, acts, k - 1);
    if o + 1 < k {
      NothingTakenSince(tr, acts, o, k - 1, key);
      NothingTaken(tr[k - 1], acts[k - 1], key);
    }
  }

  /** Main result: a key that was opened while the sensor was idle, and from which nothing has been taken since, as at
      the first round of the program and, as repaired, at the first round after every closing: the safe opens exactly
      if the next five presses are the password, each at the distance that its own echo measured. */
  lemma OpensExactly(tr: seq<World>, acts: seq<Action>, o: nat, k: nat, key: int)
    requires Run(WorldStep, tr, acts) && tr[0] == Start() && SerialRun(tr, acts) && OpenedAt(tr, acts, o, k, key)
    requires Underway(tr[o]) == 0
    requires forall j :: o < j < k ==> acts[j] != Recv(key) && acts[j] != UltraRecv(key)
    ensures Shaped(tr[k]) && OwnDistances(tr, acts, k)
    ensures Coffer.Correct(Pending(tr[k], key), []) <==> Password(tr[k], |tr[o].accepted|, |tr[o].accepted|)
  {
    hide WorldStep, Coffer.Correct, Password, OwnDistances;
    RoundJudges(tr, acts, o, k, key);
    NothingTakenSince(tr, acts, o, k, key);
  }

  /** Main result: a later round of the code as written. Each press is judged by its own distance exactly if the rounds
      and polls before have taken as many distances as presses; if they took one distance less, as when a closing press
      came before its distance, each is judged by that of the press before. */
  lemma LaterRound(tr: seq<World>, acts: seq<Action>, o: nat, k: nat, key: int)
    requires Run(WorldStep, tr, acts) && tr[0] == Start() && SerialRun(tr, acts) && OpenedAt(tr, acts, o, k, key)
    requires Underway(tr[o]) == 0
    ensures Shaped(tr[k]) && OwnDistances(tr, acts, k)
    ensures var p, late := |tr[o].accepted| + |tr[k].got[key]|, |tr[k].got[key]| - |tr[k].ugot[key]|;
            Coffer.Correct(Pending(tr[k], key), []) <==> Password(tr[k], p, p - late)
  {
    hide WorldStep, Coffer.Correct, Password, OwnDistances;
    RoundJudges(tr, acts, o, k, key);
  }
}

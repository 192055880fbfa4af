/** Runs of a step function: every state a schedule goes through. All interleaved models here are runs of this kind. */
module Runs {
  /** One more state than there are actions, each following from the one before. */
  ghost predicate Run<S, A>(step: (S, A) -> S, tr: seq<S>, acts: seq<A>) {
    |tr| == |acts| + 1 && forall k :: 0 <= k < |acts| ==> Follows(step, tr, acts, k)
  }

  ghost predicate Follows<S, A>(step: (S, A) -> S, tr: seq<S>, acts: seq<A>, k: int)
    requires |tr| == |acts| + 1 && 0 <= k < |acts|
  {
    tr[k + 1] == step(tr[k], acts[k])
  }

  lemma Extends<S, A>(step: (S, A) -> S, tr: seq<S>, acts: seq<A>, a: A)
    requires Run(step, tr, acts)
    ensures Run(step, tr + [step(tr[|acts|], a)], acts + [a])
  {
    var tr', acts' := tr + [step(tr[|acts|], a)], acts + [a];
    forall k | 0 <= k < |acts'| ensures Follows(step, tr', acts', k) {
      if k < |acts| { assert Follows(step, tr, acts, k); }
    }
  }

  /** What every step keeps holds throughout every run. */
  lemma {:induction false} Always<S(!new), A(!new)>(step: (S, A) -> S, inv: S -> bool, tr: seq<S>, acts: seq<A>, k: nat)
    requires Run(step, tr, acts) && inv(tr[0]) && k <= |acts|
    requires forall s, a :: inv(s) ==> inv(step(s, a))
    ensures inv(tr[k])
  {
    if k > 0 {
      Always(step, inv, tr, acts, k - 1);
      assert Follows(step, tr, acts, k - 1);
    }
  }

  /** The k-th batch of steps of an environment, which does nothing any more once it has ended. */
  function Batch<A>(env: seq<seq<A>>, k: nat): seq<A> { if k < |env| then env[k] else [] }

  /** All the steps of an environment, batch after batch. */
  function Flat<A>(env: seq<seq<A>>): seq<A> {
    if env == [] then [] else Flat(env[..|env| - 1]) + env[|env| - 1]
  }

  lemma FlatSnoc<A>(env: seq<seq<A>>, k: nat)
    requires k < |env|
    ensures Flat(env[..k + 1]) == Flat(env[..k]) + env[k]
  {
    assert env[..k + 1][..k] == env[..k];
  }

  /** The state that a schedule leads to. */
  function After<S, A>(step: (S, A) -> S, s: S, acts: seq<A>): S {
    if acts == [] then s else step(After(step, s, acts[..|acts| - 1]), acts[|acts| - 1])
  }

  lemma AfterSnoc<S, A>(step: (S, A) -> S, s: S, acts: seq<A>, a: A)
    ensures After(step, s, acts + [a]) == step(After(step, s, acts), a)
  {
    assert (acts + [a])[..|acts|] == acts;
  }

  lemma {:induction false} AfterConcat<S, A>(step: (S, A) -> S, s: S, a: seq<A>, b: seq<A>)
    ensures After(step, s, a + b) == After(step, After(step, s, a), b)
  {
    if b == [] {
      assert a + b == a;
    } else {
      var front, last := b[..|b| - 1], b[|b| - 1];
      AfterConcat(step, s, a, front);
      AfterSnoc(step, s, a + front, last);
      assert a + front + [last] == a + b;
    }
  }

  /** Every schedule has a run. */
  lemma {:induction false} RunOf<S, A>(step: (S, A) -> S, s: S, acts: seq<A>) returns (tr: seq<S>)
    ensures Run(step, tr, acts) && tr[0] == s && tr[|acts|] == After(step, s, acts)
  {
    if acts == [] {
      tr := [s];
    } else {
      var front := acts[..|acts| - 1];
      tr := RunOf(step, s, front);
      Extends(step, tr, front, acts[|acts| - 1]);
      assert front + [acts[|acts| - 1]] == acts;
      tr := tr + [step(tr[|front|], acts[|acts| - 1])];
    }
  }
}

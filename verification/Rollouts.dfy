/** The environment loop of rllib/evaluate.py and the saver that records its rollouts. */
module Rollouts {

  /** What one environment step is saved as. */
  datatype Step = Step(record: nat, done: bool)

  /** Whether enough data has been collected; a limit of zero is not set. */
  predicate KeepGoing(steps: nat, numSteps: nat, episodes: nat, numEpisodes: nat) {
    !(numEpisodes > 0 && episodes >= numEpisodes) && !(numSteps > 0 && steps >= numSteps)
  }

  /** The first n rollouts of a shelf, which are stored under their numbers. */
  function Shelved(shelf: map<nat, seq<Step>>, n: nat): seq<seq<Step>> {
    if n == 0 then [] else Shelved(shelf, n - 1) + [if n - 1 in shelf then shelf[n - 1] else []]
  }

  lemma {:induction false} ShelvedBelow(shelf: map<nat, seq<Step>>, n: nat, k: nat, rollout: seq<Step>)
    requires n <= k
    ensures Shelved(shelf[k := rollout], n) == Shelved(shelf, n)
  {
    if n > 0 {
      ShelvedBelow(shelf, n - 1, k, rollout);
    }
  }

  class RolloutSaver {
    const outfile: bool
    const useShelve: bool
    var shelf: map<nat, seq<Step>>
    var rollouts: seq<seq<Step>>
    var current: seq<Step>
    var numEpisodes: nat
    var totalSteps: nat

    ghost predicate Valid()
      reads this
    {
      if !outfile then shelf == map[] && rollouts == [] && current == []
      else if useShelve then rollouts == [] && forall i :: i in shelf <==> 0 <= i < numEpisodes
      else shelf == map[] && |rollouts| == numEpisodes
    }

    /** The rollouts saved so far, in order, wherever they are kept. */
    ghost function Saved(): seq<seq<Step>>
      requires Valid()
      reads this
    {
      if outfile && useShelve then Shelved(shelf, numEpisodes) else rollouts
    }

    constructor (outfile: bool, useShelve: bool)
      ensures Valid() && Saved() == [] && current == [] && numEpisodes == 0 && totalSteps == 0
      ensures this.outfile == outfile && this.useShelve == useShelve
    {
      this.outfile, this.useShelve := outfile, useShelve;
      shelf, rollouts, current, numEpisodes, totalSteps := map[], [], [], 0, 0;
    }

    method BeginRollout()
      requires Valid()
      modifies this`current
      ensures Valid() && Saved() == old(Saved()) && current == []
    {
      current := [];
    }

    method EndRollout()
      requires Valid()
      modifies this`shelf, this`rollouts, this`numEpisodes
      ensures Valid() && numEpisodes == old(numEpisodes) + 1
      ensures Saved() == if outfile then old(Saved()) + [current] else []
    {
      if outfile {
        if useShelve {
          ShelvedBelow(shelf, numEpisodes, numEpisodes, current);
          shelf := shelf[numEpisodes := current];
        } else {
          rollouts := rollouts + [current];
        }
      }
      numEpisodes := numEpisodes + 1;
    }

    method AppendStep(step: Step)
      requires Valid()
      modifies this`current, this`totalSteps
      ensures Valid() && totalSteps == old(totalSteps) + 1
      ensures current == if outfile then old(current) + [step] else []
      ensures Saved() == old(Saved())
    {
      if outfile {
        current := current + [step];
      }
      totalSteps := totalSteps + 1;
    }
  }

  // The rollouts that a sequence of steps falls into.

  /** The steps after the last end of an episode. */
  function Open(taken: seq<Step>): seq<Step> {
    if taken == [] then []
    else
      var last := taken[|taken| - 1];
      if last.done then [] else Open(taken[..|taken| - 1]) + [last]
  }

  /** The episodes that have ended. */
  function Closed(taken: seq<Step>): seq<seq<Step>> {
    if taken == [] then []
    else
      var last, front := taken[|taken| - 1], taken[..|taken| - 1];
      if last.done then Closed(front) + [Open(front) + [last]] else Closed(front)
  }

  /** The ended episodes, and the one that was cut short if there is one. */
  function Cuts(taken: seq<Step>): seq<seq<Step>> {
    Closed(taken) + if Open(taken) == [] then [] else [Open(taken)]
  }

  function Flatten(rollouts: seq<seq<Step>>): seq<Step> {
    if rollouts == [] then [] else Flatten(rollouts[..|rollouts| - 1]) + rollouts[|rollouts| - 1]
  }

  /** An episode ends exactly at its last step. */
  ghost predicate Complete(steps: seq<Step>) {
    && steps != [] && steps[|steps| - 1].done
    && forall i :: 0 <= i < |steps| - 1 ==> !steps[i].done
  }

  /** The cuts are the steps taken, in order; every one but possibly the last ends done, and none has
      an end inside it. */
  lemma CutsShape(taken: seq<Step>)
    ensures Flatten(Closed(taken)) + Open(taken) == taken
    ensures forall i :: 0 <= i < |Closed(taken)| ==> Complete(Closed(taken)[i])
    ensures forall i :: 0 <= i < |Open(taken)| ==> !Open(taken)[i].done
  {
    hide *;
    CutsFlatten(taken);
    CutsComplete(taken);
  }

  lemma {:induction false} CutsFlatten(taken: seq<Step>)
    ensures Flatten(Closed(taken)) + Open(taken) == taken
  {
    if taken != [] {
      var last, front := taken[|taken| - 1], taken[..|taken| - 1];
      CutsFlatten(front);
      var one, closed := Open(front) + [last], Flatten(Closed(front));
      assert closed + one == taken by {
        assert closed + one == (closed + Open(front)) + [last] && taken == front + [last];
      }
      if last.done {
        FlattenSnoc(Closed(front), one);
        assert taken + [] == taken;
      }
    }
  }

  lemma {:induction false} CutsComplete(taken: seq<Step>)
    ensures forall i :: 0 <= i < |Closed(taken)| ==> Complete(Closed(taken)[i])
    ensures forall i :: 0 <= i < |Open(taken)| ==> !Open(taken)[i].done
  {
    if taken != [] {
      CutsComplete(taken[..|taken| - 1]);
    }
  }

  lemma FlattenSnoc(rollouts: seq<seq<Step>>, rollout: seq<Step>)
    ensures Flatten(rollouts + [rollout]) == Flatten(rollouts) + rollout
  {
    assert (rollouts + [rollout])[..|rollouts|] == rollouts;
  }

  lemma FlattenCuts(taken: seq<Step>)
    ensures Flatten(Cuts(taken)) == taken
  {
    CutsShape(taken);
    if Open(taken) == [] {
      assert Cuts(taken) == Closed(taken);
    } else {
      assert Cuts(taken)[..|Cuts(taken)| - 1] == Closed(taken);
    }
  }

  lemma CutSnoc(env: seq<Step>, i: nat)
    requires i < |env|
    ensures Open(env[..i + 1]) == if env[i].done then [] else Open(env[..i]) + [env[i]]
    ensures Closed(env[..i + 1]) == if env[i].done then Closed(env[..i]) + [Open(env[..i]) + [env[i]]] else Closed(env[..i])
  {
    assert env[..i + 1][..i] == env[..i];
  }

  lemma CutNone(env: seq<Step>)
    ensures Open(env[..0]) == [] && Closed(env[..0]) == []
  {
  }

  /** Neither limit has been reached; one that is zero is not set. */
  predicate Below(steps: nat, numSteps: nat, episodes: nat, numEpisodes: nat) {
    (numSteps > 0 ==> steps < numSteps) && (numEpisodes > 0 ==> episodes < numEpisodes)
  }

  /** No limit was met before the steps from lo up to hi. */
  ghost predicate NoLimit(env: seq<Step>, lo: nat, hi: nat, numSteps: nat, numEpisodes: nat)
    requires hi <= |env|
  {
    forall k :: lo <= k < hi ==> Below(k, numSteps, |Closed(env[..k])|, numEpisodes)
  }

  lemma NoLimitNone(env: seq<Step>, a: nat, numSteps: nat, numEpisodes: nat)
    requires a <= |env|
    ensures NoLimit(env, a, a, numSteps, numEpisodes)
  {
  }

  lemma NoLimitJoin(env: seq<Step>, a: nat, b: nat, c: nat, numSteps: nat, numEpisodes: nat)
    requires b <= c <= |env| && NoLimit(env, a, b, numSteps, numEpisodes) && NoLimit(env, b, c, numSteps, numEpisodes)
    ensures NoLimit(env, a, c, numSteps, numEpisodes)
  {
  }

  lemma NoLimitSnoc(env: seq<Step>, a: nat, b: nat, numSteps: nat, numEpisodes: nat)
    requires b < |env| && NoLimit(env, a, b, numSteps, numEpisodes)
    requires KeepGoing(b, numSteps, |Closed(env[..b])|, numEpisodes)
    ensures NoLimit(env, a, b + 1, numSteps, numEpisodes)
  {
  }

  /** How the loop ended: a limit was reached, or the environment has not answered further. */
  datatype Ending = LimitReached | Waiting

  /** The inner loop: one rollout, up to the end of the episode or a limit. */
  method RunRollout(saver: RolloutSaver, env: seq<Step>, first: nat, numSteps: nat, episodes: nat, numEpisodes: nat)
    returns (steps: nat, done: bool, ghost taken: seq<Step>)
    requires saver.Valid() && saver.current == [] && first <= |env| && saver.totalSteps == first
    requires Open(env[..first]) == [] && episodes == |Closed(env[..first])|
    requires KeepGoing(first, numSteps, episodes, numEpisodes)
    modifies saver`current, saver`totalSteps
    ensures saver.Valid() && saver.Saved() == old(saver.Saved()) && saver.totalSteps == steps
    ensures saver.outfile ==> saver.current == taken
    ensures first <= steps <= |env| && (numSteps > 0 ==> steps <= numSteps)
    ensures NoLimit(env, first, steps, numSteps, numEpisodes)
    ensures Open(env[..steps]) == if done then [] else taken
    ensures Closed(env[..steps]) == if done then Closed(env[..first]) + [taken] else Closed(env[..first])
    ensures !done && KeepGoing(steps, numSteps, episodes, numEpisodes) ==> steps == |env|
    ensures !done && !KeepGoing(steps, numSteps, episodes, numEpisodes) ==> taken != []
  {
    hide Open, Closed, NoLimit;
    steps, done, taken := first, false, [];
    NoLimitNone(env, first, numSteps, numEpisodes);
    while !done && KeepGoing(steps, numSteps, episodes, numEpisodes) && steps < |env|
      invariant saver.Valid() && first <= steps <= |env| && saver.totalSteps == steps
      invariant saver.Saved() == old(saver.Saved())
      invariant saver.outfile ==> saver.current == taken
      invariant !saver.outfile ==> saver.current == []
      invariant numSteps > 0 ==> steps <= numSteps
      invariant NoLimit(env, first, steps, numSteps, numEpisodes)
      invariant Open(env[..steps]) == if done then [] else taken
      invariant Closed(env[..steps]) == if done then Closed(env[..first]) + [taken] else Closed(env[..first])
      invariant steps > first ==> taken != []
      decreases |env| - steps
    {
      CutSnoc(env, steps);
      NoLimitSnoc(env, first, steps, numSteps, numEpisodes);
      saver.AppendStep(env[steps]);
      taken := taken + [env[steps]];
      done := env[steps].done;
      steps := steps + 1;
    }
  }

  /** Rolls out against the answers of an environment. On exit the saved rollouts are exactly the steps
      taken, cut after each end of an episode, and a limit is met exactly. */
  method Rollout(saver: RolloutSaver, env: seq<Step>, numSteps: nat, numEpisodes: nat)
    returns (steps: nat, episodes: nat, ending: Ending)
    requires saver.Valid() && saver.Saved() == [] && saver.numEpisodes == 0 && saver.totalSteps == 0
    modifies saver
    ensures saver.Valid() && steps <= |env| && saver.totalSteps == steps && episodes == |Closed(env[..steps])|
    ensures (numSteps > 0 ==> steps <= numSteps) && (numEpisodes > 0 ==> episodes <= numEpisodes)
    ensures NoLimit(env, 0, steps, numSteps, numEpisodes)
    ensures ending == LimitReached ==>
      && ((numSteps > 0 && steps == numSteps) || (numEpisodes > 0 && episodes == numEpisodes))
      && saver.numEpisodes == |Cuts(env[..steps])|
      && (saver.outfile ==> saver.Saved() == Cuts(env[..steps]))
    ensures ending == Waiting ==>
      && steps == |env| && (numSteps > 0 ==> steps < numSteps) && (numEpisodes > 0 ==> episodes < numEpisodes)
      && saver.numEpisodes == episodes
      && (saver.outfile ==> saver.Saved() == Closed(env[..steps]) && saver.current == Open(env[..steps]))
  {
    hide Open, Closed, NoLimit;
    steps, episodes := 0, 0;
    CutNone(env);
    NoLimitNone(env, 0, numSteps, numEpisodes);
    while KeepGoing(steps, numSteps, episodes, numEpisodes)
      invariant saver.Valid() && steps <= |env| && saver.totalSteps == steps && episodes == |Closed(env[..steps])|
      invariant (numSteps > 0 ==> steps <= numSteps) && (numEpisodes > 0 ==> episodes <= numEpisodes)
      invariant NoLimit(env, 0, steps, numSteps, numEpisodes)
      invariant saver.numEpisodes == |Cuts(env[..steps])|
      invariant saver.outfile ==> saver.Saved() == Cuts(env[..steps])
      invariant KeepGoing(steps, numSteps, episodes, numEpisodes) ==> Open(env[..steps]) == []
      decreases |env| - steps
    {
      saver.BeginRollout();
      var done;
      ghost var first, taken := steps, [];
      steps, done, taken := RunRollout(saver, env, steps, numSteps, episodes, numEpisodes);
      NoLimitJoin(env, 0, first, steps, numSteps, numEpisodes);
      if !done && KeepGoing(steps, numSteps, episodes, numEpisodes) {
        return steps, episodes, Waiting;
      }
      saver.EndRollout();
      if done {
        episodes := episodes + 1;
      }
      assert steps > first by {
        if steps == first && done {
          assert |Closed(env[..steps])| == |Closed(env[..first])| + 1;
        }
      }
    }
    ending := LimitReached;
  }

  /** What the exit of the loop means for the saved rollouts: every one but possibly the last ends done,
      together they are the steps taken, and the saver counts the ended episodes or one more. */
  lemma ExitShape(taken: seq<Step>)
    ensures Flatten(Cuts(taken)) == taken
    ensures |Cuts(taken)| == |Closed(taken)| || |Cuts(taken)| == |Closed(taken)| + 1
    ensures forall i :: 0 <= i < |Closed(taken)| ==> Complete(Cuts(taken)[i])
    ensures |Cuts(taken)| == |Closed(taken)| <==> taken == [] || taken[|taken| - 1].done
  {
    FlattenCuts(taken);
    CutsShape(taken);
  }
}

/** One training iteration of rllib/algorithms/algorithm.py: the retry and stop machine TrainIterCtx and
    the loop that drives it. */
module TrainIteration {
  import opened Options

  datatype Counters = Counters(envSampled: int, envTrained: int, agentSampled: int, agentTrained: int)

  function Sampled(c: Counters, byAgent: bool): int {
    if byAgent then c.agentSampled else c.envSampled
  }

  function Trained(c: Counters, byAgent: bool): int {
    if byAgent then c.agentTrained else c.envTrained
  }

  /** A minimum of zero means that none is set. */
  datatype Config = Config(byAgent: bool, executionPlan: bool, tolerance: int, minTime: real, minSampled: int, minTrained: int)

  /** One pass through the loop body: a training step with its result, or an error, from which recovery
      recreates some workers or gives up. Both leave the counters and the clock at some value. */
  datatype Attempt =
    | Step(result: Option<nat>, counters: Counters, now: real)
    | Failure(recreated: Option<nat>, counters: Counters, now: real)

  datatype Decision = Stop | Continue | TooManyFailures

  datatype Ending = Done(result: nat, recreated: nat) | GaveUp | RecoveryFailed | Unfinished

  /** The minima that end an iteration. */
  predicate Enough(cfg: Config, sampled: int, trained: int, elapsed: real) {
    && (cfg.minTime == 0.0 || elapsed >= cfg.minTime)
    && (cfg.minSampled == 0 || sampled >= cfg.minSampled)
    && (cfg.minTrained == 0 || trained >= cfg.minTrained)
  }

  class TrainIterCtx {
    const cfg: Config
    const init: Counters
    const start: real
    var failures: int
    var sampled: int
    var trained: int

    constructor (cfg: Config, counters: Counters, now: real)
      ensures failures == -1 && sampled == 0 && trained == 0
      ensures this.cfg == cfg && init == counters && start == now
    {
      this.cfg, init, start := cfg, counters, now;
      failures, sampled, trained := -1, 0, 0;
    }

    /** Without a result a failure is counted; with one the minima decide, except under an execution
        plan, which stops by itself. */
    method ShouldStop(result: Option<nat>, counters: Counters, now: real) returns (d: Decision)
      modifies this
      ensures failures == if result.None? then old(failures) + 1 else old(failures)
      ensures d.TooManyFailures? <==> result.None? && failures > cfg.tolerance
      ensures result.Some? && !cfg.executionPlan ==>
        && (cfg.byAgent ==>
              sampled == counters.agentSampled - init.agentSampled && trained == counters.agentTrained - init.agentTrained)
        && (!cfg.byAgent ==> sampled == counters.envSampled - init.envSampled && trained == counters.envTrained - init.envTrained)
      ensures d.Stop? && !cfg.executionPlan ==>
        && (cfg.minTime == 0.0 || now - start >= cfg.minTime)
        && (cfg.minSampled == 0 || sampled >= cfg.minSampled)
        && (cfg.minTrained == 0 || trained >= cfg.minTrained)
      ensures d.Continue? && result.Some? ==>
        && !cfg.executionPlan
        && ((cfg.minTime != 0.0 && now - start < cfg.minTime)
            || (cfg.minSampled != 0 && sampled < cfg.minSampled) || (cfg.minTrained != 0 && trained < cfg.minTrained))
      ensures d.Stop? ==> result.Some?
    {
      if result.None? {
        failures := failures + 1;
        return if failures > cfg.tolerance then TooManyFailures else Continue;
      } else if !cfg.executionPlan {
        if cfg.byAgent {
          sampled := counters.agentSampled - init.agentSampled;
          trained := counters.agentTrained - init.agentTrained;
        } else {
          sampled := counters.envSampled - init.envSampled;
          trained := counters.envTrained - init.envTrained;
        }
        return if Enough(cfg, sampled, trained, now - start) then Stop else Continue;
      }
      return Stop;
    }
  }

  // The history of a run, told from the attempts made.

  /** The result in hand after some attempts: a failure keeps the one before. */
  function Result(attempts: seq<Attempt>): Option<nat> {
    if attempts == [] then None
    else match attempts[|attempts| - 1]
         case Step(result, _, _) => result
         case Failure(_, _, _) => Result(attempts[..|attempts| - 1])
  }

  function CountersAfter(init: Counters, attempts: seq<Attempt>): Counters {
    if attempts == [] then init else attempts[|attempts| - 1].counters
  }

  function TimeAfter(start: real, attempts: seq<Attempt>): real {
    if attempts == [] then start else attempts[|attempts| - 1].now
  }

  /** Workers recreated over all recoveries. */
  function Recreated(attempts: seq<Attempt>): nat {
    if attempts == [] then 0
    else
      var last := attempts[|attempts| - 1];
      Recreated(attempts[..|attempts| - 1]) + if last.Failure? && last.recreated.Some? then last.recreated.value else 0
  }

  /** How often the loop condition was evaluated without a result in hand. */
  function Empties(attempts: seq<Attempt>): nat {
    (if Result(attempts).None? then 1 else 0) + if attempts == [] then 0 else Empties(attempts[..|attempts| - 1])
  }

  /** The loop goes on after these attempts. */
  ghost predicate GoesOn(cfg: Config, init: Counters, start: real, attempts: seq<Attempt>) {
    match Result(attempts)
    case None => Empties(attempts) <= cfg.tolerance + 1
    case Some(_) => !cfg.executionPlan && !Enough(cfg, Growth(cfg, init, attempts).0, Growth(cfg, init, attempts).1,
                                                 TimeAfter(start, attempts) - start)
  }

  /** Growth of the sampled and trained counts since entry. */
  function Growth(cfg: Config, init: Counters, attempts: seq<Attempt>): (int, int) {
    var c := CountersAfter(init, attempts);
    (Sampled(c, cfg.byAgent) - Sampled(init, cfg.byAgent), Trained(c, cfg.byAgent) - Trained(init, cfg.byAgent))
  }

  /** With a result in hand and no execution plan, the loop goes on exactly while some minimum that is set has
      not been met, told from the clock and the counters of agents or of environments after the last attempt. */
  lemma GoesOnExact(cfg: Config, init: Counters, start: real, attempts: seq<Attempt>)
    requires Result(attempts).Some? && !cfg.executionPlan
    ensures attempts != [] && var last := attempts[|attempts| - 1];
      GoesOn(cfg, init, start, attempts) <==>
        || (cfg.minTime != 0.0 && last.now - start < cfg.minTime)
        || (cfg.minSampled != 0 && (if cfg.byAgent then last.counters.agentSampled - init.agentSampled
                                    else last.counters.envSampled - init.envSampled) < cfg.minSampled)
        || (cfg.minTrained != 0 && (if cfg.byAgent then last.counters.agentTrained - init.agentTrained
                                    else last.counters.envTrained - init.envTrained) < cfg.minTrained)
  {
  }

  /** The result in hand is that of the last step, whatever failed after it. */
  lemma {:induction false} ResultExact(attempts: seq<Attempt>, i: nat)
    ensures (forall k :: 0 <= k < |attempts| ==> attempts[k].Failure?) ==> Result(attempts) == None
    ensures i < |attempts| && attempts[i].Step? && (forall k :: i < k < |attempts| ==> attempts[k].Failure?) ==>
      Result(attempts) == attempts[i].result
  {
    if attempts != [] && attempts[|attempts| - 1].Failure? {
      ResultExact(attempts[..|attempts| - 1], i);
    }
  }

  /** The workers recreated are the sum over all recoveries. */
  lemma {:induction false} RecreatedExact(a: seq<Attempt>, b: seq<Attempt>, last: Attempt)
    ensures Recreated([]) == 0 && Recreated(a + b) == Recreated(a) + Recreated(b)
    ensures last.Step? || last.recreated.None? ==> Recreated([last]) == 0
    ensures last.Failure? && last.recreated.Some? ==> Recreated([last]) == last.recreated.value
  {
    assert [last][..0] == [] && Recreated([last][..0]) == 0;
    if b == [] {
      assert a + b == a;
    } else {
      RecreatedExact(a, b[..|b| - 1], last);
      assert (a + b)[..|a + b| - 1] == a + b[..|b| - 1];
    }
  }

  /** Runs one iteration against a list of attempts, which may end before the iteration does. */
  method RunOneTrainingIteration(cfg: Config, init: Counters, start: real, script: seq<Attempt>)
    returns (ending: Ending, used: nat, sampled: int, trained: int)
    ensures used <= |script|
    ensures forall k :: 0 <= k < used ==> GoesOn(cfg, init, start, script[..k])
    ensures ending.Done? ==>
      && Result(script[..used]) == Some(ending.result) && ending.recreated == Recreated(script[..used])
      && !GoesOn(cfg, init, start, script[..used])
    ensures ending.Done? && !cfg.executionPlan ==>
      && used > 0 && var last := script[used - 1];
      && sampled == (if cfg.byAgent then last.counters.agentSampled - init.agentSampled
                     else last.counters.envSampled - init.envSampled)
      && trained == (if cfg.byAgent then last.counters.agentTrained - init.agentTrained
                     else last.counters.envTrained - init.envTrained)
      && (cfg.minSampled == 0 || sampled >= cfg.minSampled)
      && (cfg.minTrained == 0 || trained >= cfg.minTrained)
      && (cfg.minTime == 0.0 || last.now - start >= cfg.minTime)
    ensures ending.GaveUp? ==>
      Result(script[..used]).None? && Empties(script[..used]) > cfg.tolerance + 1
    ensures ending.RecoveryFailed? ==> used > 0 && script[used - 1].Failure? && script[used - 1].recreated.None?
    ensures forall k :: 0 <= k < used && script[k].Failure? && script[k].recreated.None? ==>
      ending.RecoveryFailed? && k == used - 1
    ensures ending.Unfinished? ==> used == |script| && GoesOn(cfg, init, start, script)
  {
    var ctx := new TrainIterCtx(cfg, init, start);
    var results: Option<nat>, counters, now, recreated := None, init, start, 0;
    used := 0;
    while true
      invariant used <= |script|
      invariant ctx.cfg == cfg && ctx.init == init && ctx.start == start && fresh(ctx)
      invariant results == Result(script[..used]) && counters == CountersAfter(init, script[..used])
      invariant now == TimeAfter(start, script[..used]) && recreated == Recreated(script[..used])
      invariant ctx.failures + 1 + (if results.None? then 1 else 0) == Empties(script[..used])
      invariant forall k :: 0 <= k < used ==> GoesOn(cfg, init, start, script[..k])
      invariant forall k :: 0 <= k < used && script[k].Failure? ==> script[k].recreated.Some?
      decreases |script| - used
    {
      var d := ctx.ShouldStop(results, counters, now);
      sampled, trained := ctx.sampled, ctx.trained;
      if d.TooManyFailures? {
        return GaveUp, used, sampled, trained;
      } else if d.Stop? {
        return Done(results.value, recreated), used, sampled, trained;
      }
      assert GoesOn(cfg, init, start, script[..used]);
      if used == |script| {
        assert script[..used] == script;
        return Unfinished, used, sampled, trained;
      }
      var a := script[used];
      assert script[..used + 1][..used] == script[..used];
      used := used + 1;
      counters, now := a.counters, a.now;
      match a
      case Step(result, _, _) =>
        results := result;
      case Failure(None, _, _) =>
        return RecoveryFailed, used, sampled, trained;
      case Failure(Some(n), _, _) =>
        recreated := recreated + n;
    }
  }

  // How many failures are tolerated.

  ghost predicate NoSuccess(attempts: seq<Attempt>) {
    forall i :: 0 <= i < |attempts| ==> attempts[i].Failure? || attempts[i].result.None?
  }

  /** Before the first success the loop goes on after at most tolerance attempts, so at most
      tolerance + 1 are made. */
  lemma {:induction false} AttemptsBeforeSuccess(cfg: Config, init: Counters, start: real, attempts: seq<Attempt>)
    requires NoSuccess(attempts)
    ensures Result(attempts).None? && Empties(attempts) == |attempts| + 1
    ensures GoesOn(cfg, init, start, attempts) <==> |attempts| <= cfg.tolerance
  {
    if attempts != [] {
      AttemptsBeforeSuccess(cfg, init, start, attempts[..|attempts| - 1]);
    }
  }

  /** Errors keep the result in hand, and count only while there is none. */
  lemma {:induction false} FailuresAppend(before: seq<Attempt>, failures: seq<Attempt>)
    requires forall i :: 0 <= i < |failures| ==> failures[i].Failure?
    ensures Result(before + failures) == Result(before)
    ensures Empties(before + failures) == Empties(before) + if Result(before).None? then |failures| else 0
  {
    if failures == [] {
      assert before + failures == before;
    } else {
      var all, n := before + failures, |failures| - 1;
      assert all[..|all| - 1] == before + failures[..n];
      FailuresAppend(before, failures[..n]);
    }
  }

  /** The minima are met after these attempts. */
  ghost predicate EnoughAfter(cfg: Config, init: Counters, start: real, attempts: seq<Attempt>) {
    var (sampled, trained) := Growth(cfg, init, attempts);
    Enough(cfg, sampled, trained, TimeAfter(start, attempts) - start)
  }

  /** Exactly when more consecutive failures than tolerated end the loop: when there was no success before
      them, or when the iteration is complete anyway. */
  lemma ToleranceExact(cfg: Config, init: Counters, start: real, before: seq<Attempt>, failures: seq<Attempt>)
    requires |failures| > cfg.tolerance >= 0 && forall i :: 0 <= i < |failures| ==> failures[i].Failure?
    ensures !GoesOn(cfg, init, start, before + failures) <==>
      Result(before).None? || cfg.executionPlan || EnoughAfter(cfg, init, start, before + failures)
  {
    FailuresAppend(before, failures);
    EmptiesPositive(before);
  }

  lemma EmptiesPositive(attempts: seq<Attempt>)
    ensures Result(attempts).None? ==> Empties(attempts) >= 1
  {
  }

  /** One success, then two failures in a row with a tolerance of zero, and the loop goes on. */
  lemma ToleranceMissed()
    ensures
      var cfg := Config(false, false, 0, 0.0, 10, 0);
      var none := Counters(0, 0, 0, 0);
      var failure := Failure(Some(0), Counters(5, 5, 5, 5), 1.0);
      var attempts := [Step(Some(7), Counters(5, 5, 5, 5), 1.0), failure, failure];
      && GoesOn(cfg, none, 0.0, attempts[..0]) && GoesOn(cfg, none, 0.0, attempts[..1])
      && GoesOn(cfg, none, 0.0, attempts[..2]) && GoesOn(cfg, none, 0.0, attempts)
  {
    var cfg := Config(false, false, 0, 0.0, 10, 0);
    var none := Counters(0, 0, 0, 0);
    var failure := Failure(Some(0), Counters(5, 5, 5, 5), 1.0);
    var success := [Step(Some(7), Counters(5, 5, 5, 5), 1.0)];
    var attempts := success + [failure, failure];
    assert attempts == [success[0], failure, failure];
    assert attempts[..0] == [] && attempts[..1] == success && attempts[..2] == success + [failure];
    FailuresAppend(success, [failure]);
    FailuresAppend(success, [failure, failure]);
    ToleranceExact(cfg, none, 0.0, success, [failure, failure]);
  }
}

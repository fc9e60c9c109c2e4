/** The evaluation rounds of rllib/algorithms/algorithm.py with remote workers that are waited for:
    Algorithm.evaluate and the fragment length that setup configures for it. */
module SyncEvaluation {
  import opened Options

  datatype Unit = Episodes | Timesteps

  function CeilDiv(a: nat, b: nat): nat
    requires b > 0
  {
    (a + b - 1) / b
  }

  /** The rollout fragment length that setup chooses for a fixed duration. */
  function FragmentLength(unit: Unit, duration: nat, workers: nat): nat {
    match unit
    case Episodes => 1
    case Timesteps => CeilDiv(duration, if workers == 0 then 1 else workers)
  }

  /** The units that one full batch of one worker counts for. */
  function BatchUnits(unit: Unit, rollout: nat, envs: nat): nat {
    match unit
    case Episodes => 1
    case Timesteps => rollout * envs
  }

  // Ceiling arithmetic.

  lemma CeilDivBounds(a: nat, b: nat)
    requires b > 0
    ensures a <= CeilDiv(a, b) * b < a + b
  {
    var c := a + b - 1;
    assert c == b * (c / b) + c % b;
  }

  lemma {:induction false} MulMonotone(a: nat, b: nat, c: nat)
    ensures a <= b ==> a * c <= b * c
    ensures a < b ==> a * c + c <= b * c
  {
    if a < b {
      MulMonotone(a, b - 1, c);
      assert b * c == (b - 1) * c + c;
    }
  }

  /** The ceiling is the only multiplier with these bounds. */
  lemma CeilDivUnique(a: nat, b: nat, q: nat)
    requires b > 0 && a <= q * b < a + b
    ensures CeilDiv(a, b) == q
  {
    hide CeilDiv;
    CeilDivBounds(a, b);
    MulMonotone(CeilDiv(a, b), q, b);
    MulMonotone(q, CeilDiv(a, b), b);
  }

  lemma CeilDivPositive(a: nat, b: nat)
    requires b > 0
    ensures CeilDiv(a, b) > 0 <==> a > 0
    ensures a <= b ==> CeilDiv(a, b) <= 1
  {
    hide CeilDiv;
    CeilDivBounds(a, b);
    MulMonotone(1, CeilDiv(a, b), b);
  }

  /** Fragments are as short as they can be: together the workers make up the duration, and with fragments
      shorter by one they would not. An evaluation by episodes samples one at a time. */
  lemma FragmentLeast(duration: nat, workers: nat)
    ensures FragmentLength(Episodes, duration, workers) == 1
    ensures workers > 0 ==> duration <= FragmentLength(Timesteps, duration, workers) * workers < duration + workers
    ensures FragmentLength(Timesteps, duration, 0) == duration
  {
    hide CeilDiv;
    if workers > 0 {
      CeilDivBounds(duration, workers);
    }
    CeilDivBounds(duration, 1);
  }

  /** Workers asked in one round with so many units left: those whose index times the batch size is
      below the units left. */
  function Asked(left: nat, n: nat, u: nat): nat {
    if n == 0 then 0 else Asked(left, n - 1, u) + if (n - 1) * u < left then 1 else 0
  }

  lemma {:induction false} AskedIsMinimum(left: nat, n: nat, u: nat)
    requires u > 0
    ensures Asked(left, n, u) == if n <= CeilDiv(left, u) then n else CeilDiv(left, u)
  {
    hide CeilDiv;
    if n > 0 {
      AskedIsMinimum(left, n - 1, u);
      CeilDivBounds(left, u);
      MulMonotone(n - 1, CeilDiv(left, u), u);
      MulMonotone(CeilDiv(left, u), n - 1, u);
    }
  }

  /** Units still to do before and after a round in which every asked worker returns a full batch. */
  lemma RoundLeft(duration: nat, done: nat, n: nat, u: nat, k: nat)
    requires u > 0 && done == k * u && done < duration
    ensures k < CeilDiv(duration, u)
    ensures Asked(duration - done, n, u)
         == if k + n <= CeilDiv(duration, u) then n else CeilDiv(duration, u) - k
  {
    hide CeilDiv;
    var left := duration - done;
    var q := CeilDiv(left, u);
    CeilDivBounds(left, u);
    assert (q + k) * u == q * u + k * u;
    CeilDivUnique(duration, u, q + k);
    CeilDivPositive(left, u);
    AskedIsMinimum(left, n, u);
  }

  /** The workers asked in one round are counted off by index. */
  method CountAsked(left: nat, n: nat, u: nat) returns (count: nat)
    ensures count == Asked(left, n, u)
  {
    count := 0;
    for i := 0 to n
      invariant count == Asked(left, i, u)
    {
      if i * u < left {
        count := count + 1;
      }
    }
  }

  // Rounds with batches of any size.

  function Sum(units: seq<nat>): nat {
    if units == [] then 0 else Sum(units[..|units| - 1]) + units[|units| - 1]
  }

  function Min(a: nat, b: nat): nat {
    if a <= b then a else b
  }

  /** The units done after some rounds, each a list of the units that the workers' batches count for. */
  function Done(duration: nat, n: nat, u: nat, rounds: seq<seq<nat>>): nat {
    if rounds == [] then 0
    else
      var before := Done(duration, n, u, rounds[..|rounds| - 1]);
      if before >= duration then before else before + RoundUnits(duration - before, n, u, rounds[|rounds| - 1])
  }

  /** What the workers that are asked return in one round. */
  function RoundUnits(left: nat, n: nat, u: nat, units: seq<nat>): nat {
    Sum(units[..Min(Asked(left, n, u), |units|)])
  }

  ghost predicate AtMost(rounds: seq<seq<nat>>, u: nat) {
    forall k, i :: 0 <= k < |rounds| && 0 <= i < |rounds[k]| ==> rounds[k][i] <= u
  }

  /** All workers are there in every round and return full batches. */
  ghost predicate Full(rounds: seq<seq<nat>>, n: nat, u: nat) {
    forall k :: 0 <= k < |rounds| ==> |rounds[k]| == n && forall i :: 0 <= i < n ==> rounds[k][i] == u
  }

  /** Sums add up. */
  lemma {:induction false} SumExact(a: seq<nat>, b: seq<nat>, x: nat)
    ensures Sum([]) == 0 && Sum([x]) == x && Sum(a + b) == Sum(a) + Sum(b)
  {
    assert [x][..0] == [] && Sum([x]) == Sum([x][..0]) + x;
    if b == [] {
      assert a + b == a;
    } else {
      SumExact(a, b[..|b| - 1], x);
      assert (a + b)[..|a + b| - 1] == a + b[..|b| - 1];
    }
  }

  lemma {:induction false} SumAtMost(units: seq<nat>, u: nat)
    requires forall i :: 0 <= i < |units| ==> units[i] <= u
    ensures Sum(units) <= |units| * u
    ensures (forall i :: 0 <= i < |units| ==> units[i] == u) ==> Sum(units) == |units| * u
  {
    if units != [] {
      SumAtMost(units[..|units| - 1], u);
      assert |units| * u == (|units| - 1) * u + u;
    }
  }

  lemma RoundAtMost(left: nat, n: nat, u: nat, units: seq<nat>)
    requires u > 0 && left > 0 && forall i :: 0 <= i < |units| ==> units[i] <= u
    ensures RoundUnits(left, n, u, units) < left + u
  {
    hide CeilDiv;
    var asked := Min(Asked(left, n, u), |units|);
    SumAtMost(units[..asked], u);
    AskedIsMinimum(left, n, u);
    CeilDivBounds(left, u);
    MulMonotone(asked, CeilDiv(left, u), u);
  }

  /** No batch larger than u: the duration is overshot by less than u, in every run. */
  lemma {:induction false} Overshoot(duration: nat, n: nat, u: nat, rounds: seq<seq<nat>>)
    requires u > 0 && AtMost(rounds, u)
    ensures Done(duration, n, u, rounds) < duration + u
  {
    hide RoundUnits;
    if rounds != [] {
      var front := rounds[..|rounds| - 1];
      Overshoot(duration, n, u, front);
      var before := Done(duration, n, u, front);
      if before < duration {
        RoundAtMost(duration - before, n, u, rounds[|rounds| - 1]);
      }
    }
  }

  /** Full batches only: after k rounds exactly k * n batches are done, or as many as the duration needs. */
  lemma {:induction false} FullRounds(duration: nat, n: nat, u: nat, rounds: seq<seq<nat>>)
    requires n > 0 && u > 0 && Full(rounds, n, u)
    ensures Done(duration, n, u, rounds) == Min(|rounds| * n, CeilDiv(duration, u)) * u
  {
    hide CeilDiv, RoundUnits;
    if rounds != [] {
      var k := |rounds| - 1;
      FullRounds(duration, n, u, rounds[..k]);
      var need := CeilDiv(duration, u);
      var batches := Min(k * n, need);
      assert |rounds| * n == k * n + n;
      CeilDivBounds(duration, u);
      if batches * u < duration {
        MulMonotone(need, batches, u);
        FullRound(duration, batches, n, u, rounds[k]);
      } else {
        EnoughBatches(duration, u, batches);
      }
    } else {
      assert Min(0 * n, CeilDiv(duration, u)) == 0;
    }
  }

  lemma FullRound(duration: nat, batches: nat, n: nat, u: nat, units: seq<nat>)
    requires u > 0 && batches * u < duration && |units| == n && forall i :: 0 <= i < n ==> units[i] == u
    ensures batches * u + RoundUnits(duration - batches * u, n, u, units) == Min(batches + n, CeilDiv(duration, u)) * u
  {
    hide CeilDiv, Asked;
    RoundLeft(duration, batches * u, n, u, batches);
    var asked := Asked(duration - batches * u, n, u);
    SumAtMost(units[..asked], u);
    assert (batches + asked) * u == batches * u + asked * u;
  }

  /** How an evaluation ended: the duration was reached, a round timed out, or the workers have not answered
      further. */
  datatype Ending = Reached | TimedOut | Waiting

  /** Runs rounds against the answers of the workers, where a missing answer is a timeout. */
  method EvaluateRemote(duration: nat, n: nat, u: nat, answers: seq<Option<seq<nat>>>)
    returns (done: nat, rounds: nat, ending: Ending)
    ensures rounds <= |answers| && forall k :: 0 <= k < rounds ==> answers[k].Some?
    ensures done == Done(duration, n, u, Given(answers[..rounds]))
    ensures ending == Reached <==> done >= duration
    ensures forall k :: 0 <= k < rounds ==> Done(duration, n, u, Given(answers[..k])) < duration
    ensures ending == TimedOut ==> rounds < |answers| && answers[rounds].None?
    ensures ending == Waiting ==> rounds == |answers|
  {
    hide Asked, Done, Given, Sum;
    done, rounds := 0, 0;
    DoneNone(duration, n, u, answers);
    while done < duration
      invariant rounds <= |answers| && forall k :: 0 <= k < rounds ==> answers[k].Some?
      invariant done == Done(duration, n, u, Given(answers[..rounds]))
      invariant forall k :: 0 <= k < rounds ==> Done(duration, n, u, Given(answers[..k])) < duration
      decreases |answers| - rounds
    {
      if rounds == |answers| {
        return done, rounds, Waiting;
      }
      if answers[rounds].None? {
        return done, rounds, TimedOut;
      }
      var count := CountAsked(duration - done, n, u);
      var units := AddUp(answers[rounds].value, count);
      DoneStep(duration, n, u, answers, rounds);
      done, rounds := done + units, rounds + 1;
    }
    ending := Reached;
  }

  /** The answers that arrived. */
  function Given(answers: seq<Option<seq<nat>>>): seq<seq<nat>> {
    if answers == [] then []
    else
      var last := answers[|answers| - 1];
      Given(answers[..|answers| - 1]) + [if last.Some? then last.value else []]
  }

  lemma GivenSnoc(answers: seq<Option<seq<nat>>>, k: nat)
    requires k < |answers| && answers[k].Some?
    ensures Given(answers[..k + 1]) == Given(answers[..k]) + [answers[k].value]
    ensures Given(answers[..k + 1])[..|Given(answers[..k + 1])| - 1] == Given(answers[..k])
  {
    assert answers[..k + 1][..k] == answers[..k];
  }

  lemma DoneNone(duration: nat, n: nat, u: nat, answers: seq<Option<seq<nat>>>)
    ensures Done(duration, n, u, Given(answers[..0])) == 0
  {
  }

  lemma DoneStep(duration: nat, n: nat, u: nat, answers: seq<Option<seq<nat>>>, k: nat)
    requires k < |answers| && answers[k].Some? && Done(duration, n, u, Given(answers[..k])) < duration
    ensures var done := Done(duration, n, u, Given(answers[..k]));
      Done(duration, n, u, Given(answers[..k + 1])) == done + RoundUnits(duration - done, n, u, answers[k].value)
  {
    hide RoundUnits, Given;
    GivenSnoc(answers, k);
  }

  method AddUp(units: seq<nat>, count: nat) returns (sum: nat)
    ensures sum == Sum(units[..Min(count, |units|)])
  {
    sum := 0;
    for i := 0 to Min(count, |units|)
      invariant sum == Sum(units[..i])
    {
      assert units[..i + 1][..i] == units[..i];
      sum := sum + units[i];
    }
  }

  // The evaluation as setup configures it.

  lemma {:induction false} GivenAt(answers: seq<Option<seq<nat>>>)
    requires forall k :: 0 <= k < |answers| ==> answers[k].Some?
    ensures |Given(answers)| == |answers| && forall k :: 0 <= k < |answers| ==> Given(answers)[k] == answers[k].value
  {
    if answers != [] {
      GivenAt(answers[..|answers| - 1]);
    }
  }

  /** With full batches the duration is reached in as few rounds as n workers allow, and not before. */
  lemma FewestRounds(duration: nat, n: nat, u: nat, rounds: seq<seq<nat>>)
    requires n > 0 && u > 0 && Full(rounds, n, u) && Done(duration, n, u, rounds) >= duration
    requires rounds != [] ==> Done(duration, n, u, rounds[..|rounds| - 1]) < duration
    ensures |rounds| == CeilDiv(CeilDiv(duration, u), n)
  {
    hide CeilDiv, Done;
    var need, k := CeilDiv(duration, u), |rounds|;
    CeilDivBounds(duration, u);
    CeilDivPositive(duration, u);
    FullRounds(duration, n, u, rounds);
    EnoughBatches(duration, u, Min(k * n, need));
    if k > 0 {
      FullRounds(duration, n, u, rounds[..k - 1]);
      assert k * n == (k - 1) * n + n;
    } else {
      assert k * n == 0;
    }
    CeilDivUnique(need, n, k);
  }

  lemma EnoughBatches(duration: nat, u: nat, batches: nat)
    requires u > 0
    ensures batches * u >= duration ==> batches >= CeilDiv(duration, u)
  {
    hide CeilDiv;
    CeilDivBounds(duration, u);
    MulMonotone(batches + 1, CeilDiv(duration, u), u);
    assert (batches + 1) * u == batches * u + u;
  }

  /** What an answer counts for: a batch is one episode, or so many steps. */
  function UnitsOf(unit: Unit, steps: Option<seq<nat>>): Option<seq<nat>> {
    match steps
    case None => None
    case Some(s) => Some(if unit == Episodes then seq(|s|, _ => 1) else s)
  }

  /** The answers up to here arrived, with a batch of every worker. */
  ghost predicate Complete(answers: seq<Option<seq<nat>>>, n: nat, rounds: nat) {
    rounds <= |answers| && forall k :: 0 <= k < rounds ==> answers[k].Some? && |answers[k].value| == n
  }

  /** No batch counts for more than u. */
  ghost predicate Capped(answers: seq<Option<seq<nat>>>, u: nat) {
    forall k :: 0 <= k < |answers| && answers[k].Some? ==> forall i :: 0 <= i < |answers[k].value| ==> answers[k].value[i] <= u
  }

  /** Every batch counts for exactly u. */
  ghost predicate AllFull(answers: seq<Option<seq<nat>>>, u: nat) {
    forall k :: 0 <= k < |answers| && answers[k].Some? ==> forall i :: 0 <= i < |answers[k].value| ==> answers[k].value[i] == u
  }

  lemma CappedOutcome(duration: nat, n: nat, u: nat, answers: seq<Option<seq<nat>>>, rounds: nat)
    requires u > 0 && Complete(answers, n, rounds) && Capped(answers, u)
    ensures Done(duration, n, u, Given(answers[..rounds])) < duration + u
  {
    hide Done, Given;
    GivenAt(answers[..rounds]);
    Overshoot(duration, n, u, Given(answers[..rounds]));
  }

  lemma FullOutcome(duration: nat, n: nat, u: nat, answers: seq<Option<seq<nat>>>, rounds: nat)
    requires n > 0 && u > 0 && Complete(answers, n, rounds) && AllFull(answers, u)
    requires forall k :: 0 <= k < rounds ==> Done(duration, n, u, Given(answers[..k])) < duration
    ensures var done := Done(duration, n, u, Given(answers[..rounds]));
      && done == Min(rounds * n, CeilDiv(duration, u)) * u
      && (done >= duration ==> rounds == CeilDiv(CeilDiv(duration, u), n))
  {
    hide Done, CeilDiv;
    var given := Given(answers[..rounds]);
    GivenAt(answers[..rounds]);
    FullRounds(duration, n, u, given);
    if Done(duration, n, u, given) >= duration {
      if rounds > 0 {
        GivenSnoc(answers, rounds - 1);
        assert Done(duration, n, u, given[..rounds - 1]) < duration;
      }
      FewestRounds(duration, n, u, given);
    }
  }

  /** If the batches needed fit in one round, any number of full rounds reaches the duration. */
  lemma OneRoundReaches(duration: nat, n: nat, u: nat, rounds: nat)
    requires n > 0 && u > 0 && rounds >= 1 && CeilDiv(CeilDiv(duration, u), n) == 1
    ensures Min(rounds * n, CeilDiv(duration, u)) * u >= duration
  {
    hide CeilDiv;
    CeilDivBounds(CeilDiv(duration, u), n);
    CeilDivBounds(duration, u);
    MulMonotone(1, rounds, n);
  }

  lemma CeilDivOne(a: nat)
    ensures CeilDiv(a, 1) == a
  {
  }

  method CountUnits(unit: Unit, answers: seq<Option<seq<nat>>>) returns (units: seq<Option<seq<nat>>>)
    ensures |units| == |answers| && forall k :: 0 <= k < |answers| ==> units[k] == UnitsOf(unit, answers[k])
  {
    units := [];
    for k := 0 to |answers|
      invariant |units| == k && forall j :: 0 <= j < k ==> units[j] == UnitsOf(unit, answers[j])
    {
      units := units + [UnitsOf(unit, answers[k])];
    }
  }

  /** One evaluation as setup configures it, against the steps of the workers' batches. Episodes are never
      overshot, whatever the batches hold, and take ceil(duration / n) rounds. In timesteps batches of at
      most the configured size overshoot by less than one of them, and with full batches one round suffices. */
  method Evaluate(unit: Unit, duration: nat, n: nat, envs: nat, answers: seq<Option<seq<nat>>>)
    returns (done: nat, rounds: nat, ending: Ending)
    requires duration > 0 && n > 0 && envs > 0
    requires forall k :: 0 <= k < |answers| && answers[k].Some? ==> |answers[k].value| == n
    ensures ending == Reached <==> done >= duration
    ensures ending == TimedOut ==> rounds < |answers| && answers[rounds].None?
    ensures ending == Waiting ==> rounds == |answers|
    ensures unit == Episodes ==> done == Min(rounds * n, duration) && (ending == Reached ==> rounds == CeilDiv(duration, n))
    ensures rounds <= |answers|
    ensures unit == Timesteps ==> done == Done(duration, n, FragmentLength(unit, duration, n) * envs, Given(answers[..rounds]))
    ensures unit == Timesteps && Capped(answers, FragmentLength(unit, duration, n) * envs) ==>
      done < duration + FragmentLength(unit, duration, n) * envs
    ensures unit == Timesteps && AllFull(answers, FragmentLength(unit, duration, n) * envs) && answers != [] && answers[0].Some? ==>
      ending == Reached && rounds == 1
  {
    hide CeilDiv, Done, Given;
    var u := BatchUnits(unit, FragmentLength(unit, duration, n), envs);
    OneRoundEnough(duration, n, envs);
    var units := CountUnits(unit, answers);
    done, rounds, ending := EvaluateRemote(duration, n, u, units);
    if unit == Episodes {
      assert AllFull(units, 1);
      FullOutcome(duration, n, 1, units, rounds);
      CeilDivOne(duration);
    } else {
      assert units == answers;
      if Capped(answers, u) {
        CappedOutcome(duration, n, u, answers, rounds);
      }
      if AllFull(answers, u) && answers != [] && answers[0].Some? {
        FullOutcome(duration, n, u, answers, rounds);
        DoneNone(duration, n, u, answers);
        if rounds > 0 {
          OneRoundReaches(duration, n, u, rounds);
        }
      }
    }
  }

  /** The configured fragment length makes the batches of all workers together reach the duration. */
  lemma OneRoundEnough(duration: nat, n: nat, envs: nat)
    requires duration > 0 && n > 0 && envs > 0
    ensures var u := BatchUnits(Timesteps, FragmentLength(Timesteps, duration, n), envs);
      u > 0 && CeilDiv(CeilDiv(duration, u), n) == 1
  {
    hide CeilDiv;
    var rollout := FragmentLength(Timesteps, duration, n);
    CeilDivBounds(duration, n);
    CeilDivPositive(duration, n);
    var u := rollout * envs;
    MulMonotone(1, envs, rollout);
    MulMonotone(rollout, u, n);
    CeilDivBounds(duration, u);
    var q := CeilDiv(duration, u);
    MulMonotone(n, q, u);
    CeilDivPositive(duration, u);
    CeilDivPositive(q, n);
  }
}

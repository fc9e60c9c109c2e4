/** Asynchronous evaluation in rllib: Algorithm._evaluate_async, the request manager of
    rllib/execution/parallel_requests.py with one request in flight per worker, and the weight
    update of a rollout worker, which is skipped when its sequence number has not changed. */
module AsyncEvaluation {
  import opened Options
  import opened Sequences
  import opened Sorting
  import opened SyncEvaluation

  datatype Weights = Weights(blob: string)

  /** One evaluation: the weights it publishes, how long it lasts, when its requests finish, and how workers
      are recovered if some failed. Without a recovery their error is raised. */
  datatype Plan = Plan(weights: Weights, unit: Unit, duration: nat, u: nat, schedule: seq<seq<Ready>>, recovery: Option<Recovery>)

  /** The workers that recovery finds unhealthy, and how many new ones it creates. */
  datatype Recovery = Recovery(removed: set<nat>, added: nat)

  /** What a worker holds: the weights, and the sequence number they came with. */
  datatype Held = Held(weights: Weights, seqNo: Option<nat>)

  /** How a pending request of a worker ends: with a batch of so many steps, or with an error. */
  datatype Ready = Ready(worker: nat, steps: Option<nat>)

  /** A batch that was counted, with the weights it was sampled under. */
  datatype Counted = Counted(weights: Weights, seqNo: nat, steps: nat)

  /** A worker takes over weights only if their sequence number differs from the one it has. */
  function SetWeights(h: Held, weights: Weights, seqNo: nat): Held {
    Held(if h.seqNo != Some(seqNo) then weights else h.weights, Some(seqNo))
  }

  function Units(unit: Unit, counted: seq<Counted>): nat {
    match unit
    case Episodes => |counted|
    case Timesteps => Steps(counted)
  }

  function Steps(counted: seq<Counted>): nat {
    if counted == [] then 0 else Steps(counted[..|counted| - 1]) + counted[|counted| - 1].steps
  }

  /** No counted batch has more steps than u. */
  ghost predicate Capped(counted: seq<Counted>, u: nat) {
    forall i :: 0 <= i < |counted| ==> counted[i].steps <= u
  }

  lemma {:induction false} CappedSteps(counted: seq<Counted>, u: nat)
    requires Capped(counted, u)
    ensures Steps(counted) <= |counted| * u
  {
    if counted != [] {
      CappedSteps(counted[..|counted| - 1], u);
      assert |counted| * u == (|counted| - 1) * u + u;
    }
  }

  /** Every counted batch was sampled under the given weights, published with the given number. */
  ghost predicate SampledUnder(counted: seq<Counted>, weights: Weights, seqNo: nat) {
    forall i :: 0 <= i < |counted| ==> counted[i].weights == weights && counted[i].seqNo == seqNo
  }

  // What one evaluation does to the requests in flight, given the order in which requests finish.

  /** The requests in flight after every idle worker was sent one with the current number. */
  function Sent(inFlight: map<nat, nat>, workers: seq<nat>, current: nat): map<nat, nat> {
    map w | w in inFlight.Keys + (set x | x in workers) :: if w in inFlight then inFlight[w] else current
  }

  lemma SentStep(inFlight: map<nat, nat>, workers: seq<nat>, w: nat, current: nat)
    ensures var sent := Sent(inFlight, workers, current);
      Sent(inFlight, workers + [w], current) == if w in sent then sent else sent[w := current]
  {
    assert (set x | x in workers + [w]) == (set x | x in workers) + {w};
  }

  /** Idle workers get a request with the current number, and requests in flight stay. */
  lemma SentExact(inFlight: map<nat, nat>, workers: seq<nat>, current: nat)
    ensures var sent := Sent(inFlight, workers, current);
      && (forall w :: w in sent <==> w in inFlight || w in workers)
      && (forall w :: w in sent ==> sent[w] == if w in inFlight then inFlight[w] else current)
  {
  }

  lemma SentNone(inFlight: map<nat, nat>, current: nat)
    ensures Sent(inFlight, [], current) == inFlight
  {
    var none: seq<nat> := [];
    assert (set x | x in none) == {};
  }

  function Landed(inFlight: map<nat, nat>, ready: seq<Ready>): map<nat, nat> {
    if ready == [] then inFlight else Landed(inFlight - {ready[0].worker}, ready[1..])
  }

  /** The workers left after those whose request failed were removed. */
  function Surviving(workers: seq<nat>, inFlight: map<nat, nat>, ready: seq<Ready>): seq<nat>
    decreases |ready|
  {
    if ready == [] then workers
    else
      var w := ready[0].worker;
      Surviving(if w in inFlight && ready[0].steps.None? then Without(workers, w) else workers,
                inFlight - {w}, ready[1..])
  }

  /** The batches that count in one round: those with the current number whose place, counting every
      finished request, times the batch size is below the units left. */
  function Counting(inFlight: map<nat, nat>, ready: seq<Ready>, i: nat, current: nat, weights: Weights, left: nat, u: nat)
    : seq<Counted>
    decreases |ready|
  {
    if ready == [] then []
    else
      var w := ready[0].worker;
      var place := if w in inFlight then i + 1 else i;
      var rest := Counting(inFlight - {w}, ready[1..], place, current, weights, left, u);
      if w in inFlight && ready[0].steps.Some? && inFlight[w] == current && i * u < left
      then [Counted(weights, current, ready[0].steps.value)] + rest
      else rest
  }

  /** The number of requests that failed in one round. */
  function Failing(inFlight: map<nat, nat>, ready: seq<Ready>): nat {
    if ready == [] then 0
    else
      var w := ready[0].worker;
      Failing(inFlight - {w}, ready[1..]) + if w in inFlight && ready[0].steps.None? then 1 else 0
  }

  // The same told by positions.

  /** The request that is ready at position i is one in flight: a worker's first occurrence. */
  ghost predicate Live(inFlight: map<nat, nat>, ready: seq<Ready>, i: nat)
    requires i < |ready|
  {
    ready[i].worker in inFlight && forall j :: 0 <= j < i ==> ready[j].worker != ready[i].worker
  }

  /** How many requests finished before position i. */
  ghost function LiveBefore(inFlight: map<nat, nat>, ready: seq<Ready>, i: nat): nat
    requires i <= |ready|
  {
    if i == 0 then 0 else LiveBefore(inFlight, ready, i - 1) + if Live(inFlight, ready, i - 1) then 1 else 0
  }

  /** The request at position i counts: it succeeded with the current number, and the batches of those that
      finished before it, at full size, do not make up the units left. */
  ghost predicate Counts(inFlight: map<nat, nat>, ready: seq<Ready>, i: nat, first: nat, current: nat, left: nat, u: nat)
    requires i < |ready|
  {
    && Live(inFlight, ready, i) && ready[i].steps.Some? && inFlight[ready[i].worker] == current
    && (first + LiveBefore(inFlight, ready, i)) * u < left
  }

  /** The batches of the positions before k that count, in order. */
  ghost function Picked(inFlight: map<nat, nat>, ready: seq<Ready>, k: nat, first: nat, current: nat, weights: Weights,
                        left: nat, u: nat): seq<Counted>
    requires k <= |ready|
  {
    if k == 0 then []
    else Picked(inFlight, ready, k - 1, first, current, weights, left, u)
         + if Counts(inFlight, ready, k - 1, first, current, left, u)
           then [Counted(weights, current, ready[k - 1].steps.value)] else []
  }

  /** How many requests failed before position k. */
  ghost function FailedBefore(inFlight: map<nat, nat>, ready: seq<Ready>, k: nat): nat
    requires k <= |ready|
  {
    if k == 0 then 0
    else FailedBefore(inFlight, ready, k - 1) + if Live(inFlight, ready, k - 1) && ready[k - 1].steps.None? then 1 else 0
  }

  lemma LiveShift(inFlight: map<nat, nat>, ready: seq<Ready>, i: nat)
    requires i + 1 < |ready|
    ensures Live(inFlight, ready, i + 1) <==> Live(inFlight - {ready[0].worker}, ready[1..], i)
  {
    var rest := ready[1..];
    assert forall j :: 0 <= j < |rest| ==> rest[j] == ready[j + 1];
    if forall j :: 0 <= j < i ==> rest[j].worker != rest[i].worker {
      forall j | 0 < j < i + 1
        ensures ready[j].worker != ready[i + 1].worker
      {
        assert rest[j - 1].worker != rest[i].worker;
      }
    }
  }

  lemma {:induction false} BeforeShift(inFlight: map<nat, nat>, ready: seq<Ready>, i: nat)
    requires i < |ready|
    ensures var rest, inFlight' := ready[1..], inFlight - {ready[0].worker};
      && LiveBefore(inFlight, ready, i + 1)
         == LiveBefore(inFlight', rest, i) + (if ready[0].worker in inFlight then 1 else 0)
      && FailedBefore(inFlight, ready, i + 1)
         == FailedBefore(inFlight', rest, i) + if ready[0].worker in inFlight && ready[0].steps.None? then 1 else 0
  {
    hide Live;
    if i == 0 {
      LiveFirst(inFlight, ready);
    } else {
      BeforeShift(inFlight, ready, i - 1);
      LiveShift(inFlight, ready, i - 1);
    }
  }

  lemma LiveFirst(inFlight: map<nat, nat>, ready: seq<Ready>)
    requires ready != []
    ensures Live(inFlight, ready, 0) <==> ready[0].worker in inFlight
  {
  }

  lemma {:induction false} PickedShift(inFlight: map<nat, nat>, ready: seq<Ready>, k: nat, first: nat, current: nat, weights: Weights,
                                       left: nat, u: nat)
    requires k < |ready|
    ensures var w := ready[0].worker;
      var place := if w in inFlight then first + 1 else first;
      var here := if w in inFlight && ready[0].steps.Some? && inFlight[w] == current && first * u < left
                  then [Counted(weights, current, ready[0].steps.value)] else [];
      Picked(inFlight, ready, k + 1, first, current, weights, left, u)
      == here + Picked(inFlight - {w}, ready[1..], k, place, current, weights, left, u)
  {
    hide Live;
    LiveFirst(inFlight, ready);
    if k > 0 {
      PickedShift(inFlight, ready, k - 1, first, current, weights, left, u);
      CountsShift(inFlight, ready, k - 1, first, current, left, u);
    }
  }

  lemma CountsShift(inFlight: map<nat, nat>, ready: seq<Ready>, i: nat, first: nat, current: nat, left: nat, u: nat)
    requires i + 1 < |ready|
    ensures var w := ready[0].worker;
      Counts(inFlight, ready, i + 1, first, current, left, u)
      <==> Counts(inFlight - {w}, ready[1..], i, if w in inFlight then first + 1 else first, current, left, u)
  {
    LiveShift(inFlight, ready, i);
    BeforeShift(inFlight, ready, i);
    hide LiveBefore, FailedBefore;
  }

  /** What counts in a round is exactly the batches of the positions that count. */
  lemma {:induction false} CountingExact(inFlight: map<nat, nat>, ready: seq<Ready>, first: nat, current: nat, weights: Weights,
                                         left: nat, u: nat)
    ensures Counting(inFlight, ready, first, current, weights, left, u)
         == Picked(inFlight, ready, |ready|, first, current, weights, left, u)
    decreases |ready|
  {
    hide Picked;
    if ready == [] {
      PickedNone(inFlight, ready, first, current, weights, left, u);
    } else {
      var w := ready[0].worker;
      CountingExact(inFlight - {w}, ready[1..], if w in inFlight then first + 1 else first, current, weights, left, u);
      PickedShift(inFlight, ready, |ready| - 1, first, current, weights, left, u);
    }
  }

  lemma PickedNone(inFlight: map<nat, nat>, ready: seq<Ready>, first: nat, current: nat, weights: Weights, left: nat, u: nat)
    ensures Picked(inFlight, ready, 0, first, current, weights, left, u) == []
  {
  }

  /** The request of a worker failed. */
  ghost predicate FailedAt(inFlight: map<nat, nat>, ready: seq<Ready>, w: nat, i: nat) {
    i < |ready| && ready[i].worker == w && Live(inFlight, ready, i) && ready[i].steps.None?
  }

  ghost predicate HasFailed(inFlight: map<nat, nat>, ready: seq<Ready>, w: nat) {
    exists i: nat :: FailedAt(inFlight, ready, w, i)
  }

  /** The workers left are those whose request did not fail, and the requests in flight those of workers that were not
      ready. */
  lemma {:induction false} SurvivingExact(workers: seq<nat>, inFlight: map<nat, nat>, ready: seq<Ready>, w: nat)
    ensures w in Surviving(workers, inFlight, ready) <==> w in workers && !HasFailed(inFlight, ready, w)
    ensures w in Landed(inFlight, ready) <==> w in inFlight && forall i :: 0 <= i < |ready| ==> ready[i].worker != w
    ensures w in Landed(inFlight, ready) ==> Landed(inFlight, ready)[w] == inFlight[w]
    decreases |ready|
  {
    if ready != [] {
      var v, rest := ready[0].worker, ready[1..];
      var failed := v in inFlight && ready[0].steps.None?;
      WithoutMembers(workers, v);
      SurvivingExact(if failed then Without(workers, v) else workers, inFlight - {v}, rest, w);
      HasFailedShift(inFlight, ready, w);
      assert forall i :: 0 < i < |ready| ==> ready[i] == rest[i - 1];
    }
  }

  lemma HasFailedShift(inFlight: map<nat, nat>, ready: seq<Ready>, w: nat)
    requires ready != []
    ensures var v := ready[0].worker;
      HasFailed(inFlight, ready, w) <==>
        (w == v && v in inFlight && ready[0].steps.None?) || HasFailed(inFlight - {v}, ready[1..], w)
  {
    hide Live;
    var v, rest := ready[0].worker, ready[1..];
    LiveFirst(inFlight, ready);
    forall i: nat | i < |rest|
      ensures FailedAt(inFlight, ready, w, i + 1) <==> FailedAt(inFlight - {v}, rest, w, i)
    {
      LiveShift(inFlight, ready, i);
    }
    if HasFailed(inFlight, ready, w) {
      var i: nat :| FailedAt(inFlight, ready, w, i);
      assert i > 0 ==> FailedAt(inFlight - {v}, rest, w, i - 1);
    }
    if HasFailed(inFlight - {v}, rest, w) {
      var i: nat :| FailedAt(inFlight - {v}, rest, w, i);
      assert FailedAt(inFlight, ready, w, i + 1);
    }
    assert w == v && v in inFlight && ready[0].steps.None? ==> FailedAt(inFlight, ready, w, 0);
  }

  /** The errors of a round are exactly the requests that failed. */
  lemma {:induction false} FailingExact(inFlight: map<nat, nat>, ready: seq<Ready>)
    ensures Failing(inFlight, ready) == FailedBefore(inFlight, ready, |ready|)
    decreases |ready|
  {
    if ready != [] {
      FailingExact(inFlight - {ready[0].worker}, ready[1..]);
      BeforeShift(inFlight, ready, |ready| - 1);
      hide FailedBefore, LiveBefore;
    }
  }

  /** If all requests that are ready are of different workers, in flight, current and successful, as many count
      as the units left need, or all. */
  lemma AllCurrent(inFlight: map<nat, nat>, ready: seq<Ready>, current: nat, weights: Weights, left: nat, u: nat)
    requires u > 0
    requires forall i :: 0 <= i < |ready| ==>
      Live(inFlight, ready, i) && ready[i].steps.Some? && inFlight[ready[i].worker] == current
    ensures |Counting(inFlight, ready, 0, current, weights, left, u)| == Min(|ready|, CeilDiv(left, u))
  {
    hide Live, Picked, Counting, CeilDiv;
    CountingExact(inFlight, ready, 0, current, weights, left, u);
    AllPicked(inFlight, ready, |ready|, current, weights, left, u);
    AskedIsMinimum(left, |ready|, u);
  }

  lemma {:induction false} AllPicked(inFlight: map<nat, nat>, ready: seq<Ready>, k: nat, current: nat, weights: Weights, left: nat, u: nat)
    requires k <= |ready|
    requires forall i :: 0 <= i < |ready| ==>
      Live(inFlight, ready, i) && ready[i].steps.Some? && inFlight[ready[i].worker] == current
    ensures LiveBefore(inFlight, ready, k) == k
    ensures |Picked(inFlight, ready, k, 0, current, weights, left, u)| == Asked(left, k, u)
  {
    hide Live;
    if k > 0 {
      AllPicked(inFlight, ready, k - 1, current, weights, left, u);
      assert Live(inFlight, ready, k - 1);
    }
  }

  /** The number and the weights of an evaluation, and how long it lasts. */
  datatype Terms = Terms(current: nat, weights: Weights, unit: Unit, duration: nat, u: nat)

  /** How far an evaluation is: the requests in flight, the workers left, what was counted and how many
      requests failed. */
  datatype Progress = Progress(inFlight: map<nat, nat>, workers: seq<nat>, counted: seq<Counted>, errors: nat)

  function Round(p: Progress, ready: seq<Ready>, e: Terms): Progress
    requires Units(e.unit, p.counted) < e.duration
  {
    var sent, left := Sent(p.inFlight, p.workers, e.current), e.duration - Units(e.unit, p.counted);
    Progress(Landed(sent, ready), Surviving(p.workers, sent, ready),
             p.counted + Counting(sent, ready, 0, e.current, e.weights, left, e.u), p.errors + Failing(sent, ready))
  }

  /** One evaluation, which stops when the duration is reached or no worker is left. */
  function Run(p: Progress, schedule: seq<seq<Ready>>, e: Terms): Progress
    decreases |schedule|
  {
    if schedule == [] || p.workers == [] || Units(e.unit, p.counted) >= e.duration then p
    else Run(Round(p, schedule[0], e), schedule[1..], e)
  }

  /** Neither the duration is reached nor are the workers gone. */
  ghost predicate Busy(p: Progress, e: Terms) {
    p.workers != [] && Units(e.unit, p.counted) < e.duration
  }

  /** Nothing stopped the evaluation before this round. */
  ghost predicate NotBefore(p: Progress, schedule: seq<seq<Ready>>, e: Terms, rounds: nat)
    requires rounds <= |schedule|
  {
    forall k :: 0 <= k < rounds ==> Busy(Run(p, schedule[..k], e), e)
  }

  /** The evaluation stops after exactly so many rounds: at the first moment at which it is no longer busy, or at
      the end of the schedule. */
  ghost predicate Stopped(p: Progress, schedule: seq<seq<Ready>>, e: Terms, rounds: nat)
    requires rounds <= |schedule|
  {
    NotBefore(p, schedule, e, rounds) && (Busy(Run(p, schedule[..rounds], e), e) ==> rounds == |schedule|)
  }

  lemma RunNone(p: Progress, schedule: seq<seq<Ready>>, e: Terms)
    ensures Run(p, schedule[..0], e) == p && NotBefore(p, schedule, e, 0)
  {
  }

  /** While an evaluation is busy, one more round is run. */
  lemma RunSnoc(p: Progress, schedule: seq<seq<Ready>>, e: Terms, k: nat)
    requires k < |schedule| && NotBefore(p, schedule, e, k) && Busy(Run(p, schedule[..k], e), e)
    ensures Run(p, schedule[..k + 1], e) == Round(Run(p, schedule[..k], e), schedule[k], e)
    ensures NotBefore(p, schedule, e, k + 1)
  {
    hide Round, Units;
    RunAppend(p, schedule[..k], [schedule[k]], e);
    assert schedule[..k + 1] == schedule[..k] + [schedule[k]];
    RunOne(Run(p, schedule[..k], e), schedule[k], e);
  }

  /** An evaluation that has stopped is not changed by the rest of the schedule. */
  lemma RunRest(p: Progress, schedule: seq<seq<Ready>>, e: Terms, k: nat)
    requires k <= |schedule| && (Busy(Run(p, schedule[..k], e), e) ==> k == |schedule|)
    ensures Run(p, schedule, e) == Run(p, schedule[..k], e)
  {
    hide Round, Units;
    RunAppend(p, schedule[..k], schedule[k..], e);
    assert schedule == schedule[..k] + schedule[k..];
  }

  lemma RunOne(p: Progress, ready: seq<Ready>, e: Terms)
    requires Busy(p, e)
    ensures Run(p, [ready], e) == Round(p, ready, e)
  {
    hide Round, Units;
    assert [ready][1..] == [];
  }

  lemma {:induction false} RunAppend(p: Progress, a: seq<seq<Ready>>, b: seq<seq<Ready>>, e: Terms)
    ensures Run(p, a + b, e) == Run(Run(p, a, e), b, e)
    decreases |a|
  {
    hide Round, Units;
    if a == [] {
      assert a + b == b;
    } else if Busy(p, e) {
      assert (a + b)[1..] == a[1..] + b;
      RunAppend(Round(p, a[0], e), a[1..], b, e);
    }
  }

  /** Episodes never exceed the duration, and batches of at most u steps overshoot it by less than u. */
  ghost predicate Bounded(unit: Unit, duration: nat, u: nat, counted: seq<Counted>) {
    && (unit == Episodes ==> |counted| <= duration)
    && (Capped(counted, u) && 0 < u ==> Units(unit, counted) < duration + u)
  }

  lemma NothingCounted(weights: Weights, seqNo: nat, unit: Unit, duration: nat, u: nat)
    ensures Units(unit, []) == 0 && Bounded(unit, duration, u, []) && SampledUnder([], weights, seqNo)
  {
  }

  /** A batch is one episode, or as many units as it has steps. */
  lemma UnitsOne(c: Counted)
    ensures Units(Episodes, [c]) == 1 && Units(Timesteps, [c]) == c.steps
  {
    assert [c][..0] == [];
    assert Steps([c]) == Steps([c][..0]) + c.steps;
  }

  lemma {:induction false} UnitsAppend(unit: Unit, a: seq<Counted>, b: seq<Counted>)
    ensures Units(unit, a + b) == Units(unit, a) + Units(unit, b)
  {
    if b == [] {
      assert a + b == a;
    } else {
      UnitsAppend(unit, a, b[..|b| - 1]);
      assert (a + b)[..|a + b| - 1] == a + b[..|b| - 1];
    }
  }

  lemma RoundBounded(unit: Unit, duration: nat, u: nat, counted: seq<Counted>, batches: seq<Counted>)
    requires (unit == Episodes ==> u == 1) && Bounded(unit, duration, u, counted)
    requires Units(unit, counted) < duration
    requires batches != [] ==> (|batches| - 1) * u < duration - Units(unit, counted)
    ensures Bounded(unit, duration, u, counted + batches)
  {
    var all := counted + batches;
    UnitsAppend(unit, counted, batches);
    if Capped(all, u) {
      assert forall i :: 0 <= i < |batches| ==> batches[i] == all[|counted| + i];
      CappedSteps(batches, u);
      if batches != [] {
        assert |batches| * u == (|batches| - 1) * u + u;
      }
    }
  }

  /** The batches of one round stay below the units left until the last one. */
  lemma {:induction false} CountingBounded(inFlight: map<nat, nat>, ready: seq<Ready>, i: nat, current: nat, weights: Weights,
                                           left: nat, u: nat)
    ensures var batches := Counting(inFlight, ready, i, current, weights, left, u);
      SampledUnder(batches, weights, current) && (batches != [] ==> (i + |batches| - 1) * u < left)
    decreases |ready|
  {
    if ready != [] {
      var w := ready[0].worker;
      var place := if w in inFlight then i + 1 else i;
      CountingBounded(inFlight - {w}, ready[1..], place, current, weights, left, u);
      var rest := Counting(inFlight - {w}, ready[1..], place, current, weights, left, u);
      if rest != [] {
        MulMonotone(i + |rest| - 1, place + |rest| - 1, u);
      }
    }
  }

  /** Over a whole evaluation every counted batch carries the current weights and number, episodes
      never exceed the duration and full batches overshoot it by less than one batch. */
  lemma {:induction false} RunCounts(p: Progress, schedule: seq<seq<Ready>>, e: Terms)
    requires e.unit == Episodes ==> e.u == 1
    requires SampledUnder(p.counted, e.weights, e.current) && Bounded(e.unit, e.duration, e.u, p.counted)
    ensures var all := Run(p, schedule, e).counted;
      SampledUnder(all, e.weights, e.current) && Bounded(e.unit, e.duration, e.u, all)
    decreases |schedule|
  {
    hide Bounded, Sent, Landed, Surviving, Counting, Failing;
    if schedule != [] && p.workers != [] && Units(e.unit, p.counted) < e.duration {
      var sent, left := Sent(p.inFlight, p.workers, e.current), e.duration - Units(e.unit, p.counted);
      CountingBounded(sent, schedule[0], 0, e.current, e.weights, left, e.u);
      RoundBounded(e.unit, e.duration, e.u, p.counted, Counting(sent, schedule[0], 0, e.current, e.weights, left, e.u));
      RunCounts(Round(p, schedule[0], e), schedule[1..], e);
    }
  }

  /** A worker that was given a sequence number holds the weights published with it, and requests in
      flight carry published numbers. */
  ghost predicate Consistent(published: seq<Weights>, workers: seq<nat>, inFlight: map<nat, nat>, held: map<nat, Held>, next: nat) {
    && (forall w :: w in held ==> w < next)
    && (forall w :: w in workers ==> w in held)
    && (forall w :: w in inFlight ==> w in held && inFlight[w] < |published|)
    && (forall w :: w in held && held[w].seqNo.Some? ==>
          held[w].seqNo.value < |published| && held[w].weights == published[held[w].seqNo.value])
  }

  lemma PublishKeeps(published: seq<Weights>, workers: seq<nat>, inFlight: map<nat, nat>, held: map<nat, Held>, next: nat,
                     weights: Weights)
    requires Consistent(published, workers, inFlight, held, next)
    ensures Consistent(published + [weights], workers, inFlight, held, next)
  {
  }

  /** So many ids from the first one on. */
  function Ids(first: nat, n: nat): (ids: seq<nat>)
    ensures forall w :: w in ids <==> first <= w < first + n
  {
    if n == 0 then [] else Ids(first, n - 1) + [first + n - 1]
  }

  // A run of evaluations.

  /** What one evaluation leaves to the next. */
  datatype Fleet = Fleet(inFlight: map<nat, nat>, workers: seq<nat>, next: nat)

  function NotIn(removed: set<nat>): nat -> bool {
    w => w !in removed
  }

  function Recovered(f: Fleet, r: Recovery): Fleet {
    Fleet(f.inFlight, Filter(NotIn(r.removed), f.workers) + Ids(f.next, r.added), f.next + r.added)
  }

  /** What is there before plan k, if the first plan gets the given number. */
  function Before(f: Fleet, number: nat, plans: seq<Plan>, k: nat): Fleet
    requires k <= |plans|
    decreases k, 0
  {
    if k == 0 then f
    else
      var e, recovery := Ended(f, number, plans, k - 1), plans[k - 1].recovery;
      var left := Fleet(e.inFlight, e.workers, Before(f, number, plans, k - 1).next);
      if e.errors > 0 && recovery.Some? then Recovered(left, recovery.value) else left
  }

  /** How the evaluation of plan k ends. */
  function Ended(f: Fleet, number: nat, plans: seq<Plan>, k: nat): Progress
    requires k < |plans|
    decreases k, 1
  {
    var before, p := Before(f, number, plans, k), plans[k];
    Run(Progress(before.inFlight, before.workers, [], 0), p.schedule, Terms(number + k, p.weights, p.unit, p.duration, p.u))
  }

  /** Plan k raises the error of a worker. */
  predicate Raises(f: Fleet, number: nat, plans: seq<Plan>, k: nat)
    requires k < |plans|
  {
    Ended(f, number, plans, k).errors > 0 && plans[k].recovery.None?
  }

  lemma BeforeFirst(f: Fleet, number: nat, plans: seq<Plan>)
    ensures Before(f, number, plans, 0) == f && Told(f, number, plans, [])
  {
  }

  /** One more plan. */
  lemma PlanStep(f: Fleet, number: nat, plans: seq<Plan>, k: nat)
    requires k < |plans|
    ensures var before, p, e := Before(f, number, plans, k), plans[k], Ended(f, number, plans, k);
      var left := Fleet(e.inFlight, e.workers, before.next);
      && e == Run(Progress(before.inFlight, before.workers, [], 0), p.schedule,
                  Terms(number + k, p.weights, p.unit, p.duration, p.u))
      && (Raises(f, number, plans, k) <==> e.errors > 0 && p.recovery.None?)
      && Before(f, number, plans, k + 1) == if e.errors > 0 && p.recovery.Some? then Recovered(left, p.recovery.value) else left
  {
    hide Run, Recovered;
  }

  /** So far no plan raised an error, and what each counted is what its evaluation ended with, sampled under its
      own weights and within the bounds. */
  ghost predicate Told(f: Fleet, number: nat, plans: seq<Plan>, counts: seq<seq<Counted>>) {
    |counts| <= |plans| && forall k :: 0 <= k < |counts| ==> ToldOne(f, number, plans, k, counts[k])
  }

  ghost predicate ToldOne(f: Fleet, number: nat, plans: seq<Plan>, k: nat, counted: seq<Counted>)
    requires k < |plans|
  {
    && !Raises(f, number, plans, k)
    && counted == Ended(f, number, plans, k).counted
    && SampledUnder(counted, plans[k].weights, number + k)
    && Bounded(plans[k].unit, plans[k].duration, plans[k].u, counted)
  }

  lemma ToldStep(f: Fleet, number: nat, plans: seq<Plan>, counts: seq<seq<Counted>>, counted: seq<Counted>)
    requires Told(f, number, plans, counts) && |counts| < |plans| && ToldOne(f, number, plans, |counts|, counted)
    ensures Told(f, number, plans, counts + [counted])
  {
    hide ToldOne;
  }

  /** The workers that are not removed. */
  method Healthy(workers: seq<nat>, removed: set<nat>) returns (kept: seq<nat>)
    ensures kept == Filter(NotIn(removed), workers)
  {
    kept := [];
    for i := 0 to |workers|
      invariant kept == Filter(NotIn(removed), workers[..i])
    {
      assert workers[..i + 1] == workers[..i] + [workers[i]];
      FilterSnoc(NotIn(removed), workers[..i], workers[i]);
      if workers[i] !in removed {
        kept := kept + [workers[i]];
      }
    }
    assert workers[..|workers|] == workers;
  }

  class Evaluator {
    /** Published weights; the sequence number of an evaluation is the index of its weights. */
    var published: seq<Weights>
    /** The workers that requests may be sent to. */
    var workers: seq<nat>
    /** The sequence number that the one request in flight of a worker was sent with. */
    var inFlight: map<nat, nat>
    /** What the workers hold. */
    var held: map<nat, Held>
    /** No worker has this id or a higher one yet. */
    var next: nat

    ghost predicate Valid()
      reads this
    {
      published != [] && Consistent(published, workers, inFlight, held, next)
    }

    function Current(): nat
      requires published != []
      reads this
    {
      |published| - 1
    }

    /** No evaluation has run; number 0 stands for the weights before the first one. */
    constructor (initial: Weights, n: nat)
      ensures Valid() && workers == Ids(0, n) && inFlight == map[] && published == [initial] && next == n
    {
      published, workers, inFlight, next := [initial], Ids(0, n), map[], n;
      held := map w | w in Ids(0, n) :: Held(initial, None);
    }

    /** Sends a request to every worker without one in flight. */
    method CallOnAllAvailable()
      requires Valid()
      modifies this`inFlight
      ensures Valid() && inFlight == Sent(old(inFlight), workers, Current())
    {
      hide Sent;
      SentNone(inFlight, Current());
      for i := 0 to |workers|
        invariant Valid()
        invariant inFlight == Sent(old(inFlight), workers[..i], Current())
      {
        SentStep(old(inFlight), workers[..i], workers[i], Current());
        assert workers[..i + 1] == workers[..i] + [workers[i]];
        if workers[i] !in inFlight {
          inFlight := inFlight[workers[i] := Current()];
        }
      }
      assert workers[..|workers|] == workers;
    }

    /** Runs the request of a worker that is ready: the worker takes over the weights of the request
        and samples under what it then holds. Returns the batch and the request's number. */
    method Finish(r: Ready) returns (batch: Option<Counted>)
      requires Valid() && r.worker in inFlight
      modifies this`inFlight, this`held, this`workers
      ensures Valid() && inFlight == old(inFlight) - {r.worker}
      ensures batch.Some? <==> r.steps.Some?
      ensures batch.Some? ==>
        batch.value == Counted(published[old(inFlight)[r.worker]], old(inFlight)[r.worker], r.steps.value)
      ensures workers == if batch.Some? then old(workers) else Without(old(workers), r.worker)
    {
      var w, seqNo := r.worker, inFlight[r.worker];
      inFlight := inFlight - {w};
      match r.steps
      case None =>
        WithoutMembers(workers, w);
        workers := Without(workers, w);
        return None;
      case Some(steps) =>
        var h := SetWeights(held[w], published[seqNo], seqNo);
        held := held[w := h];
        return Some(Counted(h.weights, seqNo, steps));
    }

    /** Handles the requests that are ready in one round. */
    method Collect(ready: seq<Ready>, left: nat, u: nat) returns (batches: seq<Counted>, errors: nat)
      requires Valid()
      modifies this`inFlight, this`held, this`workers
      ensures Valid()
      ensures batches == Counting(old(inFlight), ready, 0, Current(), published[Current()], left, u)
      ensures inFlight == Landed(old(inFlight), ready) && errors == Failing(old(inFlight), ready)
      ensures workers == Surviving(old(workers), old(inFlight), ready)
    {
      batches, errors := [], 0;
      var i := 0;
      for k := 0 to |ready|
        invariant Valid()
        invariant Counting(old(inFlight), ready, 0, Current(), published[Current()], left, u)
               == batches + Counting(inFlight, ready[k..], i, Current(), published[Current()], left, u)
        invariant Landed(old(inFlight), ready) == Landed(inFlight, ready[k..])
        invariant Failing(old(inFlight), ready) == errors + Failing(inFlight, ready[k..])
        invariant Surviving(old(workers), old(inFlight), ready) == Surviving(workers, inFlight, ready[k..])
      {
        assert ready[k..][1..] == ready[k + 1..];
        if ready[k].worker in inFlight {
          var batch := Finish(ready[k]);
          if batch.Some? && batch.value.seqNo == Current() && i * u < left {
            batches := batches + [batch.value];
          }
          if batch.None? {
            errors := errors + 1;
          }
          i := i + 1;
        } else {
          assert inFlight - {ready[k].worker} == inFlight;
        }
      }
    }

    /** One evaluation against a schedule of rounds, each a list of the requests that are ready in it.
        What counts was really sampled under the weights of this evaluation, although a worker may
        hold older weights and requests of earlier evaluations may still be in flight. */
    method Evaluate(weights: Weights, unit: Unit, duration: nat, u: nat, schedule: seq<seq<Ready>>)
      returns (counted: seq<Counted>, done: nat, errors: nat, rounds: nat)
      requires Valid() && (unit == Episodes ==> u == 1)
      modifies this
      ensures Valid() && published == old(published) + [weights] && next == old(next)
      ensures Progress(inFlight, workers, counted, errors)
           == Run(Progress(old(inFlight), old(workers), [], 0), schedule, Terms(|old(published)|, weights, unit, duration, u))
      ensures done == Units(unit, counted) && rounds <= |schedule|
      ensures done < duration && workers != [] ==> rounds == |schedule|
      ensures Stopped(Progress(old(inFlight), old(workers), [], 0), schedule, Terms(|old(published)|, weights, unit, duration, u), rounds)
      ensures SampledUnder(counted, weights, |old(published)|) && Bounded(unit, duration, u, counted)
    {
      hide Sent, Landed, Surviving, Counting, Failing, Steps, Bounded, SampledUnder, Consistent, Run, NotBefore;
      PublishKeeps(published, workers, inFlight, held, next, weights);
      published := published + [weights];
      counted, done, errors, rounds := [], 0, 0, 0;
      NothingCounted(weights, |old(published)|, unit, duration, u);
      ghost var start, e := Progress(inFlight, workers, [], 0), Terms(|old(published)|, weights, unit, duration, u);
      RunCounts(start, schedule, e);
      RunNone(start, schedule, e);
      while rounds < |schedule| && |workers| > 0 && done < duration
        invariant Valid() && published == old(published) + [weights] && next == old(next) && rounds <= |schedule|
        invariant done == Units(unit, counted)
        invariant Progress(inFlight, workers, counted, errors) == Run(start, schedule[..rounds], e)
        invariant NotBefore(start, schedule, e, rounds)
      {
        RunSnoc(start, schedule, e, rounds);
        CallOnAllAvailable();
        var batches, failed := Collect(schedule[rounds], duration - done, u);
        UnitsAppend(unit, counted, batches);
        counted, errors := counted + batches, errors + failed;
        done := done + match unit case Episodes => |batches| case Timesteps => Steps(batches);
        rounds := rounds + 1;
      }
      RunRest(start, schedule, e, rounds);
    }

    ghost function State(): Fleet
      reads this
    {
      Fleet(inFlight, workers, next)
    }

    /** A whole run of evaluations, each followed by a recovery if requests failed. It stops exactly at the
        first evaluation that has failures and no recovery. Whatever is in flight from one evaluation to the
        next and whichever workers come and go, every counted batch was sampled under the weights of the
        evaluation that counts it. */
    method EvaluateAll(plans: seq<Plan>) returns (counts: seq<seq<Counted>>, raised: bool)
      requires Valid() && forall k :: 0 <= k < |plans| ==> (plans[k].unit == Episodes ==> plans[k].u == 1)
      modifies this
      ensures Valid() && |counts| <= |plans|
      ensures raised <==> |counts| < |plans|
      ensures raised ==>
        && Raises(old(State()), |old(published)|, plans, |counts|)
        && var e := Ended(old(State()), |old(published)|, plans, |counts|); inFlight == e.inFlight && workers == e.workers
      ensures !raised ==> State() == Before(old(State()), |old(published)|, plans, |plans|)
      ensures Told(old(State()), |old(published)|, plans, counts)
    {
      hide Before, Ended, Raises, Told, Consistent, SampledUnder, Bounded, Run;
      ghost var fleet, number := State(), |published|;
      counts := [];
      BeforeFirst(fleet, number, plans);
      for k := 0 to |plans|
        invariant Valid() && |counts| == k && |published| == number + k
        invariant State() == Before(fleet, number, plans, k)
        invariant Told(fleet, number, plans, counts)
      {
        var p := plans[k];
        PlanStep(fleet, number, plans, k);
        var counted, done, errors, rounds := Evaluate(p.weights, p.unit, p.duration, p.u, p.schedule);
        if errors > 0 {
          if p.recovery.None? {
            return counts, true;
          }
          Recover(p.recovery.value.removed, p.recovery.value.added, p.weights);
        }
        ToldStep(fleet, number, plans, counts, counted);
        counts := counts + [counted];
      }
      raised := false;
    }

    /** After failures the evaluator drops workers and takes in new ones, which have no number yet. Requests
        of dropped workers stay in flight. */
    method Recover(removed: set<nat>, added: nat, initial: Weights)
      requires Valid()
      modifies this`workers, this`held, this`next
      ensures Valid() && State() == Recovered(old(State()), Recovery(removed, added))
      ensures forall w :: w in workers <==> (w in old(workers) && w !in removed) || old(next) <= w < old(next) + added
      ensures forall w :: w in old(held) ==> w in held && held[w] == old(held)[w]
    {
      hide Filter;
      var kept := Healthy(workers, removed);
      FilterMembers(NotIn(removed), workers);
      var created := Ids(next, added);
      held := held + map w | w in created :: Held(initial, None);
      workers, next := kept + created, next + added;
    }
  }
}

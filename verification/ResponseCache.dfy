/** The response cache of dashboard/optional_utils.py: a bounded ordered dictionary with a time to
    live whose stale entries are served while a task refreshes them. The module models the cache
    as steps that any number of requests, finishing tasks and clock ticks may interleave. */
module ResponseCache {
  import opened Options
  import opened Sequences

  /** Requests without a body are told apart by path and query alone. */
  datatype Key = PathKey(path: string) | BodyKey(path: string, body: string)

  datatype Response = Response(status: int, body: string)

  /** How a handler task ends. An exception becomes an error response. */
  datatype Result = Returned(response: Response) | Raised(message: string)

  function ToResponse(r: Result): Response {
    match r
    case Returned(response) => response
    case Raised(message) => Response(200, message)
  }

  datatype Entry = Entry(data: Response, expiration: real, task: nat)

  datatype Config = Config(maxsize: nat, ttl: real)

  /** The cache, with its keys from least to most recent, the running and the finished tasks, and
      the clock. */
  datatype State = State(order: seq<Key>, entries: map<Key, Entry>,
                         running: map<nat, Key>, done: set<nat>, next: nat, now: real)

  datatype Event = Request(key: Key) | Finish(task: nat, result: Result) | Tick(delay: real)

  /** What a request is answered with: cached data, cached data while a task refreshes it, or the
      result of a task to wait for. */
  datatype Answer = Fresh(data: Response) | Stale(data: Response, refresh: nat) | Wait(task: nat)

  // The ordered dictionary.

  /** Moves a key to the end. */
  function Touch(order: seq<Key>, k: Key): seq<Key> {
    Without(order, k) + [k]
  }

  const EMPTY := State([], map[], map[], {}, 0, 0.0)

  // The two places where the source changes the cache.

  function Answering(st: State, key: Key): Answer {
    if key !in st.entries then Wait(st.next)
    else
      var value := st.entries[key];
      if value.task !in st.done || value.expiration >= st.now then Fresh(value.data)
      else Stale(value.data, st.next)
  }

  function OnRequest(st: State, key: Key): State {
    var moved := if key in st.entries then st.(order := Touch(st.order, key)) else st;
    if Answering(st, key).Fresh? then moved
    else moved.(running := st.running[st.next := key], next := st.next + 1)
  }

  function OnFinish(cfg: Config, st: State, task: nat, result: Result): State
    requires task in st.running
  {
    var key := st.running[task];
    var entries := st.entries[key := Entry(ToResponse(result), st.now + cfg.ttl, task)];
    var order := Touch(st.order, key);
    var st' := st.(running := st.running - {task}, done := st.done + {task});
    if |order| > cfg.maxsize then st'.(order := order[1..], entries := entries - {order[0]})
    else st'.(order := order, entries := entries)
  }

  function Step(cfg: Config, st: State, ev: Event): State {
    match ev
    case Request(key) => OnRequest(st, key)
    case Finish(task, result) => if task in st.running then OnFinish(cfg, st, task, result) else st
    case Tick(delay) => if delay >= 0.0 then st.(now := st.now + delay) else st
  }

  function Steps(cfg: Config, st: State, evs: seq<Event>): State {
    if evs == [] then st else Step(cfg, Steps(cfg, st, evs[..|evs| - 1]), evs[|evs| - 1])
  }

  // The history of a run, which knows nothing of the cache's own data structures.

  datatype Completion = Completion(key: Key, data: Response, time: real, task: nat)

  /** The keys touched so far, the tasks finished so far, the keys that tasks were started for, and the clock. */
  datatype History = History(touches: seq<Key>, log: seq<Completion>, started: seq<Key>, now: real)

  const BEGINNING := History([], [], [], 0.0)

  function Finished(log: seq<Completion>): set<nat> {
    set c | c in log :: c.task
  }

  /** Requests touch keys that should be cached and start a task unless the answer is fresh; a finishing task
      touches its key. */
  function Record(cfg: Config, h: History, ev: Event): History {
    match ev
    case Request(key) =>
      h.(touches := if key in Cached(cfg, h) then h.touches + [key] else h.touches,
         started := if Reference(cfg, h, key).Fresh? then h.started else h.started + [key])
    case Finish(task, result) =>
      if task < |h.started| && task !in Finished(h.log) then
        var key := h.started[task];
        h.(touches := h.touches + [key], log := h.log + [Completion(key, ToResponse(result), h.now, task)])
      else h
    case Tick(delay) => if delay >= 0.0 then h.(now := h.now + delay) else h
  }

  function Records(cfg: Config, evs: seq<Event>): History {
    if evs == [] then BEGINNING else Record(cfg, Records(cfg, evs[..|evs| - 1]), evs[|evs| - 1])
  }

  /** All touched keys, by the time of their last touch. */
  function Recency(touches: seq<Key>): seq<Key> {
    if touches == [] then [] else Touch(Recency(touches[..|touches| - 1]), touches[|touches| - 1])
  }

  function Suffix(s: seq<Key>, n: nat): (r: seq<Key>)
    ensures |r| <= n && |r| <= |s|
  {
    if |s| <= n then s else s[|s| - n..]
  }

  /** The last finished task for a key. */
  function LastFor(log: seq<Completion>, key: Key): Option<Completion> {
    if log == [] then None
    else if log[|log| - 1].key == key then Some(log[|log| - 1])
    else LastFor(log[..|log| - 1], key)
  }

  /** The keys that should be cached: those touched most recently. */
  function Cached(cfg: Config, h: History): seq<Key> {
    Suffix(Recency(h.touches), cfg.maxsize)
  }

  /** What a request should be answered with, told from the history alone: the most recently
      touched keys are cached, with what their last task returned. */
  function Reference(cfg: Config, h: History, key: Key): Answer {
    var last := LastFor(h.log, key);
    if key !in Cached(cfg, h) || last.None? then Wait(|h.started|)
    else if h.now - last.value.time <= cfg.ttl then Fresh(last.value.data)
    else Stale(last.value.data, |h.started|)
  }

  // The recency list and its suffix.

  lemma {:induction false} WithoutDistinct(s: seq<Key>, k: Key)
    requires Distinct(s)
    ensures Distinct(Without(s, k))
    ensures |Without(s, k)| == if k in s then |s| - 1 else |s|
  {
    if s != [] {
      WithoutDistinct(s[1..], k);
      WithoutMembers(s[1..], k);
      assert s[0] !in s[1..];
      if s[0] == k {
        assert Without(s, k) == Without(s[1..], k);
      }
    }
  }

  lemma TouchDistinct(s: seq<Key>, k: Key)
    requires Distinct(s)
    ensures Distinct(Touch(s, k))
  {
    WithoutDistinct(s, k);
    WithoutMembers(s, k);
    var t := Without(s, k);
    forall i, j | 0 <= i < j < |t + [k]|
      ensures (t + [k])[i] != (t + [k])[j]
    {
      assert t[i] in t;
    }
  }

  lemma {:induction false} RecencyDistinct(touches: seq<Key>)
    ensures Distinct(Recency(touches))
  {
    if touches != [] {
      var n := |touches| - 1;
      RecencyDistinct(touches[..n]);
      TouchDistinct(Recency(touches[..n]), touches[n]);
    }
  }

  lemma {:induction false} WithoutAppend(a: seq<Key>, b: seq<Key>, k: Key)
    ensures Without(a + b, k) == Without(a, k) + Without(b, k)
  {
    if a == [] {
      assert a + b == b;
    } else {
      assert (a + b)[1..] == a[1..] + b;
      WithoutAppend(a[1..], b, k);
    }
  }

  /** Touching and truncating the truncated list is the same as truncating the touched list. */
  lemma TouchSuffix(recent: seq<Key>, n: nat, k: Key)
    requires n > 0 && Distinct(recent)
    ensures Suffix(Touch(Suffix(recent, n), k), n) == Suffix(Touch(recent, k), n)
  {
    hide Touch, Without;
    if |recent| > n {
      var gone, kept := recent[..|recent| - n], recent[|recent| - n..];
      assert recent == gone + kept;
      TouchSplit(gone, kept, k);
      SuffixOfSum(Without(gone, k), Touch(kept, k), n);
    }
  }

  lemma TouchSplit(gone: seq<Key>, kept: seq<Key>, k: Key)
    requires Distinct(gone + kept)
    ensures Touch(gone + kept, k) == Without(gone, k) + Touch(kept, k)
    ensures |Touch(kept, k)| >= |kept|
  {
    assert Distinct(kept) by {
      forall i, j | 0 <= i < j < |kept|
        ensures kept[i] != kept[j]
      {
        assert (gone + kept)[|gone| + i] != (gone + kept)[|gone| + j];
      }
    }
    WithoutAppend(gone, kept, k);
    WithoutDistinct(kept, k);
  }

  lemma SuffixOfSum(a: seq<Key>, b: seq<Key>, n: nat)
    requires |b| >= n
    ensures Suffix(a + b, n) == Suffix(b, n)
  {
    assert |b| == n ==> (a + b)[|a|..] == b;
  }

  lemma DropFirst(order: seq<Key>)
    requires order != [] && Distinct(order)
    ensures Distinct(order[1..])
    ensures forall x :: x in order[1..] <==> x in order && x != order[0]
  {
  }

  lemma {:induction false} KeysBound(order: seq<Key>, keys: set<Key>)
    requires Distinct(order) && forall k :: k in order <==> k in keys
    ensures |keys| == |order|
  {
    if order == [] {
      assert keys == {};
    } else {
      DropFirst(order);
      KeysBound(order[1..], keys - {order[0]});
    }
  }

  // What the recency list means.

  function KeySet(s: seq<Key>): set<Key> {
    set x | x in s
  }

  /** The keys touched after the last touch of this one, or all if there is none. */
  function TouchedSince(touches: seq<Key>, k: Key): set<Key> {
    if touches == [] || touches[|touches| - 1] == k then {}
    else TouchedSince(touches[..|touches| - 1], k) + {touches[|touches| - 1]}
  }

  /** By position: after the last touch of a key come exactly those keys. */
  lemma {:induction false} TouchedSinceExact(touches: seq<Key>, k: Key, i: nat)
    requires i < |touches| && touches[i] == k && forall j :: i < j < |touches| ==> touches[j] != k
    ensures TouchedSince(touches, k) == KeySet(touches[i + 1..])
  {
    var n := |touches| - 1;
    if i < n {
      TouchedSinceExact(touches[..n], k, i);
      assert touches[i + 1..] == touches[..n][i + 1..] + [touches[n]];
    } else {
      assert touches[i + 1..] == [];
    }
  }

  /** The keys that come after a key in a list. */
  function After(s: seq<Key>, k: Key): seq<Key> {
    if s == [] then [] else if s[0] == k then s[1..] else After(s[1..], k)
  }

  lemma {:induction false} RecencyMembers(touches: seq<Key>)
    ensures forall x :: x in Recency(touches) <==> x in touches
  {
    if touches != [] {
      var n := |touches| - 1;
      RecencyMembers(touches[..n]);
      WithoutMembers(Recency(touches[..n]), touches[n]);
      assert touches == touches[..n] + [touches[n]];
    }
  }

  lemma {:induction false} AfterTouch(s: seq<Key>, k: Key, x: Key)
    requires k in s && x != k
    ensures After(Without(s, x) + [x], k) == Without(After(s, k), x) + [x]
  {
    if s[0] == k {
      assert (Without(s, x) + [x])[1..] == Without(s[1..], x) + [x];
    } else {
      assert k in s[1..];
      AfterTouch(s[1..], k, x);
      if s[0] != x {
        assert (Without(s, x) + [x])[1..] == Without(s[1..], x) + [x];
      }
    }
  }

  lemma {:induction false} AfterAppended(s: seq<Key>, k: Key)
    requires k !in s
    ensures After(s + [k], k) == []
  {
    if s == [] {
      assert ([] + [k])[1..] == [];
    } else {
      assert (s + [k])[1..] == s[1..] + [k];
      AfterAppended(s[1..], k);
    }
  }

  /** In the recency list a key is followed by exactly the keys touched since. */
  lemma {:induction false} AfterInRecency(touches: seq<Key>, k: Key)
    requires k in touches
    ensures KeySet(After(Recency(touches), k)) == TouchedSince(touches, k)
  {
    hide Touch;
    var n := |touches| - 1;
    var front, last := touches[..n], touches[n];
    assert touches == front + [last];
    RecencyAppend(front, last);
    TouchIs(Recency(front), last);
    if last == k {
      WithoutMembers(Recency(front), k);
      AfterAppended(Without(Recency(front), k), k);
    } else {
      AfterInRecency(front, k);
      RecencyMembers(front);
      AfterTouch(Recency(front), k, last);
      WithoutMembers(After(Recency(front), k), last);
    }
  }

  lemma TouchIs(s: seq<Key>, k: Key)
    ensures Touch(s, k) == Without(s, k) + [k]
  {
  }

  lemma {:induction false} AfterSplit(s: seq<Key>, k: Key) returns (front: seq<Key>)
    requires k in s
    ensures s == front + ([k] + After(s, k)) && k !in front
  {
    if s[0] == k {
      front := [];
    } else {
      front := AfterSplit(s[1..], k);
      front := [s[0]] + front;
    }
  }

  /** A key is among the n most recent exactly when fewer than n other keys were touched after it. */
  lemma RecentExact(touches: seq<Key>, n: nat, k: Key)
    ensures k in Suffix(Recency(touches), n) <==> k in touches && |TouchedSince(touches, k)| < n
  {
    hide Recency;
    var recent := Recency(touches);
    RecencyMembers(touches);
    RecencyDistinct(touches);
    if k in touches {
      AfterInRecency(touches, k);
      var front := AfterSplit(recent, k);
      var after := After(recent, k);
      SuffixMember(front, k, after, n);
      assert front + ([k] + after) == front + [k] + after;
      TailDistinct(front + [k], after);
      KeysBound(after, KeySet(after));
    }
  }

  lemma TailDistinct(a: seq<Key>, b: seq<Key>)
    requires Distinct(a + b)
    ensures Distinct(b)
  {
    forall i, j | 0 <= i < j < |b|
      ensures b[i] != b[j]
    {
      assert (a + b)[|a| + i] != (a + b)[|a| + j];
    }
  }

  lemma SuffixMember(front: seq<Key>, k: Key, after: seq<Key>, n: nat)
    requires Distinct(front + ([k] + after))
    ensures k in Suffix(front + ([k] + after), n) <==> |after| < n
  {
    var s := front + ([k] + after);
    assert s[|front|] == k;
    if |after| < n {
      var i := if |s| <= n then |front| else |front| - (|s| - n);
      assert Suffix(s, n)[i] == k;
    } else {
      assert forall i :: 0 <= i < |Suffix(s, n)| ==> Suffix(s, n)[i] == s[|s| - n + i];
    }
  }

  // What every step keeps.

  ghost predicate OrderMatches(cfg: Config, st: State, h: History) {
    && Distinct(st.order)
    && (forall k :: k in st.order <==> k in st.entries)
    && st.order == Cached(cfg, h)
  }

  /** An entry holds what the last finished task for its key returned. */
  ghost predicate EntryMatches(cfg: Config, e: Entry, c: Completion) {
    e == Entry(c.data, c.time + cfg.ttl, c.task)
  }

  ghost predicate EntriesMatch(cfg: Config, st: State, h: History) {
    forall k :: k in st.entries ==> st.entries[k].task in st.done && HoldsLast(cfg, st.entries[k], k, h.log)
  }

  ghost predicate HoldsLast(cfg: Config, e: Entry, k: Key, log: seq<Completion>) {
    var last := LastFor(log, k);
    last.Some? && EntryMatches(cfg, e, last.value)
  }

  ghost predicate TasksMatch(st: State, h: History) {
    && st.next == |h.started| && st.now == h.now && st.done == Finished(h.log)
    && (forall t: nat :: t in st.running <==> t < |h.started| && t !in st.done)
    && (forall t :: t in st.running ==> st.running[t] == h.started[t])
    && (forall t :: t in st.done ==> t < st.next)
  }

  ghost predicate Invariant(cfg: Config, st: State, h: History) {
    && OrderMatches(cfg, st, h)
    && EntriesMatch(cfg, st, h)
    && TasksMatch(st, h)
    && forall i :: 0 <= i < |h.log| ==> h.log[i].time <= st.now
  }

  /** In every reachable state the answer to a request is the reference answer. */
  lemma AnswerMatches(cfg: Config, st: State, h: History, key: Key)
    requires Invariant(cfg, st, h)
    ensures Answering(st, key) == Reference(cfg, h, key)
    ensures key in st.entries <==> key in Cached(cfg, h)
  {
    hide Recency, LastFor, Distinct, Finished;
  }

  /** The recency list after one more touch. */
  lemma RecencyAppend(touches: seq<Key>, k: Key)
    ensures Recency(touches + [k]) == Touch(Recency(touches), k)
  {
    assert (touches + [k])[..|touches|] == touches;
  }

  /** Touching a key and dropping what exceeds the bound keeps the order a suffix of the recency
      list. */
  lemma TouchKeeps(maxsize: nat, order: seq<Key>, touches: seq<Key>, k: Key)
    requires maxsize > 0 && order == Suffix(Recency(touches), maxsize)
    ensures Distinct(order) && Distinct(Touch(order, k))
    ensures |Touch(order, k)| == if k in order then |order| else |order| + 1
    ensures Suffix(Touch(order, k), maxsize) == Suffix(Recency(touches + [k]), maxsize)
  {
    hide Touch, Recency;
    RecencyDistinct(touches);
    RecencyAppend(touches, k);
    TouchSuffix(Recency(touches), maxsize, k);
    TouchDistinct(order, k);
    TouchLength(order, k);
  }

  lemma TouchLength(order: seq<Key>, k: Key)
    requires Distinct(order)
    ensures |Touch(order, k)| == if k in order then |order| else |order| + 1
    ensures forall x :: x in Touch(order, k) <==> x in order || x == k
  {
    WithoutDistinct(order, k);
    WithoutMembers(order, k);
  }

  lemma RequestOrder(cfg: Config, st: State, h: History, key: Key)
    requires cfg.maxsize > 0 && OrderMatches(cfg, st, h)
    ensures OrderMatches(cfg, OnRequest(st, key), Record(cfg, h, Request(key)))
  {
    hide Touch, Recency, Distinct, Reference;
    if key in st.entries {
      TouchKeeps(cfg.maxsize, st.order, h.touches, key);
      TouchLength(st.order, key);
    }
  }

  lemma RequestKeeps(cfg: Config, st: State, h: History, key: Key)
    requires cfg.maxsize > 0 && Invariant(cfg, st, h)
    ensures Invariant(cfg, OnRequest(st, key), Record(cfg, h, Request(key)))
  {
    hide OrderMatches, EntriesMatch, TasksMatch;
    RequestOrder(cfg, st, h, key);
    RequestEntries(cfg, st, h, key);
    AnswerMatches(cfg, st, h, key);
    RequestTasks(cfg, st, h, key);
  }

  lemma RequestEntries(cfg: Config, st: State, h: History, key: Key)
    requires EntriesMatch(cfg, st, h)
    ensures EntriesMatch(cfg, OnRequest(st, key), Record(cfg, h, Request(key)))
  {
    hide HoldsLast, Touch, Cached, Reference, Answering;
  }

  lemma RequestTasks(cfg: Config, st: State, h: History, key: Key)
    requires TasksMatch(st, h) && Answering(st, key) == Reference(cfg, h, key)
    ensures TasksMatch(OnRequest(st, key), Record(cfg, h, Request(key)))
    ensures OnRequest(st, key).now == st.now && Record(cfg, h, Request(key)).log == h.log
  {
    hide Touch, Cached, Reference, Answering, Finished;
  }

  lemma LogGrows(log: seq<Completion>, c: Completion, k: Key)
    ensures LastFor(log + [c], k) == if k == c.key then Some(c) else LastFor(log, k)
  {
    assert (log + [c])[..|log|] == log;
  }

  lemma FinishKeeps(cfg: Config, st: State, h: History, task: nat, result: Result)
    requires cfg.maxsize > 0 && Invariant(cfg, st, h) && task in st.running
    ensures Invariant(cfg, OnFinish(cfg, st, task, result), Record(cfg, h, Finish(task, result)))
  {
    hide OrderMatches, EntriesMatch, TasksMatch, Touch;
    FinishOrder(cfg, st, h, task, result);
    FinishEntries(cfg, st, h, task, result);
    FinishTasks(cfg, st, h, task, result);
  }

  lemma FinishTasks(cfg: Config, st: State, h: History, task: nat, result: Result)
    requires TasksMatch(st, h) && task in st.running
    ensures TasksMatch(OnFinish(cfg, st, task, result), Record(cfg, h, Finish(task, result)))
    ensures h.now == st.now && task < |h.started| && task !in Finished(h.log)
  {
    hide Touch, Recency, Reference;
    var c := Completion(h.started[task], ToResponse(result), h.now, task);
    FinishedGrows(h.log, c);
  }

  lemma FinishedGrows(log: seq<Completion>, c: Completion)
    ensures Finished(log + [c]) == Finished(log) + {c.task}
  {
    assert forall d :: d in log + [c] <==> d in log || d == c;
    assert c in log + [c];
  }

  lemma FinishEntries(cfg: Config, st: State, h: History, task: nat, result: Result)
    requires EntriesMatch(cfg, st, h) && TasksMatch(st, h) && task in st.running
    ensures EntriesMatch(cfg, OnFinish(cfg, st, task, result), Record(cfg, h, Finish(task, result)))
  {
    hide Touch, LastFor;
    var key := st.running[task];
    var st', h' := OnFinish(cfg, st, task, result), Record(cfg, h, Finish(task, result));
    var c := Completion(key, ToResponse(result), st.now, task);
    forall k | k in st'.entries
      ensures st'.entries[k].task in st'.done && HoldsLast(cfg, st'.entries[k], k, h'.log)
    {
      LogGrows(h.log, c, k);
    }
  }

  /** Inserting a key at the end and dropping the first one if the bound is exceeded. */
  lemma BoundedInsert(maxsize: nat, order: seq<Key>, key: Key)
    requires 0 < maxsize && |order| <= maxsize && Distinct(order)
    ensures var touched := Touch(order, key);
      && Distinct(Suffix(touched, maxsize))
      && Suffix(touched, maxsize) == (if |touched| > maxsize then touched[1..] else touched)
      && forall x :: x in Suffix(touched, maxsize) <==>
           (x in order || x == key) && !(|touched| > maxsize && x == touched[0])
  {
    TouchDistinct(order, key);
    TouchLength(order, key);
    hide Touch;
    if |Touch(order, key)| > maxsize {
      DropFirst(Touch(order, key));
    }
  }

  lemma FinishOrder(cfg: Config, st: State, h: History, task: nat, result: Result)
    requires cfg.maxsize > 0 && OrderMatches(cfg, st, h) && TasksMatch(st, h) && task in st.running
    ensures OrderMatches(cfg, OnFinish(cfg, st, task, result), Record(cfg, h, Finish(task, result)))
  {
    hide Touch, Recency, Distinct, Suffix, Reference;
    var key := st.running[task];
    TouchKeeps(cfg.maxsize, st.order, h.touches, key);
    BoundedInsert(cfg.maxsize, st.order, key);
  }

  lemma StepKeeps(cfg: Config, st: State, h: History, ev: Event)
    requires cfg.maxsize > 0 && Invariant(cfg, st, h)
    ensures Invariant(cfg, Step(cfg, st, ev), Record(cfg, h, ev))
  {
    match ev
    case Request(key) => RequestKeeps(cfg, st, h, key);
    case Finish(task, result) =>
      if task in st.running {
        FinishKeeps(cfg, st, h, task, result);
      }
    case Tick(_) =>
  }

  /** Every interleaving of requests, finishing tasks and clock ticks keeps the invariant. */
  lemma {:induction false} RunKeeps(cfg: Config, evs: seq<Event>)
    requires cfg.maxsize > 0
    ensures Invariant(cfg, Steps(cfg, EMPTY, evs), Records(cfg, evs))
  {
    if evs != [] {
      var before := evs[..|evs| - 1];
      RunKeeps(cfg, before);
      StepKeeps(cfg, Steps(cfg, EMPTY, before), Records(cfg, before), evs[|evs| - 1]);
    }
  }

  /** In every interleaving: the cache never exceeds its bound, every request is answered from the
      most recently touched keys, a fresh answer is at most ttl old and any cached answer is what
      the last finished task for the key returned. */
  lemma RunAnswers(cfg: Config, evs: seq<Event>, key: Key)
    requires cfg.maxsize > 0
    ensures var st, h := Steps(cfg, EMPTY, evs), Records(cfg, evs);
      && |st.entries| <= cfg.maxsize
      && Answering(st, key) == Reference(cfg, h, key)
      && (Answering(st, key).Wait? <==> key !in h.touches || |TouchedSince(h.touches, key)| >= cfg.maxsize)
  {
    var st, h := Steps(cfg, EMPTY, evs), Records(cfg, evs);
    RunKeeps(cfg, evs);
    AnswerMatches(cfg, st, h, key);
    RecentExact(h.touches, cfg.maxsize, key);
    hide Recency, LastFor, TouchedSince, Steps, Records, TasksMatch, Invariant;
    KeysBound(st.order, st.entries.Keys);
  }

  function Repeat(key: Key, n: nat): seq<Event> {
    if n == 0 then [] else Repeat(key, n - 1) + [Request(key)]
  }

  /** The least recent key goes first: one that was requested while cached, or whose task finished, stays cached
      through any run of fewer further events than the cache has room for. */
  lemma StaysCached(cfg: Config, evs: seq<Event>, ev: Event, key: Key, more: seq<Event>)
    requires |more| < cfg.maxsize
    requires var st := Steps(cfg, EMPTY, evs);
      (ev == Request(key) && key in st.entries) || (ev.Finish? && ev.task in st.running && st.running[ev.task] == key)
    ensures key in Steps(cfg, EMPTY, evs + [ev] + more).entries
  {
    RunKeeps(cfg, evs);
    LastTouched(cfg, Steps(cfg, EMPTY, evs), Records(cfg, evs), ev, key);
    RecordsAppend(cfg, evs, ev);
    hide Steps, Invariant, Record, Records;
    var h, all := Records(cfg, evs), evs + [ev] + more;
    var t := TouchesGrow(cfg, evs + [ev], more);
    SinceWithin(h.touches, key, t);
    RunAnswers(cfg, all, key);
    RunKeeps(cfg, all);
    HasEntry(cfg, Steps(cfg, EMPTY, all), Records(cfg, all), key);
  }

  lemma LastTouched(cfg: Config, st: State, h: History, ev: Event, key: Key)
    requires Invariant(cfg, st, h)
    requires (ev == Request(key) && key in st.entries) || (ev.Finish? && ev.task in st.running && st.running[ev.task] == key)
    ensures Record(cfg, h, ev).touches == h.touches + [key]
  {
    hide Recency, LastFor, Distinct, Finished;
  }

  lemma HasEntry(cfg: Config, st: State, h: History, key: Key)
    requires Invariant(cfg, st, h) && !Answering(st, key).Wait?
    ensures key in st.entries
  {
    hide Invariant;
  }

  /** Every event touches at most one key. */
  lemma {:induction false} TouchesGrow(cfg: Config, evs: seq<Event>, more: seq<Event>) returns (t: seq<Key>)
    ensures |t| <= |more| && Records(cfg, evs + more).touches == Records(cfg, evs).touches + t
  {
    hide Records, Record;
    if more == [] {
      t := [];
      assert evs + more == evs;
    } else {
      var n := |more| - 1;
      var earlier := TouchesGrow(cfg, evs, more[..n]);
      assert evs + more == evs + more[..n] + [more[n]];
      RecordsAppend(cfg, evs + more[..n], more[n]);
      var last := RecordTouches(cfg, Records(cfg, evs + more[..n]), more[n]);
      t := earlier + last;
      assert Records(cfg, evs).touches + t == Records(cfg, evs).touches + earlier + last;
    }
  }

  lemma RecordsAppend(cfg: Config, evs: seq<Event>, ev: Event)
    ensures Records(cfg, evs + [ev]) == Record(cfg, Records(cfg, evs), ev)
  {
    hide Record;
    assert (evs + [ev])[..|evs|] == evs;
  }

  lemma RecordTouches(cfg: Config, h: History, ev: Event) returns (t: seq<Key>)
    ensures |t| <= 1 && Record(cfg, h, ev).touches == h.touches + t
  {
    hide Cached, Reference, Finished;
    t := Record(cfg, h, ev).touches[|h.touches|..];
  }

  lemma {:induction false} SinceWithin(a: seq<Key>, k: Key, t: seq<Key>)
    ensures |TouchedSince(a + [k] + t, k)| <= |t|
  {
    var all, n := a + [k] + t, |t| - 1;
    if t == [] {
      assert all[|all| - 1] == k;
    } else {
      assert all[..|all| - 1] == a + [k] + t[..n];
      SinceWithin(a, k, t[..n]);
    }
  }

  /** When a task finishes, its response is what the next request for its key is answered with, unless the time to
      live is negative; an exception is served as a message with status 200. */
  lemma ServesLast(cfg: Config, evs: seq<Event>, task: nat, result: Result)
    requires cfg.maxsize > 0 && cfg.ttl >= 0.0 && task in Steps(cfg, EMPTY, evs).running
    ensures var key := Steps(cfg, EMPTY, evs).running[task];
      var answer := Answering(Steps(cfg, EMPTY, evs + [Finish(task, result)]), key);
      && answer.Fresh?
      && (result.Returned? ==> answer.data == result.response)
      && (result.Raised? ==> answer.data.status == 200 && answer.data.body == result.message)
  {
    hide Step;
    RunKeeps(cfg, evs);
    StepsAppend(cfg, evs, Finish(task, result));
    var st := Steps(cfg, EMPTY, evs);
    hide Steps;
    ServedNext(cfg, st, Records(cfg, evs), task, result);
  }

  lemma ServedNext(cfg: Config, st: State, h: History, task: nat, result: Result)
    requires cfg.maxsize > 0 && cfg.ttl >= 0.0 && Invariant(cfg, st, h) && task in st.running
    ensures var answer := Answering(Step(cfg, st, Finish(task, result)), st.running[task]);
      && answer.Fresh?
      && (result.Returned? ==> answer.data == result.response)
      && (result.Raised? ==> answer.data.status == 200 && answer.data.body == result.message)
  {
    hide Touch, Recency, Suffix, HoldsLast, Finished;
    var key := st.running[task];
    TouchLength(st.order, key);
    TouchIs(st.order, key);
    TouchDistinct(st.order, key);
    hide Distinct;
    LastIsNotFirst(st.order, key, cfg.maxsize);
  }

  lemma LastIsNotFirst(order: seq<Key>, key: Key, maxsize: nat)
    requires maxsize > 0 && Distinct(Touch(order, key))
    ensures |Touch(order, key)| > maxsize ==> Touch(order, key)[0] != key
  {
    TouchIs(order, key);
    var t := Touch(order, key);
    assert t[|t| - 1] == key;
  }

  /** The key is cached and its last response has not expired, told from the history alone. */
  predicate CachedFresh(cfg: Config, h: History, key: Key) {
    var last := LastFor(h.log, key);
    key in Cached(cfg, h) && last.Some? && h.now - last.value.time <= cfg.ttl
  }

  /** The key is cached but its last response has expired, told from the history alone. */
  predicate CachedExpired(cfg: Config, h: History, key: Key) {
    var last := LastFor(h.log, key);
    key in Cached(cfg, h) && last.Some? && h.now - last.value.time > cfg.ttl
  }

  /** Exactly when a request starts no task, in every interleaving: when its key is cached and fresh. That
      a task for the key is already running plays no part. */
  lemma NoTaskExact(cfg: Config, evs: seq<Event>, key: Key)
    requires cfg.maxsize > 0
    ensures var st, h := Steps(cfg, EMPTY, evs), Records(cfg, evs);
      && (Step(cfg, st, Request(key)).next == st.next <==> CachedFresh(cfg, h, key))
      && (Answering(st, key).Stale? <==> CachedExpired(cfg, h, key))
  {
    RunAnswers(cfg, evs, key);
    hide Recency, LastFor, Steps, Records, Touch;
  }

  /** After any run, every one of n requests for an expired key starts a refresh of its own, and all of
      them are answered with the same old data. */
  lemma RefreshesPileUp(cfg: Config, evs: seq<Event>, key: Key, n: nat)
    requires cfg.maxsize > 0
    requires CachedExpired(cfg, Records(cfg, evs), key)
    ensures var st, st' := Steps(cfg, EMPTY, evs), Steps(cfg, EMPTY, evs + Repeat(key, n));
      && Answering(st, key).Stale? && st'.next == st.next + n
      && Answering(st', key) == Answering(st, key).(refresh := st.next + n)
      && forall t :: st.next <= t < st.next + n ==> t in st'.running && st'.running[t] == key
  {
    NoTaskExact(cfg, evs, key);
    hide *;
    StaleStaysStale(cfg, evs, key, n);
  }

  lemma {:induction false} StaleStaysStale(cfg: Config, evs: seq<Event>, key: Key, n: nat)
    requires Answering(Steps(cfg, EMPTY, evs), key).Stale?
    ensures var st, st' := Steps(cfg, EMPTY, evs), Steps(cfg, EMPTY, evs + Repeat(key, n));
      && st'.next == st.next + n
      && Answering(st', key) == Answering(st, key).(refresh := st.next + n)
      && forall t :: st.next <= t < st.next + n ==> t in st'.running && st'.running[t] == key
  {
    hide Step, Steps;
    assert Answering(Steps(cfg, EMPTY, evs), key).refresh == Steps(cfg, EMPTY, evs).next;
    hide Answering;
    if n == 0 {
      assert evs + Repeat(key, 0) == evs;
    } else {
      StaleStaysStale(cfg, evs, key, n - 1);
      var before := evs + Repeat(key, n - 1);
      assert evs + Repeat(key, n) == before + [Request(key)];
      StepsAppend(cfg, before, Request(key));
      RefreshAgain(cfg, Steps(cfg, EMPTY, before), key);
    }
  }

  /** A run with two tasks for one key: the first response expires, then two requests arrive. */
  lemma RefreshedTwice(cfg: Config, k: Key, r: Result)
    requires cfg.maxsize > 0 && cfg.ttl >= 0.0
    ensures var evs := [Request(k), Finish(0, r), Tick(cfg.ttl + 1.0), Request(k), Request(k)];
      Steps(cfg, EMPTY, evs).running == map[1 := k, 2 := k]
  {
    hide Steps, Step;
    var e3 := [Request(k), Finish(0, r), Tick(cfg.ttl + 1.0)];
    ExpiredEntry(cfg, k, r);
    StepsAppend(cfg, e3, Request(k));
    StepsAppend(cfg, e3 + [Request(k)], Request(k));
    assert e3 + [Request(k)] + [Request(k)] == [Request(k), Finish(0, r), Tick(cfg.ttl + 1.0), Request(k), Request(k)];
    RefreshAgain(cfg, Steps(cfg, EMPTY, e3), k);
    RefreshAgain(cfg, Steps(cfg, EMPTY, e3 + [Request(k)]), k);
  }

  /** A response that was stored and has expired. */
  lemma ExpiredEntry(cfg: Config, k: Key, r: Result)
    requires cfg.maxsize > 0 && cfg.ttl >= 0.0
    ensures var st := Steps(cfg, EMPTY, [Request(k), Finish(0, r), Tick(cfg.ttl + 1.0)]);
      Answering(st, k).Stale? && st.running == map[] && st.next == 1
  {
    hide Steps;
    var e1, e2 := [Request(k)], [Request(k), Finish(0, r)];
    assert Steps(cfg, EMPTY, e1) == Step(cfg, EMPTY, Request(k)) by {
      StepsAppend(cfg, [], Request(k));
      StepsNone(cfg);
      assert [] + [Request(k)] == e1;
    }
    assert Steps(cfg, EMPTY, e2) == Step(cfg, Steps(cfg, EMPTY, e1), Finish(0, r)) by {
      StepsAppend(cfg, e1, Finish(0, r));
      assert e1 + [Finish(0, r)] == e2;
    }
    StepsAppend(cfg, e2, Tick(cfg.ttl + 1.0));
    assert e2 + [Tick(cfg.ttl + 1.0)] == [Request(k), Finish(0, r), Tick(cfg.ttl + 1.0)];
    assert Without([], k) == [];
  }

  lemma StepsNone(cfg: Config)
    ensures Steps(cfg, EMPTY, []) == EMPTY
  {
  }

  lemma StepsAppend(cfg: Config, evs: seq<Event>, ev: Event)
    ensures Steps(cfg, EMPTY, evs + [ev]) == Step(cfg, Steps(cfg, EMPTY, evs), ev)
  {
    hide Step;
    assert (evs + [ev])[..|evs|] == evs;
  }

  lemma RefreshAgain(cfg: Config, st: State, key: Key)
    requires Answering(st, key).Stale?
    ensures var st' := Step(cfg, st, Request(key));
      && st'.next == st.next + 1
      && Answering(st', key) == Answering(st, key).(refresh := st.next + 1)
      && st'.running == st.running[st.next := key]
  {
    hide Touch;
  }

  /** The decorator's shared cache object. */
  class SharedCache {
    const cfg: Config
    var order: seq<Key>
    var entries: map<Key, Entry>
    var running: map<nat, Key>
    var done: set<nat>
    var next: nat
    var now: real
    ghost var history: History

    ghost function View(): State
      reads this
    {
      State(order, entries, running, done, next, now)
    }

    ghost predicate Valid()
      reads this
    {
      cfg.maxsize > 0 && Invariant(cfg, View(), history)
    }

    constructor (maxsize: nat, ttl: real)
      requires maxsize > 0
      ensures Valid() && View() == EMPTY && history == BEGINNING && cfg == Config(maxsize, ttl)
    {
      cfg := Config(maxsize, ttl);
      order, entries, running, done, next, now := [], map[], map[], {}, 0, 0.0;
      history := BEGINNING;
    }

    /** Serves one request: moves a cached key to the end, answers from fresh data, and otherwise
        starts a task, waiting for it only if nothing is cached. */
    method Handle(key: Key) returns (answer: Answer)
      requires Valid()
      modifies this
      ensures Valid()
      ensures View() == Step(cfg, old(View()), Request(key))
      ensures history == Record(cfg, old(history), Request(key))
      ensures answer == Reference(cfg, old(history), key)
    {
      hide Recency, Touch, LastFor, Distinct, Invariant;
      ghost var before, past := View(), history;
      AnswerMatches(cfg, before, past, key);
      StepKeeps(cfg, before, past, Request(key));
      history := Record(cfg, past, Request(key));
      if key in entries {
        order := Touch(order, key);
        var value := entries[key];
        if value.task !in done || value.expiration >= now {
          return Fresh(value.data);
        }
        answer := Stale(value.data, next);
      } else {
        answer := Wait(next);
      }
      running, next := running[next := key], next + 1;
    }

    /** The callback of a finished task. */
    method UpdateCache(task: nat, result: Result)
      requires Valid() && task in running
      modifies this
      ensures Valid()
      ensures View() == Step(cfg, old(View()), Finish(task, result))
      ensures history == Record(cfg, old(history), Finish(task, result))
    {
      hide Recency, Touch, LastFor, Distinct, Invariant;
      ghost var before, past := View(), history;
      StepKeeps(cfg, before, past, Finish(task, result));
      history := Record(cfg, past, Finish(task, result));
      var key := running[task];
      running, done := running - {task}, done + {task};
      entries := entries[key := Entry(ToResponse(result), now + cfg.ttl, task)];
      order := Touch(order, key);
      if |order| > cfg.maxsize {
        entries := entries - {order[0]};
        order := order[1..];
      }
    }

    method Sleep(delay: real)
      requires Valid() && delay >= 0.0
      modifies this
      ensures Valid() && history == Record(cfg, old(history), Tick(delay))
      ensures View() == Step(cfg, old(View()), Tick(delay))
    {
      hide Recency, Touch, LastFor, Distinct, Invariant;
      StepKeeps(cfg, View(), history, Tick(delay));
      history := Record(cfg, history, Tick(delay));
      now := now + delay;
    }
  }
}

/** The sliding window of episodes that rllib/algorithms/algorithm.py keeps for smoothing its metrics. */
module EpisodeHistory {

  datatype Episode = Episode(id: nat)

  /** The Python slice s[-n:], which for n = 0 is the whole list. */
  function FromEnd(s: seq<Episode>, n: nat): seq<Episode> {
    if n == 0 || n >= |s| then s else s[|s| - n..]
  }

  /** The last n elements, or all of them if there are fewer. */
  function Last(s: seq<Episode>, n: nat): (r: seq<Episode>)
    ensures |r| == if n <= |s| then n else |s|
  {
    if n >= |s| then s else s[|s| - n..]
  }

  function Max(a: nat, b: nat): nat {
    if a < b then b else a
  }

  /** The whole stream of episodes of a run, one list per iteration. */
  function Stream(batches: seq<seq<Episode>>): seq<Episode> {
    if batches == [] then [] else Stream(batches[..|batches| - 1]) + batches[|batches| - 1]
  }

  /** The history kept after a run with window n. */
  function Kept(n: nat, batches: seq<seq<Episode>>): seq<Episode> {
    if batches == [] then []
    else FromEnd(Kept(n, batches[..|batches| - 1]) + batches[|batches| - 1], n)
  }

  /** The episodes that the metrics of the next iteration are computed from. */
  function Metrics(n: nat, kept: seq<Episode>, batch: seq<Episode>): seq<Episode> {
    if n > |batch| then FromEnd(kept, n - |batch|) + batch else batch
  }

  lemma LastOfSum(a: seq<Episode>, b: seq<Episode>, m: nat)
    requires m <= |b|
    ensures Last(a + b, m) == Last(b, m)
  {
    if m == |a + b| {
      assert a == [] && a + b == b;
    } else {
      assert Last(a + b, m) == (a + b)[|a| + |b| - m..] == b[|b| - m..];
      assert m == |b| ==> b[0..] == b;
    }
  }

  lemma LastOfLast(s: seq<Episode>, t: seq<Episode>, n: nat, m: nat)
    requires m <= n + |t|
    ensures Last(Last(s, n) + t, m) == Last(s + t, m)
  {
    if n >= |s| {
      assert Last(s, n) == s;
    } else {
      var gone := SplitLast(s, n);
      hide Last;
      Associate(gone, Last(s, n), t);
      LastOfSum(gone, Last(s, n) + t, m);
    }
  }

  lemma SplitLast(s: seq<Episode>, n: nat) returns (gone: seq<Episode>)
    requires n < |s|
    ensures s == gone + Last(s, n)
  {
    gone := s[..|s| - n];
  }

  lemma Associate(a: seq<Episode>, b: seq<Episode>, c: seq<Episode>)
    ensures a + b + c == a + (b + c)
  {
  }

  /** With a window of at least one the kept history is the last n episodes of the stream; with a window
      of zero nothing is ever dropped, so it is that only while the stream is empty. */
  lemma {:induction false} KeptExact(n: nat, batches: seq<seq<Episode>>)
    ensures Kept(n, batches) == if n > 0 then Last(Stream(batches), n) else Stream(batches)
    ensures Kept(n, batches) == Last(Stream(batches), n) <==> n > 0 || Stream(batches) == []
  {
    if batches != [] {
      var front, batch := batches[..|batches| - 1], batches[|batches| - 1];
      KeptExact(n, front);
      LastOfLast(Stream(front), batch, n, n);
    }
  }

  /** Written out: the history is the end of the stream, of the length of the window or all of it. */
  lemma KeptIsEnd(n: nat, batches: seq<seq<Episode>>)
    requires n > 0
    ensures var kept, all := Kept(n, batches), Stream(batches);
      |kept| == (if n <= |all| then n else |all|) && kept == all[|all| - |kept|..]
  {
    hide Kept, Stream;
    KeptExact(n, batches);
  }

  /** A window of zero keeps the one episode that should be dropped. */
  lemma ZeroWindowKeeps(e: Episode)
    ensures Kept(0, [[e]]) == [e] && Last(Stream([[e]]), 0) == []
  {
    KeptStep(0, [], [e]);
    assert [] + [[e]] == [[e]] && [] + [e] == [e];
  }

  /** The episodes used for metrics are the last max(n, new) of the stream, or all of it if it is
      shorter, and they never exceed the window when older episodes are added. */
  lemma MetricsExact(n: nat, batches: seq<seq<Episode>>, batch: seq<Episode>)
    ensures var used := Metrics(n, Kept(n, batches), batch);
      && used == Last(Stream(batches) + batch, Max(n, |batch|))
      && (n > |batch| ==> |used| <= n)
  {
    hide Kept, Stream;
    KeptExact(n, batches);
    if n > |batch| {
      FillUp(Stream(batches), batch, n);
    } else {
      assert Last(Stream(batches) + batch, |batch|) == batch;
    }
  }

  lemma FillUp(s: seq<Episode>, batch: seq<Episode>, n: nat)
    requires n > |batch|
    ensures FromEnd(Last(s, n), n - |batch|) + batch == Last(s + batch, n)
  {
    EndOfLast(s, n, n - |batch|);
    if n >= |s| + |batch| {
      assert Last(s, n - |batch|) == s;
    } else {
      assert Last(s, n - |batch|) == s[|s| - (n - |batch|)..];
      assert (s + batch)[|s| + |batch| - n..] == s[|s| - (n - |batch|)..] + batch;
    }
  }

  lemma EndOfLast(s: seq<Episode>, n: nat, m: nat)
    requires 0 < m <= n
    ensures FromEnd(Last(s, n), m) == Last(s, m)
  {
    if n < |s| {
      assert s[|s| - n..][n - m..] == s[|s| - m..];
    }
  }

  /** One more iteration. */
  lemma KeptStep(n: nat, batches: seq<seq<Episode>>, batch: seq<Episode>)
    ensures Kept(n, batches + [batch]) == FromEnd(Kept(n, batches) + batch, n)
    ensures Stream(batches + [batch]) == Stream(batches) + batch
  {
    hide FromEnd;
    assert (batches + [batch])[..|batches|] == batches;
  }

  class Smoothing {
    const window: nat
    var history: seq<Episode>
    ghost var batches: seq<seq<Episode>>

    ghost predicate Valid()
      reads this
    {
      history == Kept(window, batches)
    }

    constructor (window: nat)
      ensures Valid() && this.window == window && batches == []
    {
      this.window, history, batches := window, [], [];
    }

    /** The history part of one iteration. The assertion of the source holds on every run. */
    method Compile(episodes: seq<Episode>) returns (used: seq<Episode>)
      requires Valid()
      modifies this
      ensures Valid() && batches == old(batches) + [episodes]
      ensures window > 0 ==> history == Last(Stream(batches), window)
      ensures used == Last(Stream(batches), Max(window, |episodes|))
    {
      hide FromEnd, Last, Kept, Stream;
      used := episodes;
      MetricsExact(window, batches, episodes);
      KeptStep(window, batches, episodes);
      KeptExact(window, batches + [episodes]);
      if window > |episodes| {
        used := FromEnd(history, window - |episodes|) + episodes;
        assert |used| <= window;
      }
      history := FromEnd(history + episodes, window);
      batches := batches + [episodes];
    }
  }
}

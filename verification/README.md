# Verified models of Ray's Python tooling and control loops

This project models, in Dafny 4.11, those pieces of Ray whose correctness spans several functions or
whole runs, and proves what they promise. `dafny verify dfyconfig.toml` checks everything.

| module | what it models |
|---|---|
| `Graphs`, `DepAnalysis` | the dependency graph of the CI, its path query and its cycle search |
| `Texts`, `Json`, `Textproto` | the one-pass rewriter from textproto to JSON, on characters, and a JSON reader |
| `ResponseCache` | the dashboard's TTL and LRU response cache, as interleaved steps |
| `ObservableDict` | the dashboard's dictionary with lazy proxies and queued change notices |
| `Wheels` | printing, parsing and rewriting wheel file names |
| `SyncEvaluation`, `AsyncEvaluation` | RLlib's evaluation rounds, waited for and with requests in flight |
| `TrainIteration`, `EpisodeHistory` | RLlib's retry and stop machine, and its window of episodes |
| `Sequences`, `Sorting`, `TaskListing`, `MemoryTables` | the stable sort, the merged task listing and the object reference table |
| `Rollouts` | the rollout loop of `rllib evaluate` and its saver |
| `ReleaseLogs` | collecting release test results from builds |

Loops and objects of the source are methods and classes, proved equal to specification functions of their
inputs or old state; the theorems are lemmas about those functions. A run whose length depends on an
environment (finished tasks, ready requests, environment steps, training attempts) is modelled against a list of
the environment's answers, which may end at any point, so every statement holds of every finite run and every
prefix of one. `hide` statements keep definitions that a proof does not need out of the solver's sight.

## Where a promise does not hold of the code

The members named prove each of these: the exact condition under which the promise holds, and an input for which it does
not.

- A dependency query answers "no path" for every node without outgoing edges, although its documentation
  promises to find any dependency path (`DepAnalysis.DependsOn`, `DepAnalysis.LeafQueryIsMissed`).
- A message block without content loses a closing bracket, and a bare name such as an enum value is copied as it is, so
  such an item is not JSON (`Textproto.ReadItem`, `Textproto.EmptyMessageUnread`, `Textproto.EnumUnread`); a field value
  that ends in a brace is taken for the end of a block (`Textproto.FieldRewriteExact`, `Textproto.BraceFieldSpoils`).
- The cache's guard against refreshing an expired entry twice never holds: a request starts no task exactly when its key
  is cached and fresh, whether or not a refresh is running (`ResponseCache.NoTaskExact`, `ResponseCache.RefreshedTwice`).
- A None value set on a missing key, or deleted, is not notified, so replaying the notices of a run rebuilds the
  dictionary exactly when every key is there if and only if it was when its value last changed
  (`ObservableDict.RunReplayExact`, `ObservableDict.NoneIsLost`).
- Wheel names round-trip only for ray versions of lower-case letters, digits and dots, one-digit major and at most
  two-digit minor Python versions (`Wheels.RoundTrip`, `Wheels.LongMinorLost`); a rewritten URL matches the requested
  version only if it matched before or ends in a name as the printer writes it (`Wheels.RewriteMatches`,
  `Wheels.OddNameKept`).
- With a smoothing window of zero the episode history is never cut (`EpisodeHistory.KeptExact`, `EpisodeHistory.ZeroWindowKeeps`).
- More consecutive worker failures than `num_consecutive_worker_failures_tolerance` end an iteration only if it has had
  no successful step, or is complete anyway (`TrainIteration.ToleranceExact`, `TrainIteration.ToleranceMissed`).
- Sorting does not make a listing of tasks deterministic, as its comment says, when two nodes show rows for one id that
  do not commute and that the limit does not cut, or fail in different unexpected ways (`TaskListing.OrderExact`,
  `TaskListing.OrderMatters`).
- A negative reference count can make a valid entry untyped (`MemoryTables.ValidIsTyped`,
  `MemoryTables.NegativeCountUntyped`), and sizes below -1 break the sum over types (`MemoryTables.TypesConserve`,
  `MemoryTables.NegativeSizeLost`).

## Model

| member | source | states |
|---|---|---|
| DepAnalysis.DepGraph.constructor | ci/pipeline/py_dep_analysis.py:27-31 | the empty graph satisfies the invariant |
| DepAnalysis.DepGraph.Register | ci/pipeline/py_dep_analysis.py:172-173 | a new module gets the next id; ids stay dense and injective |
| DepAnalysis.DepGraph.NewDep | ci/pipeline/py_dep_analysis.py:79-89 | adds exactly one edge and at most one module, keeps ids dense and edge ends known; fails exactly for an unknown source other than the dependency itself, after registering the dependency |
| DepAnalysis.DepGraph.InvIds | ci/pipeline/py_dep_analysis.py:178-179 | the reverse index is a two-sided inverse of the ids |
| DepAnalysis.Depends | ci/pipeline/py_dep_analysis.py:229-250 | a found list is an edge walk from tid to qid through newly visited nodes without repeats after its first element; on failure everything newly visited is closed under successors and has no edge to qid |
| DepAnalysis.DependsOn | ci/pipeline/py_dep_analysis.py:284 | from nothing visited, a path is found exactly when qid has an entry in the edges and is reachable by one or more edges; it has at most one element more than there are nodes |
| Graphs.DistinctBound | ci/pipeline/py_dep_analysis.py:241-250 | pigeonhole: a path without repeats is no longer than the set of nodes it draws from |
| DepAnalysis.LeafQueryIsMissed | ci/pipeline/py_dep_analysis.py:236-237 | a direct dependency that has no entry in the edges: reachable, yet outside the condition under which a path is found |
| DepAnalysis.FindCircularDepImpl | ci/pipeline/py_dep_analysis.py:292-304 | true exactly when a cycle is reachable; then the branch is extended to a walk whose only repeated node is its last, and otherwise it is exactly restored; terminates on every graph |
| DepAnalysis.ClosedBranchCycle | ci/pipeline/py_dep_analysis.py:296-299 | the branch of a successful search carries a genuine cycle through its last node |
| DepAnalysis.DepGraph.FindCircularDep | ci/pipeline/py_dep_analysis.py:307-324 | empty exactly when the graph is acyclic; every recorded branch starts at a successor of its module and closes a cycle; no closing node occurs in an earlier branch; every module that reaches a cycle is covered by a recorded branch |
| Graphs.NoCycleThroughSuccessors | ci/pipeline/py_dep_analysis.py:295-304 | a node none of whose successors reaches a cycle reaches none |
| Graphs.ClosedSetSeparates | ci/pipeline/py_dep_analysis.py:241-250 | an exhausted search proves that no walk to the query node exists |
| Textproto.TextprotoSplit | ci/run/bazel.py:42-71 | the loop over lines with its list of pieces yields the items of the specification function |
| Textproto.SplitConserves | ci/run/bazel.py:42-71 | for any lines at all, the items together are the pieces of the lines in order, each behind its separator and the line break before it: nothing is lost, repeated or reordered |
| Textproto.SplitCounts | ci/run/bazel.py:64-71 | for any lines at all, there is one item per line that is a lone closing brace, and one more if other lines follow the last of them |
| Textproto.OpenLine | ci/run/bazel.py:44-53 | the opening pattern rewrites a key and brace as a bracket, quoted key, comma and bracket |
| Textproto.FieldLine | ci/run/bazel.py:15-20 | the field pattern rewrites a key and value as a pair, with quoted values encoded |
| Textproto.OpenParts | ci/run/bazel.py:44-53 | any line, divided into blanks, key, blanks and rest, is rewritten by the opening pattern exactly when it has a key and the rest is an opening brace |
| Textproto.FieldParts | ci/run/bazel.py:45-60 | any line, divided into blanks, key and rest, is rewritten by the field pattern exactly when it has a key and the rest starts with a colon and a blank |
| Textproto.BlanksAs | ci/run/bazel.py:45-60 | a field behind a vertical tab and a form feed, as text |
| Textproto.KeyText | ci/run/bazel.py:20-53 | between its two quotes the written key is the key, character by character |
| Textproto.TranslatesAs | ci/run/bazel.py:42-71 | three lines with keys of every kind of character and two kinds of line break, and the one item they give, as text |
| Textproto.RewriteOpen | ci/run/bazel.py:49-68 | the whole row of an opening line: nothing is due after it and the later patterns leave it alone |
| Textproto.RewriteField | ci/run/bazel.py:49-68 | the whole row of a field line: the opening and closing patterns leave it alone and a separator is due |
| Textproto.RewriteClose | ci/run/bazel.py:49-68 | the whole row of a closing line: it ends an item exactly when it is not indented |
| Textproto.FieldRewriteExact | ci/run/bazel.py:49-60 | a field line, with any value but a lone opening brace, becomes its pair exactly when the value does not end in a brace; otherwise the brace is replaced inside the pair and the row closes the block before it |
| Textproto.RewritePrinted | ci/run/bazel.py:49-68 | the rows of a printed tree, for every layout of blanks and line breaks |
| Textproto.AdvanceNode | ci/run/bazel.py:54-68 | the one bit of state suffices: a tree appends its recursive rendering, and a top-level tree is yielded |
| Textproto.SplitPrintedForest | ci/run/bazel.py:42-71 | one item per top-level message, each the recursive rendering of its tree, with or without a line break at the end |
| Textproto.LastBreakIgnored | ci/run/bazel.py:50-52 | for any lines at all, a line break at the end of the last one makes no difference |
| Textproto.LexRender | ci/run/bazel.py:74-76 | the text of a tree without bare names lexes to the tokens of the tree, whatever follows |
| Json.LexWordFails | ci/run/bazel.py:76 | a word that is no number or literal name does not lex, whatever follows |
| Textproto.LexNamed | ci/run/bazel.py:74-76 | a bare name anywhere in a tree keeps its text from lexing, whatever follows |
| Textproto.ParseTokens | ci/run/bazel.py:74-76 | the tokens of a tree without empty blocks parse back to it, whatever follows |
| Textproto.TokensDepth | ci/run/bazel.py:54-57 | as many brackets stay open as there are empty blocks |
| Textproto.ReadItem | ci/run/bazel.py:74-76 | an item reads back as its tree exactly when no message block is empty and no value is a bare name, and otherwise is not JSON |
| Textproto.DecodeJson | ci/run/bazel.py:74-76 | a decoder that knows only JSON values finds the keys, values and children of the tree again |
| Textproto.EmptyMessageUnread | ci/run/bazel.py:42-76 | a neat message without content whose item is not JSON |
| Textproto.EnumUnread | ci/run/bazel.py:58-60 | a neat message with an enum value whose item is not JSON |
| Textproto.ReadItems | ci/run/bazel.py:74-76 | the same for every item of a forest, in order |
| Textproto.BraceItemDepth | ci/run/bazel.py:54-60 | a last field that is a literal followed by a brace closes one bracket too many, or two after other children |
| Textproto.BraceFieldSpoils | ci/run/bazel.py:42-76 | the item of such a message, and that it is never JSON |
| Textproto.TranslateAndRead | ci/run/bazel.py:42-76 | on every neatly printed forest, translating and reading gives each tree without empty blocks and bare names, from which a decoder finds its keys, values and children again, and fails on the others, with or without a line break at the end |
| Json.ReadBalanced | ci/run/bazel.py:76 | what reads as JSON has balanced brackets outside strings |
| Json.ReadClean | ci/run/bazel.py:76 | what reads as JSON has no opening bracket directly after a closing one |
| Json.ReadExact | ci/run/bazel.py:76 | a text reads as a value exactly when the value is well formed and the text lexes to its tokens as a separate writer lists them |
| Json.ParseSound | ci/run/bazel.py:76 | what is parsed off a token list is the writing of a well formed value |
| Json.ParseComplete | ci/run/bazel.py:76 | every written value parses back, whatever follows |
| Json.LiteralExact | ci/run/bazel.py:76 | the literals are exactly the names and the numbers in the grammar of section 6 of RFC 8259, and Python's three further names |
| Json.NumberExact | ci/run/bazel.py:76 | a number is accepted exactly when it has a sign, whole, fraction and exponent part of that grammar |
| Json.QuoteAfterUnits | ci/run/bazel.py:76 | a string of whole characters and escape sequences of section 7 of RFC 8259 is closed by the quote that follows them |
| Json.UnitsBeforeQuote | ci/run/bazel.py:76 | before the quote that closes a string there are only whole characters and escape sequences |
| Json.SpaceExact | ci/run/bazel.py:76 | exactly the four white space characters of RFC 8259 are skipped between tokens |
| ResponseCache.SharedCache.constructor | dashboard/optional_utils.py:185-186 | the empty cache satisfies the invariant; the size bound must be positive, as the source asserts |
| ResponseCache.SharedCache.Handle | dashboard/optional_utils.py:192-209 | one request step: recency update, answer and started task; the answer is the reference answer, told from a history that does not look at the cache |
| ResponseCache.SharedCache.UpdateCache | dashboard/optional_utils.py:211-229 | one completion step: stores, moves to the end, evicts the least recent entry above the bound |
| ResponseCache.SharedCache.Sleep | dashboard/optional_utils.py:207 | the clock that expiration is compared with moves on and nothing else |
| ResponseCache.TouchSuffix | dashboard/optional_utils.py:226-228 | touching and truncating the truncated recency list equals truncating the touched list |
| ResponseCache.RequestKeeps | dashboard/optional_utils.py:204-209 | a request keeps the invariant |
| ResponseCache.FinishKeeps | dashboard/optional_utils.py:211-229 | a finished task keeps the invariant |
| ResponseCache.StepKeeps | dashboard/optional_utils.py:192-236 | every step keeps the invariant: the keys are the most recently touched ones in recency order, every stored task is done, every entry holds the last completed response of its key, and running tasks are those started and not finished |
| ResponseCache.RunKeeps | dashboard/optional_utils.py:180-236 | after every interleaving of requests, completions and ticks the cache matches a history that is recorded without looking at the cache |
| ResponseCache.AnswerMatches | dashboard/optional_utils.py:204-236 | wherever the invariant holds, the answer read off the cache is the one told from the history |
| ResponseCache.RunAnswers | dashboard/optional_utils.py:204-236 | in every interleaving the size bound holds, a request waits exactly when its key was never touched or as many other keys as the cache has room for were touched since, and the answer is the reference answer: the last response, at most the time to live old unless a refresh was started |
| ResponseCache.TouchedSinceExact | dashboard/optional_utils.py:204-228 | the keys touched since are, by position, those after the last touch |
| ResponseCache.RecentExact | dashboard/optional_utils.py:226-229 | a key is among the n most recent exactly when it was touched and fewer than n other keys were touched after it |
| ResponseCache.StaysCached | dashboard/optional_utils.py:204-229 | a key that is requested while cached, or whose task finishes, stays cached through any run of fewer further events than the cache has room for |
| ResponseCache.ServesLast | dashboard/optional_utils.py:211-225 | in every interleaving the response of a task that finishes is what the next request is answered with, even with a time to live of zero; an exception is served with status 200 and its message |
| ResponseCache.NoTaskExact | dashboard/optional_utils.py:205-232 | in every interleaving a request starts no task exactly when, told from the history, its key is among the most recently touched and its last response is at most the time to live old |
| ResponseCache.RefreshesPileUp | dashboard/optional_utils.py:205-232 | after any run, n requests for a key that is cached but expired start n tasks for it, all running at once, and are all answered with the same old data |
| ResponseCache.RefreshedTwice | dashboard/optional_utils.py:205-232 | a run of five steps that ends with two tasks for one key |
| ObservableDict.MakeImmutable | dashboard/utils.py:311-320 | the proxy unwraps to the value; lists and dictionaries, and only they, get their read-only kind; only values of foreign types fail |
| ObservableDict.Observed.constructor | dashboard/utils.py:442-444 | starts with the given dictionary, no proxies and an empty log |
| ObservableDict.Observed.Get | dashboard/utils.py:416-420 | returns a proxy of the current value; a missing key and a foreign value are the two errors |
| ObservableDict.Observed.Iterate | dashboard/utils.py:425-429 | yields exactly the current keys and completes the proxies; fails exactly when some value has no proxy |
| ObservableDict.Observed.Set | dashboard/utils.py:446-463 | stores the value, invalidates the proxy, queues a notice exactly on a change |
| ObservableDict.Observed.Delete | dashboard/utils.py:465-470 | removes the key, queues a notice exactly if it had a value |
| ObservableDict.Observed.Reset | dashboard/utils.py:472-477 | ends equal to the argument, by removing other keys and assigning the argument's values, with exactly one notice per key whose value was removed, added or altered |
| ObservableDict.Observed.RemoveOthers | dashboard/utils.py:474-475 | keeps exactly the common keys, unchanged, with one notice per value removed |
| ObservableDict.Observed.AssignAll | dashboard/utils.py:476-477 | ends equal to the argument, with one notice per value added or altered since the reset began |
| ObservableDict.Observed.Rebuilds | dashboard/utils.py:435-477 | after every run of assignments, removals and resets of the object its queue is a faithful log, with the exact condition for rebuilding the dictionary from it; without None values it always does |
| ObservableDict.SetLogged | dashboard/utils.py:446-463 | an assignment keeps the queue a faithful log: replaying agrees with the dictionary and every notice reports the value before it |
| ObservableDict.DeleteLogged | dashboard/utils.py:465-470 | a deletion keeps the queue a faithful log |
| ObservableDict.RunLogged | dashboard/utils.py:435-477 | after any run the queue is a faithful log: replaying agrees with the dictionary up to None, and every notice reports the value before it |
| ObservableDict.RunReplayExact | dashboard/utils.py:435-477 | replaying the queue of a whole run gives its last dictionary exactly when every key is there if and only if it was when its value last changed |
| ObservableDict.NoneIsLost | dashboard/utils.py:447-463 | one assignment of None to a missing key, which no replay gives back |
| ObservableDict.SetReplayExact | dashboard/utils.py:447-463 | an assignment keeps the replay equal to the dictionary unless it gives None to a missing key |
| ObservableDict.DeleteReplayExact | dashboard/utils.py:466-470 | a deletion keeps it equal unless it removes a None |
| Wheels.DecimalValue | release/ray_release/util.py:148-150 | printed numbers read back |
| Wheels.ParsePrintedPython | release/ray_release/config.py:112-118 | a printed Python version with a one-digit major parses back |
| Wheels.ParsePythonExact | release/ray_release/config.py:112-118 | a version is parsed exactly from a digit, an optional dot, digits and an optional line break, to the numbers they make |
| Wheels.MatchName | release/ray_release/wheels.py:115-118 | the pattern matches a printed name and captures both versions |
| Wheels.SearchName | release/ray_release/wheels.py:115-118 | the leftmost match of the pattern after any prefix is the printed name |
| Wheels.ParsedTogether | release/ray_release/wheels.py:111-130 | a ray version is never parsed without a Python version |
| Wheels.RoundTrip | release/ray_release/wheels.py:100-130 | parsing a printed name after any prefix returns both versions exactly under the stated condition |
| Wheels.LongMinorLost | release/ray_release/wheels.py:100-130 | a name with a three-digit minor version that does not parse back |
| Wheels.PrintsAs | release/ray_release/wheels.py:100-108 | two names as text, one with and one without the ABI flag |
| Wheels.AbiExact | release/ray_release/wheels.py:100-108 | the ABI flag is printed exactly for minor versions up to 7 |
| Wheels.VersionsAs | release/ray_release/wheels.py:115-118 | characters that a ray version may and may not have |
| Wheels.FirstDigitsCount | release/ray_release/wheels.py:111-130 | of two different Python tags the first is taken, and a line break at the end is accepted |
| Wheels.ReplaceFirst | release/ray_release/wheels.py:348 | the leftmost occurrence is replaced and the search goes on behind it |
| Wheels.ReplaceNone | release/ray_release/wheels.py:348 | without an occurrence nothing changes |
| Wheels.ReplaceAtEnd | release/ray_release/wheels.py:348 | replacing a name that ends the URL leaves the new name at the end, however often it occurs before |
| Wheels.ReplaceElsewhere | release/ray_release/wheels.py:348 | replacing a name that does not end the URL never makes it end in the requested tail |
| Wheels.RewriteMatches | release/ray_release/wheels.py:321-357 | for every URL, the rewritten URL matches exactly when it matched or ends in the name its parsed versions print to |
| Wheels.RewriteKeeps | release/ray_release/wheels.py:321-357 | a URL that matches already, or that is not parsed, is left alone |
| Wheels.RewriteInPlace | release/ray_release/wheels.py:321-357 | a URL that holds a printed name only at its end keeps everything before it and gets the name for the requested version |
| Wheels.OddNameKept | release/ray_release/wheels.py:321-357 | a URL that is parsed as version 2 for Python 3.8 and not rewritten to match 3.9 |
| Wheels.RewriteCanonical | release/ray_release/wheels.py:321-369 | a URL that ends in a printed name is rewritten to one that names the requested Python version and the same ray version, and is a fixed point |
| Wheels.SameTail | release/ray_release/wheels.py:360-369 | a URL matches at most one Python version that fits in three digits |
| SyncEvaluation.CountAsked | rllib/algorithms/algorithm.py:865-872 | counts the workers whose index times the batch size is below the units left |
| SyncEvaluation.FragmentLeast | rllib/algorithms/algorithm.py:523-535 | the fragment length is one for episodes, and otherwise the least with which the workers' batches together reach the duration |
| SyncEvaluation.SumExact | rllib/algorithms/algorithm.py:890-899 | what a round adds is the sum over its batches |
| SyncEvaluation.AskedIsMinimum | rllib/algorithms/algorithm.py:865-872 | so many are asked as the units left need, or all |
| SyncEvaluation.RoundLeft | rllib/algorithms/algorithm.py:857-872 | a round asks all workers or exactly as many as still needed |
| SyncEvaluation.EvaluateRemote | rllib/algorithms/algorithm.py:853-911 | against any answers of the workers, timeouts included: rounds go on exactly until the duration is reached, a round times out or no answer comes, and what is done is the specified total |
| SyncEvaluation.Overshoot | rllib/algorithms/algorithm.py:857-899 | with batches of at most u the duration is overshot by less than u |
| SyncEvaluation.FullRounds | rllib/algorithms/algorithm.py:857-899 | with full batches k rounds give k times n batches, or exactly as many as the duration needs |
| SyncEvaluation.FewestRounds | rllib/algorithms/algorithm.py:857-899 | with full batches the duration is reached in as few rounds as n workers allow, and not before |
| SyncEvaluation.OneRoundEnough | rllib/algorithms/algorithm.py:523-535 | the configured fragment length makes one round suffice |
| SyncEvaluation.OneRoundReaches | rllib/algorithms/algorithm.py:857-899 | if the batches needed fit in one round, any number of full rounds reaches the duration |
| SyncEvaluation.Evaluate | rllib/algorithms/algorithm.py:507-535 | episodes are never overshot and take ceil(duration / n) rounds whatever the batches hold; in timesteps what is done is the specified total over the rounds made, the overshoot is below one configured batch, and with full batches the first round reaches the duration |
| AsyncEvaluation.Evaluator.constructor | rllib/algorithms/algorithm.py:558-564 | nothing is in flight and no worker has a number |
| AsyncEvaluation.Evaluator.CallOnAllAvailable | rllib/execution/parallel_requests.py:155-161 | every worker without a request in flight is sent one with the current number, and no other |
| AsyncEvaluation.SentExact | rllib/execution/parallel_requests.py:155-161 | idle workers get a request with the current number, and requests in flight keep theirs |
| AsyncEvaluation.Evaluator.Finish | rllib/algorithms/algorithm.py:1024-1030 | a batch is sampled under the weights published with the request's number, although an unchanged number skips the update |
| AsyncEvaluation.Evaluator.Collect | rllib/algorithms/algorithm.py:1053-1073 | counts exactly the batches with the current number whose place is below the units left; failed workers are removed |
| AsyncEvaluation.CountingExact | rllib/algorithms/algorithm.py:1063-1066 | by position: a finished request is counted exactly when it succeeded, carries the current number and has p times u below the units left, where p requests in flight finished before it |
| AsyncEvaluation.AllCurrent | rllib/algorithms/algorithm.py:1063-1066 | of requests that are all current and successful, so many are counted as the units left need, or all |
| AsyncEvaluation.FailingExact | rllib/algorithms/algorithm.py:1055-1073 | by position: the failures are the requests in flight that ended in an error |
| AsyncEvaluation.SurvivingExact | rllib/algorithms/algorithm.py:1053-1073 | a worker stays exactly when no request of it in flight failed, and a request stays in flight exactly when it is not ready |
| AsyncEvaluation.UnitsOne | rllib/algorithms/algorithm.py:1075-1088 | a batch counts as one episode or as its timesteps |
| AsyncEvaluation.CountingBounded | rllib/algorithms/algorithm.py:1063-1066 | the batches of one round stay below the units left until the last one |
| AsyncEvaluation.RoundBounded | rllib/algorithms/algorithm.py:1053-1088 | one more round keeps the bounds on what was counted |
| AsyncEvaluation.RunCounts | rllib/algorithms/algorithm.py:1039-1088 | over a whole evaluation episodes never exceed the duration and batches of at most u steps overshoot it by less than u |
| AsyncEvaluation.Evaluator.Evaluate | rllib/algorithms/algorithm.py:983-1088 | what is counted is exactly the specified run, sampled under the weights of this evaluation; it stops at the first moment at which the duration is reached or no worker is left, so it falls short with a worker left only if the schedule is used up |
| AsyncEvaluation.Evaluator.EvaluateAll | rllib/algorithms/algorithm.py:983-1109 | over every run of evaluations and recoveries, what each counts is exactly what its evaluation ends with, sampled under its own weights and within the bounds; the run stops exactly at the first evaluation with failures and no recovery |
| AsyncEvaluation.Evaluator.Recover | rllib/algorithms/algorithm.py:2409-2413 | the workers are those not removed, in order, and the new ones, without a number; what other workers hold, requests in flight and the invariant stay |
| TrainIteration.TrainIterCtx.constructor | rllib/algorithms/algorithm.py:2875-2891 | records the counters and the clock at entry, with minus one failures |
| TrainIteration.TrainIterCtx.ShouldStop | rllib/algorithms/algorithm.py:2896-2953 | counts failures only without a result; with one, and without an execution plan, stops exactly when every minimum that is set is met by the growth of the agents' or the environments' counters, whichever is configured |
| TrainIteration.RunOneTrainingIteration | rllib/algorithms/algorithm.py:2571-2595 | the run uses exactly the attempts up to the first that ends it, and a failed recovery always does; normal exit has the last result, counts equal to the growth of the configured counters up to the last attempt that meet the minima, and the sum of all recreated workers |
| TrainIteration.GoesOnExact | rllib/algorithms/algorithm.py:2919-2949 | with a result in hand the loop goes on exactly while a minimum of time, samples or training that is set is above what the last attempt reports |
| TrainIteration.ResultExact | rllib/algorithms/algorithm.py:2576-2592 | the result in hand is that of the last step, whatever failed after it |
| TrainIteration.RecreatedExact | rllib/algorithms/algorithm.py:2584-2595 | recreated workers add up over all recoveries |
| TrainIteration.AttemptsBeforeSuccess | rllib/algorithms/algorithm.py:2898-2910 | before the first success the loop goes on after n attempts exactly when n is at most the tolerance |
| TrainIteration.FailuresAppend | rllib/algorithms/algorithm.py:2584-2592 | errors keep the result in hand and count only while there is none |
| TrainIteration.ToleranceExact | rllib/algorithms/algorithm.py:2898-2910 | more failures in a row than tolerated end the loop exactly when there was no success before them, under an execution plan, or when the minima are met |
| TrainIteration.ToleranceMissed | rllib/algorithms/algorithm.py:2898-2910 | a script with tolerance zero in which the loop goes on after two failures in a row |
| EpisodeHistory.KeptExact | rllib/algorithms/algorithm.py:2754-2759 | the history is the last N episodes of the whole stream exactly when N is positive or the stream is empty |
| EpisodeHistory.KeptIsEnd | rllib/algorithms/algorithm.py:2754-2759 | by position: with a positive N the history is the end of the stream, N long or all of it |
| EpisodeHistory.ZeroWindowKeeps | rllib/algorithms/algorithm.py:2756-2759 | a window of zero that keeps an episode |
| EpisodeHistory.MetricsExact | rllib/algorithms/algorithm.py:2737-2752 | the metrics use the last max(N, new) episodes of the stream, and the length assertion never fails |
| EpisodeHistory.Smoothing.Compile | rllib/algorithms/algorithm.py:2737-2759 | both, across any number of iterations |
| Sorting.StableSortUnique | dashboard/memory_utils.py:271-280 | the modelled sort is the only stable sort |
| Sorting.FilterSort | dashboard/memory_utils.py:271-293 | sorting commutes with every filter |
| Sorting.CollectPermutes | dashboard/state_aggregator.py:398-411 | concatenating over a rearranged list gives a rearranged result |
| Sorting.CollectCommutes | dashboard/state_aggregator.py:398-417 | pieces that commute pairwise up to a length may be concatenated in any order, up to that length |
| Texts.StringLeExact | dashboard/state_aggregator.py:416 | the order of ids is lexicographic: up to some position two ids are the same, and there the first ends or has the smaller character |
| TaskListing.CheckTask | dashboard/state_aggregator.py:164-187 | the inner filter loop with its breaks and errors computes the verdict of the specification |
| TaskListing.CheckExact | dashboard/state_aggregator.py:164-187 | a row is kept exactly when it meets every condition, and raises an error exactly when the first condition it does not meet is not supported |
| TaskListing.FilterTasks | dashboard/state_aggregator.py:161-191 | the matching rows in order, or the first error |
| TaskListing.ColumnIsLookup | dashboard/state_aggregator.py:164-187 | a column is what a task's dictionary holds under its name, with the id and the state as written last |
| TaskListing.Gather | dashboard/state_aggregator.py:368-382 | failures, totals and running ids over all replies |
| TaskListing.TotalExact | dashboard/state_aggregator.py:377-380 | every reply with tasks adds its total, and no other |
| TaskListing.FirstFailureIsFirst | dashboard/state_aggregator.py:372-377 | the failure raised is that of the first reply that failed unexpectedly |
| TaskListing.MarkAll | dashboard/state_aggregator.py:398-411 | all tasks of the replies in order, marked running where their id is in the set |
| TaskListing.UnreachableBound | dashboard/state_aggregator.py:384-396 | the count of unresponsive nodes is all or none exactly when all or no replies are |
| TaskListing.UnavailableCount | dashboard/state_aggregator.py:384-396 | the count of unresponsive nodes is the number of positions at which a reply is missing |
| TaskListing.ListTasks | dashboard/state_aggregator.py:368-424 | the listing of the specification, errors included |
| TaskListing.SameError | dashboard/state_aggregator.py:165-184 | all rows that the filter rejects with an error are rejected with the same one |
| TaskListing.FirstErrorPermutes | dashboard/state_aggregator.py:161-184 | the error raised does not depend on the order of the rows |
| TaskListing.CutPermutes | dashboard/state_aggregator.py:415-417 | the sorted and cut rows are the same in every order of the replies if the rows of any two replies commute for every id |
| TaskListing.FilterCut | dashboard/state_aggregator.py:415-417 | of the rows with one id, the limit leaves as many as it has room for after the rows that come before |
| TaskListing.OnlyRowsDiffer | dashboard/state_aggregator.py:368-424 | without unexpected failures the order changes neither errors nor warning nor counts |
| TaskListing.OrderIndependent | dashboard/state_aggregator.py:368-424 | every order of the replies gives the same response if no node failed unexpectedly and rows with one id are equal wherever the limit leaves room for them |
| TaskListing.OrderExact | dashboard/state_aggregator.py:368-424 | for any replies, filter and limit, all orders of the replies give the same response exactly when, with unexpected failures, all of them are the same, and otherwise, if there is no error, the rows of any two replies for one id commute as far as the limit leaves room |
| TaskListing.FailureExact | dashboard/state_aggregator.py:372-377 | with unexpected failures, all orders give the same error exactly when all of them are the same |
| TaskListing.TwoNodes | dashboard/state_aggregator.py:415-417 | two nodes with one kept task each may answer in either order exactly when the ids differ or the rows are equal |
| TaskListing.OrderMatters | dashboard/state_aggregator.py:372-417 | two nodes that show different states of one task, and two that fail differently, give different responses in different orders |
| TaskListing.MergedTasks | dashboard/state_aggregator.py:398-411 | the merged tasks are those of the replies, marked running exactly when some reply lists them |
| TaskListing.RowsExact | dashboard/state_aggregator.py:398-417 | the rows are exactly those that merged tasks which meet all conditions are shown as, with every asked column |
| TaskListing.ShowExact | python/ray/experimental/state/common.py:235-250 | a row shows the id and exactly the asked columns |
| TaskListing.RaisesExact | dashboard/state_aggregator.py:372-396 | which error a listing raises: the first unexpected failure, else that all nodes are unresponsive exactly when there are some and they all are, else one exactly when the filter rejects some task with an error |
| TaskListing.ListingShows | dashboard/state_aggregator.py:384-424 | the first rows, in lexicographic order of ids, of all matching tasks, with the totals before the limit, before truncation and after filtering; the warning appears exactly when some but not all nodes failed, and says how many of how many |
| MemoryTables.ValidIsTyped | dashboard/memory_utils.py:124-159 | exactly when a valid entry has no type; never with non-negative counts |
| MemoryTables.ValidExact | dashboard/memory_utils.py:124-137 | a reference is valid exactly when its id is not nil and it is pinned or has some count |
| MemoryTables.ClassifyExact | dashboard/memory_utils.py:147-159 | each of the five types exactly when its condition holds and none of those before it |
| MemoryTables.ActorHandleExact | dashboard/memory_utils.py:161-176 | an id is an actor handle exactly when its first sixteen digits are all f and the twenty-four after them are not |
| MemoryTables.EntryExact | dashboard/memory_utils.py:91-122 | an entry holds the worker's and the reference's data, its type, and the call site or that it is disabled |
| MemoryTables.NegativeCountUntyped | dashboard/memory_utils.py:124-159 | a reference with a negative count that is valid and has no type |
| MemoryTables.Summarize | dashboard/memory_utils.py:238-269 | the six totals are the sums over the entries |
| MemoryTables.AddOne | dashboard/memory_utils.py:238-269 | one more entry adds its size if that is positive, and one to the count of its type only |
| MemoryTables.SummaryBag | dashboard/memory_utils.py:238-269 | the six totals do not depend on the order of the entries |
| MemoryTables.KeysCover | dashboard/memory_utils.py:290-293 | the group keys are distinct, cover the table and each have an entry |
| MemoryTables.KeysOrder | dashboard/memory_utils.py:290-293 | groups come in the order in which their keys are first seen |
| MemoryTables.GroupsConserve | dashboard/memory_utils.py:282-302 | each of the six group totals adds up to the table total |
| MemoryTables.GroupingSorted | dashboard/memory_utils.py:223-233 | every group is the stable sort of the input entries with its key, groups cover the table and are not empty, totals are conserved |
| MemoryTables.Table.SortBy | dashboard/memory_utils.py:271-280 | the table ascends in process id, object size or type name, as chosen, and entries with equal keys keep their order |
| MemoryTables.RankIsNameOrder | dashboard/memory_utils.py:271-280 | types are ordered by their names |
| MemoryTables.ListByKey | dashboard/memory_utils.py:290-293 | lists the entries of each key in table order |
| MemoryTables.BuildGroups | dashboard/memory_utils.py:295-302 | one group per key with its entries and their totals |
| MemoryTables.Table.GroupBy | dashboard/memory_utils.py:282-302 | the groups are the entries with each key, which is the node address or the call site as chosen, in table order, with their totals |
| MemoryTables.Table.Setup | dashboard/memory_utils.py:223-233 | sorting before grouping, with conserved totals |
| MemoryTables.ConstructMemoryTable | dashboard/memory_utils.py:326-350 | the sorted table, groups and totals of exactly the valid references of all workers; with non-negative counts and sizes of at least -1, tracking sizes succeeds on every group and adds up to the group's total |
| MemoryTables.CollectEntries | dashboard/memory_utils.py:331-346 | the loops list the valid references of all workers in order |
| MemoryTables.GroupsTracked | dashboard/memory_utils.py:353-370 | in every group of well reported references all entries have a type, sizes by type add up to the group's total size and type counts to its number of entries |
| MemoryTables.ConstructedTyped | dashboard/memory_utils.py:326-350 | with non-negative counts every constructed entry has a type |
| MemoryTables.TrackReferenceSize | dashboard/memory_utils.py:353-370 | fails exactly on an untyped entry, and otherwise gives the recorded size of each type |
| MemoryTables.SizesOne | dashboard/memory_utils.py:353-370 | an entry counts with its size, or nothing if that is unknown, under its own type only |
| MemoryTables.TypesConserve | dashboard/memory_utils.py:238-269 | type counts add up to the entry count; sizes by type add up to the total exactly when no size is below -1 |
| MemoryTables.NegativeSizeLost | dashboard/memory_utils.py:238-269 | an entry of size -2 whose size by type differs from the total |
| Rollouts.RolloutSaver.constructor | rllib/evaluate.py:172-192 | nothing is saved or counted |
| Rollouts.RolloutSaver.BeginRollout | rllib/evaluate.py:252-253 | starts an empty rollout and keeps what is saved |
| Rollouts.RolloutSaver.EndRollout | rllib/evaluate.py:255-268 | saves the current rollout under the next number, in the list or on the shelf |
| Rollouts.RolloutSaver.AppendStep | rllib/evaluate.py:270-279 | counts the step, and records it only with an output file |
| Rollouts.RunRollout | rllib/evaluate.py:478-528 | one rollout takes steps until its episode ends or a limit is met, and no step is taken once a limit is met |
| Rollouts.CutsShape | rllib/evaluate.py:478-531 | cutting after every end loses and reorders nothing, and an ended episode is done exactly at its last step |
| Rollouts.Rollout | rllib/evaluate.py:465-531 | step totals agree, neither steps nor episodes pass their limit and no step is taken once one is met, the saved rollouts are exactly the steps taken cut at the ends of episodes; on exit a limit is met exactly, and before that both are still ahead and the current rollout is the open episode |
| Rollouts.ExitShape | rllib/evaluate.py:465-531 | every saved rollout but possibly the last ends done, together they are the steps taken, and the saver counts the episodes or one more |
| ReleaseLogs.TryJob | release/release_logs/fetch_release_logs.py:135-153 | takes off the list exactly what the job has results for |
| ReleaseLogs.FromBuild | release/release_logs/fetch_release_logs.py:132-155 | every wanted file is settled by the first job of the build that has results, early exit included |
| ReleaseLogs.FromBuildCollection | release/release_logs/fetch_release_logs.py:110-129 | a wanted file is fetched exactly when some build has a result for it, and then with that of the first job in a build such that no build with a higher number has one |
| ReleaseLogs.FirstHitIsFirst | release/release_logs/fetch_release_logs.py:135-152 | the result is that of a job before which no job has one |
| ReleaseLogs.FirstHitAppend | release/release_logs/fetch_release_logs.py:116-127 | later jobs matter only for files that earlier jobs have no results for |
| ReleaseLogs.FirstHitInBuilds | release/release_logs/fetch_release_logs.py:132-155 | the first result in a list of builds is that of the first build that has one, and of its first job that does |
| ReleaseLogs.ScanIsNewestFirst | release/release_logs/fetch_release_logs.py:116 | all builds are scanned, with numbers that never rise |
| ReleaseLogs.FirstIsNewest | release/release_logs/fetch_release_logs.py:110-155 | the first result in scan order is one of a newest build that has any, and there is none exactly when no build has any |
| ReleaseLogs.WantedDistinct | release/release_logs/fetch_release_logs.py:44-57 | the file names of the fixed table are distinct |

## Left out

- Walking source trees, parsing imports, git, Bazel and HTTP calls: input and output around the modelled logic.
- `test_depends_on_file` and the path helpers of the dependency analysis: a short filter around `DependsOn`.
- Decoding of quoted textproto values and encoding them as JSON: a function parameter, required to produce a JSON string where one is quoted.
- JSON objects: the reader covers arrays, strings, numbers and literal names of RFC 8259, and the three names that Python's reader also takes.
- Textproto.TranslateAndRead: covers the neat format only, in which fields are nested, nested closing braces are indented, values are quoted or words such as numbers and names, and all line breaks are alike, because the source demands neat input; `Textproto.TextprotoSplit` has no such condition.
- Cancellation of cache tasks, and the moment between the end of a task and its callback: both are one step.
- Writes through `mutable()`, aliasing of stored values, and Python values that are equal but not identical: stored values are immutable.
- Evaluation with duration "auto" or with a local worker only: the first has no fixed promise, the second is one plain loop.
- SyncEvaluation.Evaluate: assumes that all n workers answer every round that does not time out, because the source waits for all of them.
- Rounding of the floating-point division in the fragment length: the model divides integers.
- AsyncEvaluation.Evaluator.Finish: samples at the moment its request is found ready, because only one request of a worker is ever in flight.
- Conversion of filter values to column types and lower-casing of column names: conditions are given in their final form.
- A memory table that is only sorted or only grouped: the model follows the default, which does both.
- MemoryTables.Table.SortBy: does not capture that the caller's list is sorted in place, because the table holds its entries as a value.
- Progress files, pickling and shelving of rollouts: the saver's memory and numbering are modelled, the files are not.
- Choosing and downloading the artifact of a job: a function parameter that returns results unless they are missing or empty.
- The rest of Ray: core workers, scheduling, Tune, Serve, datasets and the dashboard's servers.

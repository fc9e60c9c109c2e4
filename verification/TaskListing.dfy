/** Listing tasks in dashboard/state_aggregator.py: the replies of all nodes are merged, running tasks
    are marked, rows are filtered, sorted by task id and cut to the limit. */
module TaskListing {
  import opened Options
  import opened Sequences
  import opened Sorting
  import opened Texts

  // Tasks, filters and replies.

  datatype Task = Task(id: string, state: string, columns: map<string, string>)

  function Column(t: Task, name: string): Option<string> {
    if name == "task_id" then Some(t.id)
    else if name == "scheduling_state" then Some(t.state)
    else if name in t.columns then Some(t.columns[name])
    else None
  }

  datatype Condition = Condition(column: string, op: string, value: string)

  datatype Error = UnsupportedColumn(column: string) | UnsupportedPredicate(op: string)
                 | Unexpected(message: string) | AllUnavailable(nodes: nat)

  /** One node's answer: it could not be reached, it failed in an unexpected way, or it lists tasks
      together with the ids of those it is running. */
  datatype Reply = Unavailable | Failed(message: string) | Tasks(total: nat, running: seq<string>, tasks: seq<Task>)

  datatype Row = Row(id: string, cells: map<string, Option<string>>)

  datatype Query = Query(conditions: seq<Condition>, filterable: set<string>, shown: set<string>, limit: nat)

  /** Failed and total nodes, when only some failed. */
  datatype Warning = Warning(failed: nat, nodes: nat)

  datatype Listing = Listing(rows: seq<Row>, warning: Option<Warning>, total: nat, afterTruncation: nat, filtered: nat)

  datatype Outcome<T> = Success(value: T) | Raised(error: Error)

  // Filtering one task.

  datatype Verdict = Keep | Drop | Raise(error: Error)

  /** Conditions are tried in order until one fails. An unsupported column is an error, an
      unsupported predicate only on a row that has the column. */
  function Check(t: Task, conditions: seq<Condition>, filterable: set<string>): Verdict {
    if conditions == [] then Keep
    else
      var c := conditions[0];
      if c.column !in filterable then Raise(UnsupportedColumn(c.column))
      else match Column(t, c.column)
           case None => Drop
           case Some(v) =>
             if c.op == "=" then
               if v == c.value then Check(t, conditions[1..], filterable) else Drop
             else if c.op == "!=" then
               if v != c.value then Check(t, conditions[1..], filterable) else Drop
             else Raise(UnsupportedPredicate(c.op))
  }

  /** A row meets a condition: its column can be filtered on, is there, and has or has not the value. */
  predicate Meets(t: Task, c: Condition, filterable: set<string>) {
    var cell := Column(t, c.column);
    && c.column in filterable && cell.Some?
    && ((c.op == "=" && cell.value == c.value) || (c.op == "!=" && cell.value != c.value))
  }

  /** A row is kept exactly when it meets all conditions; an error comes from the first condition that it
      does not meet, and only if that condition is not supported. */
  lemma {:induction false} CheckExact(t: Task, conditions: seq<Condition>, filterable: set<string>)
    ensures Check(t, conditions, filterable).Keep? <==>
      forall i :: 0 <= i < |conditions| ==> Meets(t, conditions[i], filterable)
    ensures Check(t, conditions, filterable).Raise? <==> exists i :: RaisesAt(t, conditions, filterable, i)
  {
    if conditions != [] {
      var rest := conditions[1..];
      CheckExact(t, rest, filterable);
      if Meets(t, conditions[0], filterable) {
        assert forall i :: 0 < i < |conditions| ==> conditions[i] == rest[i - 1];
        forall i | RaisesAt(t, rest, filterable, i)
          ensures RaisesAt(t, conditions, filterable, i + 1)
        {
        }
        forall i | RaisesAt(t, conditions, filterable, i)
          ensures RaisesAt(t, rest, filterable, i - 1)
        {
          assert forall j :: 0 <= j < i - 1 ==> rest[j] == conditions[j + 1];
        }
      } else if Unsupported(t, conditions[0], filterable) {
        assert RaisesAt(t, conditions, filterable, 0);
      }
    }
  }

  /** The first condition that a row does not meet is at i and is not supported. */
  ghost predicate RaisesAt(t: Task, conditions: seq<Condition>, filterable: set<string>, i: int) {
    && 0 <= i < |conditions| && Unsupported(t, conditions[i], filterable)
    && forall j :: 0 <= j < i ==> Meets(t, conditions[j], filterable)
  }

  /** A condition that raises an error on a row. */
  predicate Unsupported(t: Task, c: Condition, filterable: set<string>) {
    c.column !in filterable || (Column(t, c.column).Some? && c.op != "=" && c.op != "!=")
  }

  function Show(t: Task, shown: set<string>): Row {
    Row(t.id, map c | c in shown :: Column(t, c))
  }

  /** The row of a task that is kept. */
  function RowOf(query: Query): Task -> seq<Row> {
    (t: Task) => if Check(t, query.conditions, query.filterable).Keep? then [Show(t, query.shown)] else []
  }

  /** The first error that the filter meets. */
  function FirstError(tasks: seq<Task>, query: Query): Option<Error> {
    if tasks == [] then None
    else match Check(tasks[0], query.conditions, query.filterable)
         case Raise(error) => Some(error)
         case _ => FirstError(tasks[1..], query)
  }

  /** The inner loop of the filter. */
  method CheckTask(t: Task, conditions: seq<Condition>, filterable: set<string>) returns (v: Verdict)
    ensures v == Check(t, conditions, filterable)
  {
    for k := 0 to |conditions|
      invariant Check(t, conditions, filterable) == Check(t, conditions[k..], filterable)
    {
      var c := conditions[k];
      assert conditions[k..][1..] == conditions[k + 1..];
      if c.column !in filterable {
        return Raise(UnsupportedColumn(c.column));
      }
      var keep, cell := false, Column(t, c.column);
      if cell.Some? {
        if c.op == "=" {
          keep := cell.value == c.value;
        } else if c.op == "!=" {
          keep := cell.value != c.value;
        } else {
          return Raise(UnsupportedPredicate(c.op));
        }
      }
      if !keep {
        return Drop;
      }
    }
    return Keep;
  }

  /** The filter of the source: rows in order, or the first error. */
  method FilterTasks(tasks: seq<Task>, query: Query) returns (r: Outcome<seq<Row>>)
    ensures FirstError(tasks, query).Some? ==> r == Raised(FirstError(tasks, query).value)
    ensures FirstError(tasks, query).None? ==> r == Success(Collect(RowOf(query), tasks))
  {
    hide Check;
    var rows: seq<Row> := [];
    for i := 0 to |tasks|
      invariant FirstError(tasks, query) == FirstError(tasks[i..], query)
      invariant rows == Collect(RowOf(query), tasks[..i])
    {
      assert tasks[i..][1..] == tasks[i + 1..];
      CollectSnoc(RowOf(query), tasks, i);
      var v := CheckTask(tasks[i], query.conditions, query.filterable);
      match v
      case Raise(error) => return Raised(error);
      case Keep => rows := rows + [Show(tasks[i], query.shown)];
      case Drop =>
    }
    assert tasks[..|tasks|] == tasks;
    return Success(rows);
  }

  // Merging the replies.

  function Unreachable(replies: seq<Reply>): seq<Reply> {
    Collect(NoAnswer, replies)
  }

  function NoAnswer(r: Reply): seq<Reply> {
    if r.Unavailable? then [r] else []
  }

  function TasksOf(r: Reply): seq<Task> {
    if r.Tasks? then r.tasks else []
  }

  function RunningIn(r: Reply): seq<string> {
    if r.Tasks? then r.running else []
  }

  function Total(replies: seq<Reply>): nat {
    if replies == [] then 0 else (if replies[0].Tasks? then replies[0].total else 0) + Total(replies[1..])
  }

  function Running(replies: seq<Reply>): set<string> {
    set id | id in Collect(RunningIn, replies)
  }

  /** A task that some node runs is shown as running. */
  function Mark(running: set<string>): Task -> seq<Task> {
    (t: Task) => [if t.id in running then t.(state := "RUNNING") else t]
  }

  function Merged(replies: seq<Reply>): seq<Task> {
    Collect(Mark(Running(replies)), Collect(TasksOf, replies))
  }

  function FirstFailure(replies: seq<Reply>): Option<Error> {
    if replies == [] then None
    else if replies[0].Failed? then Some(Unexpected(replies[0].message))
    else FirstFailure(replies[1..])
  }

  predicate RowLe(a: Row, b: Row) {
    StringLe(a.id, b.id)
  }

  lemma RowLeTotalPreorder()
    ensures TotalPreorder(RowLe)
  {
    forall x: Row, y: Row
      ensures RowLe(x, y) || RowLe(y, x)
    {
      StringLeTotal(x.id, y.id);
    }
    forall x: Row, y: Row, z: Row | RowLe(x, y) && RowLe(y, z)
      ensures RowLe(x, z)
    {
      StringLeTransitive(x.id, y.id, z.id);
    }
  }

  /** The whole listing as a function of the replies. */
  function ListSpec(replies: seq<Reply>, query: Query): Outcome<Listing> {
    match FirstFailure(replies)
    case Some(error) => Raised(error)
    case None =>
      var failed, nodes := |Unreachable(replies)|, |replies|;
      if nodes > 0 && failed == nodes then Raised(AllUnavailable(nodes))
      else
        var merged := Merged(replies);
        match FirstError(merged, query)
        case Some(error) => Raised(error)
        case None =>
          var rows := Collect(RowOf(query), merged);
          Success(Listing(Prefix(Sort(rows, RowLe), query.limit),
                          if failed > 0 then Some(Warning(failed, nodes)) else None,
                          Total(replies), |merged|, |rows|))
  }

  /** The first loop of the source: counts the nodes that did not answer, adds up the totals and
      gathers the running tasks, unless some node failed in an unexpected way. */
  method Gather(replies: seq<Reply>)
    returns (error: Option<Error>, failed: nat, total: nat, running: set<string>, successful: seq<Reply>)
    ensures error == FirstFailure(replies)
    ensures error.None? ==> failed == |Unreachable(replies)| && total == Total(replies) && running == Running(replies)
    ensures error.None? ==> Collect(TasksOf, successful) == Collect(TasksOf, replies)
  {
    hide Collect;
    CollectNone(RunningIn, replies);
    CollectNone(TasksOf, replies);
    CollectNone(NoAnswer, replies);
    failed, total, running, successful := 0, 0, {}, [];
    for i := 0 to |replies|
      invariant FirstFailure(replies) == FirstFailure(replies[i..])
      invariant failed == |Collect(NoAnswer, replies[..i])|
      invariant Total(replies) == total + Total(replies[i..])
      invariant running == (set id | id in Collect(RunningIn, replies[..i]))
      invariant Collect(TasksOf, successful) == Collect(TasksOf, replies[..i])
    {
      assert replies[i..][1..] == replies[i + 1..];
      var reply := replies[i];
      CollectSnoc(NoAnswer, replies, i);
      CollectSnoc(RunningIn, replies, i);
      CollectSnoc(TasksOf, replies, i);
      CollectSnoc(TasksOf, successful + [reply], |successful|);
      assert (successful + [reply])[..|successful|] == successful;
      assert (successful + [reply])[..|successful| + 1] == successful + [reply];
      if reply.Unavailable? {
        failed := failed + 1;
        continue;
      } else if reply.Failed? {
        return Some(Unexpected(reply.message)), failed, total, running, successful;
      }
      successful := successful + [reply];
      total := total + reply.total;
      running := running + set id | id in reply.running;
    }
    assert replies[..|replies|] == replies;
    error := None;
  }

  /** The whole of list_tasks computes the listing. */
  method ListTasks(replies: seq<Reply>, query: Query) returns (r: Outcome<Listing>)
    ensures r == ListSpec(replies, query)
  {
    hide Collect, Total, FirstFailure, FirstError;
    var error, failed, total, running, successful := Gather(replies);
    if error.Some? {
      return Raised(error.value);
    }
    var warning := None;
    if |replies| > 0 && failed > 0 {
      if failed == |replies| {
        return Raised(AllUnavailable(|replies|));
      }
      warning := Some(Warning(failed, |replies|));
    }
    UnreachableBound(replies);
    var data := MarkAll(successful, running);
    var filtered := FilterTasks(data, query);
    match filtered
    case Raised(e) => return Raised(e);
    case Success(rows) =>
      var sorted := Sort(rows, RowLe);
      return Success(Listing(Prefix(sorted, query.limit), warning, total, |data|, |rows|));
  }

  lemma {:induction false} UnreachableBound(replies: seq<Reply>)
    ensures |Unreachable(replies)| <= |replies|
    ensures |Unreachable(replies)| == |replies| <==> forall r :: r in replies ==> r.Unavailable?
    ensures |Unreachable(replies)| == 0 <==> forall r :: r in replies ==> !r.Unavailable?
  {
    if replies != [] {
      UnreachableBound(replies[1..]);
      assert replies == [replies[0]] + replies[1..];
    }
  }

  method MarkAll(replies: seq<Reply>, running: set<string>) returns (data: seq<Task>)
    ensures data == Collect(Mark(running), Collect(TasksOf, replies))
  {
    data := [];
    for i := 0 to |replies|
      invariant data == Collect(Mark(running), Collect(TasksOf, replies[..i]))
    {
      ghost var before := data;
      var tasks := TasksOf(replies[i]);
      for k := 0 to |tasks|
        invariant data == before + Collect(Mark(running), tasks[..k])
      {
        CollectSnoc(Mark(running), tasks, k);
        data := data + Mark(running)(tasks[k]);
      }
      assert tasks[..|tasks|] == tasks;
      CollectSnoc(TasksOf, replies, i);
      CollectAppend(Mark(running), Collect(TasksOf, replies[..i]), tasks);
    }
    assert replies[..|replies|] == replies;
  }

  // The order of the replies does not matter.

  /** All tasks that the filter rejects with an error are rejected with the same one. */
  lemma {:induction false} SameError(s: Task, t: Task, conditions: seq<Condition>, filterable: set<string>)
    requires Check(s, conditions, filterable).Raise? && Check(t, conditions, filterable).Raise?
    ensures Check(s, conditions, filterable) == Check(t, conditions, filterable)
  {
    if conditions != [] {
      var c := conditions[0];
      if c.column in filterable && (c.op == "=" || c.op == "!=") {
        SameError(s, t, conditions[1..], filterable);
      }
    }
  }

  lemma {:induction false} FirstErrorMembers(tasks: seq<Task>, query: Query)
    ensures FirstError(tasks, query).None? <==>
      forall t :: t in tasks ==> !Check(t, query.conditions, query.filterable).Raise?
    ensures FirstError(tasks, query).Some? ==>
      exists t :: t in tasks && Check(t, query.conditions, query.filterable) == Raise(FirstError(tasks, query).value)
  {
    hide Check;
    if tasks != [] {
      FirstErrorMembers(tasks[1..], query);
      var v := Check(tasks[0], query.conditions, query.filterable);
      assert forall t :: t in tasks <==> t == tasks[0] || t in tasks[1..];
      assert FirstError(tasks, query) == if v.Raise? then Some(v.error) else FirstError(tasks[1..], query);
      if v.Raise? {
        assert tasks[0] in tasks;
      }
    }
  }

  lemma FirstErrorPermutes(s: seq<Task>, t: seq<Task>, query: Query)
    requires multiset(s) == multiset(t)
    ensures FirstError(s, query) == FirstError(t, query)
  {
    hide Check, FirstError;
    SameBagSameElements(s, t);
    FirstErrorMembers(s, query);
    FirstErrorMembers(t, query);
    if FirstError(s, query).Some? {
      var x :| x in s && Check(x, query.conditions, query.filterable) == Raise(FirstError(s, query).value);
      var y :| y in t && Check(y, query.conditions, query.filterable) == Raise(FirstError(t, query).value);
      SameError(x, y, query.conditions, query.filterable);
    }
  }

  lemma {:induction false} TotalAppend(a: seq<Reply>, b: seq<Reply>)
    ensures Total(a + b) == Total(a) + Total(b)
  {
    if a == [] {
      assert a + b == b;
    } else {
      assert (a + b)[1..] == a[1..] + b;
      TotalAppend(a[1..], b);
    }
  }

  lemma {:induction false} TotalPermutes(s: seq<Reply>, t: seq<Reply>)
    requires multiset(s) == multiset(t)
    ensures Total(s) == Total(t)
  {
    SameBagSameElements(s, t);
    if s != [] {
      var a, b := SplitBag(s, t);
      TotalPermutes(s[1..], a + b);
      TotalAppend(a, b);
      TotalAppend(a, [s[0]] + b);
      assert ([s[0]] + b)[1..] == b;
    }
  }

  lemma {:induction false} FirstFailureMembers(replies: seq<Reply>)
    ensures FirstFailure(replies).None? <==> forall r :: r in replies ==> !r.Failed?
  {
    if replies != [] {
      FirstFailureMembers(replies[1..]);
      assert replies == [replies[0]] + replies[1..];
    }
  }

  lemma MergedPermutes(s: seq<Reply>, t: seq<Reply>)
    requires multiset(s) == multiset(t)
    ensures multiset(Merged(s)) == multiset(Merged(t))
  {
    hide Collect;
    CollectPermutes(RunningIn, s, t);
    SameBagSameElements(Collect(RunningIn, s), Collect(RunningIn, t));
    assert Running(s) == Running(t);
    CollectPermutes(TasksOf, s, t);
    CollectPermutes(Mark(Running(s)), Collect(TasksOf, s), Collect(TasksOf, t));
  }

  /** Every order of the replies gives the same response. */
  ghost predicate AnyOrder(s: seq<Reply>, query: Query) {
    forall t :: multiset(t) == multiset(s) ==> ListSpec(t, query) == ListSpec(s, query)
  }

  lemma MoveFirst(s: seq<Reply>, r: Reply) returns (rest: seq<Reply>)
    requires r in s
    ensures multiset([r] + rest) == multiset(s) && forall x :: x in s && x != r ==> x in rest
  {
    var a, b := SplitAt(s, r);
    rest := a + b;
    MiddleBag(a, r, b);
    FirstBag(r, rest);
  }

  lemma SplitAt(s: seq<Reply>, r: Reply) returns (a: seq<Reply>, b: seq<Reply>)
    requires r in s
    ensures s == a + ([r] + b)
  {
    var i :| 0 <= i < |s| && s[i] == r;
    a, b := s[..i], s[i + 1..];
  }

  lemma FirstBag(r: Reply, rest: seq<Reply>)
    ensures multiset([r] + rest) == multiset(rest) + multiset{r}
  {
  }

  lemma RunningPermutes(s: seq<Reply>, t: seq<Reply>)
    requires multiset(s) == multiset(t)
    ensures Running(s) == Running(t)
  {
    hide Collect;
    CollectPermutes(RunningIn, s, t);
    SameBagSameElements(Collect(RunningIn, s), Collect(RunningIn, t));
  }

  // Rows with one id.

  function SameId(id: string): Row -> bool {
    (x: Row) => x.id == id
  }

  /** Rows whose id comes before the given one. */
  function Before(id: string): Row -> bool {
    (x: Row) => StringLe(x.id, id) && x.id != id
  }

  /** How many rows with this id a limit leaves room for. */
  function Room(rows: seq<Row>, limit: nat, id: string): nat {
    var before := |Filter(Before(id), rows)|;
    if before <= limit then limit - before else 0
  }

  /** The rows with this id that one reply contributes. */
  function ClassOf(id: string, running: set<string>, query: Query): Reply -> seq<Row> {
    (r: Reply) => Filter(SameId(id), RowsIn(r, running, query))
  }

  function RowsIn(r: Reply, running: set<string>, query: Query): seq<Row> {
    Collect(RowOf(query), Collect(Mark(running), TasksOf(r)))
  }

  /** The rows of all replies. */
  function RowsOf(s: seq<Reply>, query: Query): seq<Row> {
    Collect(RowOf(query), Merged(s))
  }

  lemma {:induction false} ClassRows(s: seq<Reply>, running: set<string>, query: Query, id: string)
    ensures Filter(SameId(id), Collect(RowOf(query), Collect(Mark(running), Collect(TasksOf, s))))
         == Collect(ClassOf(id, running, query), s)
  {
    hide Filter;
    if s == [] {
      FilterNone(SameId(id), []);
    } else {
      var mark, row := Mark(running), RowOf(query);
      var first, others := TasksOf(s[0]), Collect(TasksOf, s[1..]);
      ClassRows(s[1..], running, query, id);
      CollectAppend(mark, first, others);
      CollectAppend(row, Collect(mark, first), Collect(mark, others));
      FilterAppend(SameId(id), RowsIn(s[0], running, query), Collect(row, Collect(mark, others)));
    }
  }

  /** Sorting keeps the rows with one id in their order. */
  lemma SortKeepsId(rows: seq<Row>, id: string)
    ensures Filter(SameId(id), Sort(rows, RowLe)) == Filter(SameId(id), rows)
  {
    var x := Row(id, map[]);
    RowLeTotalPreorder();
    SortStable(rows, RowLe, x);
    SameFilter(rows, x);
    SameFilter(Sort(rows, RowLe), x);
  }

  lemma {:induction false} SameFilter(rows: seq<Row>, x: Row)
    ensures Filter(SameId(x.id), rows) == Filter(Equivalent(x, RowLe), rows)
  {
    hide StringLe;
    if rows != [] {
      SameFilter(rows[1..], x);
      if RowLe(x, rows[0]) && RowLe(rows[0], x) {
        StringLeAntisymmetric(x.id, rows[0].id);
      } else {
        StringLeTotal(x.id, x.id);
      }
    }
  }

  lemma RoomPermutes(s: seq<Row>, t: seq<Row>, limit: nat, id: string)
    requires multiset(s) == multiset(t)
    ensures Room(s, limit, id) == Room(t, limit, id)
  {
    FilterPermutes(Before(id), s, t);
    SameBagSameElements(Filter(Before(id), s), Filter(Before(id), t));
  }

  /** Of the rows with one id, a limit on a sorted list leaves those that it has room for. */
  lemma {:induction false} FilterCut(sorted: seq<Row>, limit: nat, id: string)
    requires Sorted(sorted, RowLe)
    ensures Filter(SameId(id), Prefix(sorted, limit)) == Prefix(Filter(SameId(id), sorted), Room(sorted, limit, id))
  {
    hide StringLe, Filter, Room, Prefix;
    if sorted == [] || limit == 0 {
      CutNothing(sorted, limit, id);
    } else {
      var first, rest := sorted[0], sorted[1..];
      assert sorted == [first] + rest;
      PrefixCons(first, rest, limit);
      FilterCons(SameId(id), first, Prefix(rest, limit - 1));
      FilterCons(SameId(id), first, rest);
      FilterCut(rest, limit - 1, id);
      if first.id == id {
        StringLeTotal(id, id);
        assert forall i :: 0 < i < |sorted| ==> RowLe(sorted[0], sorted[i]);
        RoomFirst(sorted, limit, id);
        RoomFirst(rest, limit - 1, id);
        PrefixCons(first, Filter(SameId(id), rest), limit);
      } else if StringLe(first.id, id) {
        RoomCons(first, rest, limit, id);
      } else {
        NoneAfter(sorted, id);
        NoPrefix(Room(sorted, limit, id));
        NoPrefix(Room(rest, limit - 1, id));
      }
    }
  }

  lemma CutNothing(sorted: seq<Row>, limit: nat, id: string)
    requires sorted == [] || limit == 0
    ensures Filter(SameId(id), Prefix(sorted, limit)) == Prefix(Filter(SameId(id), sorted), Room(sorted, limit, id))
  {
    assert Prefix(sorted, limit) == [];
  }

  lemma PrefixCons(first: Row, rest: seq<Row>, limit: nat)
    requires limit > 0
    ensures Prefix([first] + rest, limit) == [first] + Prefix(rest, limit - 1)
  {
  }

  lemma NoPrefix(n: nat)
    ensures Prefix<Row>([], n) == []
  {
  }

  lemma RoomFirst(sorted: seq<Row>, limit: nat, id: string)
    requires forall i :: 0 <= i < |sorted| ==> StringLe(id, sorted[i].id)
    ensures Room(sorted, limit, id) == limit
  {
    NoneBefore(sorted, id);
  }

  lemma RoomCons(first: Row, rest: seq<Row>, limit: nat, id: string)
    requires Before(id)(first) && limit > 0
    ensures Room([first] + rest, limit, id) == Room(rest, limit - 1, id)
  {
    FilterCons(Before(id), first, rest);
  }

  lemma NoneBefore(sorted: seq<Row>, id: string)
    requires forall i :: 0 <= i < |sorted| ==> StringLe(id, sorted[i].id)
    ensures Filter(Before(id), sorted) == []
  {
    hide StringLe;
    forall z | z in sorted
      ensures !Before(id)(z)
    {
      if StringLe(z.id, id) {
        StringLeAntisymmetric(z.id, id);
      }
    }
    FilterNone(Before(id), sorted);
  }

  lemma NoneAfter(sorted: seq<Row>, id: string)
    requires Sorted(sorted, RowLe) && sorted != [] && !StringLe(sorted[0].id, id)
    ensures Filter(SameId(id), sorted) == []
  {
    hide StringLe;
    forall z | z in sorted
      ensures z.id != id
    {
      var i :| 0 <= i < |sorted| && sorted[i] == z;
      StringLeTotal(id, id);
      assert i > 0 ==> RowLe(sorted[0], sorted[i]);
    }
    FilterNone(SameId(id), sorted);
  }

  /** The rows with one id that a listing shows, for any order of the replies. */
  lemma ShownClass(s: seq<Reply>, t: seq<Reply>, query: Query, id: string)
    requires multiset(t) == multiset(s)
    ensures Filter(SameId(id), Prefix(Sort(RowsOf(t, query), RowLe), query.limit))
         == Prefix(Collect(ClassOf(id, Running(s), query), t), Room(RowsOf(s, query), query.limit, id))
  {
    hide Collect, Sort, Filter, Prefix, Room, Running, ClassOf;
    var rows := RowsOf(t, query);
    RowsPermute(s, t, query);
    RunningPermutes(s, t);
    RowLeTotalPreorder();
    SortSorted(rows, RowLe);
    SortBag(rows, RowLe);
    FilterCut(Sort(rows, RowLe), query.limit, id);
    RoomPermutes(Sort(rows, RowLe), RowsOf(s, query), query.limit, id);
    SortKeepsId(rows, id);
    ClassRows(t, Running(t), query, id);
  }

  lemma RowsPermute(s: seq<Reply>, t: seq<Reply>, query: Query)
    requires multiset(t) == multiset(s)
    ensures multiset(RowsOf(t, query)) == multiset(RowsOf(s, query)) && |RowsOf(t, query)| == |RowsOf(s, query)|
  {
    hide Collect, Merged;
    MergedPermutes(t, s);
    CollectPermutes(RowOf(query), Merged(t), Merged(s));
    SameBagSameElements(RowsOf(t, query), RowsOf(s, query));
  }

  /** For every id, any two replies show its rows in either order alike, as far as the limit leaves room. */
  ghost predicate PairsCommute(s: seq<Reply>, query: Query) {
    forall id :: PairsCommuteOn(s, query, id)
  }

  ghost predicate PairsCommuteOn(s: seq<Reply>, query: Query, id: string) {
    var f, room := ClassOf(id, Running(s), query), Room(RowsOf(s, query), query.limit, id);
    forall a, b :: a in s && b in s ==> Commute(f(a), f(b), room)
  }

  /** If pairs commute, the sorted and cut rows are the same in every order. */
  lemma CutPermutes(s: seq<Reply>, t: seq<Reply>, query: Query)
    requires multiset(t) == multiset(s) && PairsCommute(s, query)
    ensures Prefix(Sort(RowsOf(s, query), RowLe), query.limit) == Prefix(Sort(RowsOf(t, query), RowLe), query.limit)
  {
    hide Collect, Sort, Filter, Prefix, Room, Running, RowsOf, ClassOf;
    var p, q := Prefix(Sort(RowsOf(s, query), RowLe), query.limit), Prefix(Sort(RowsOf(t, query), RowLe), query.limit);
    RowLeTotalPreorder();
    SortedPrefix(RowsOf(s, query), query.limit);
    SortedPrefix(RowsOf(t, query), query.limit);
    forall x: Row
      ensures Filter(Equivalent(x, RowLe), p) == Filter(Equivalent(x, RowLe), q)
    {
      assert PairsCommuteOn(s, query, x.id);
      var f, room := ClassOf(x.id, Running(s), query), Room(RowsOf(s, query), query.limit, x.id);
      CollectCommutes(f, s, t, room);
      ShownClass(s, s, query, x.id);
      ShownClass(s, t, query, x.id);
      SameFilter(p, x);
      SameFilter(q, x);
    }
    ClassesDetermine(p, q, RowLe);
  }

  lemma SortedPrefix(rows: seq<Row>, limit: nat)
    ensures Sorted(Prefix(Sort(rows, RowLe), limit), RowLe)
  {
    hide Sort;
    RowLeTotalPreorder();
    SortSorted(rows, RowLe);
  }

  /** Without unexpected failures, all that an order of the replies can change is which rows are shown. */
  lemma OnlyRowsDiffer(s: seq<Reply>, t: seq<Reply>, query: Query)
    requires multiset(s) == multiset(t) && forall r :: r in s ==> !r.Failed?
    ensures ListSpec(s, query).Raised? ==> ListSpec(t, query) == ListSpec(s, query)
    ensures ListSpec(s, query).Success? ==>
      && ListSpec(t, query).Success?
      && ListSpec(s, query).value.rows == Prefix(Sort(RowsOf(s, query), RowLe), query.limit)
      && ListSpec(t, query).value == ListSpec(s, query).value.(rows := Prefix(Sort(RowsOf(t, query), RowLe), query.limit))
  {
    hide Collect, Sort, Total, FirstFailure, FirstError, Merged, Prefix;
    SameBagSameElements(s, t);
    FirstFailureMembers(s);
    FirstFailureMembers(t);
    CollectPermutes(NoAnswer, s, t);
    SameBagSameElements(Unreachable(s), Unreachable(t));
    TotalPermutes(s, t);
    MergedPermutes(s, t);
    SameBagSameElements(Merged(s), Merged(t));
    FirstErrorPermutes(Merged(s), Merged(t), query);
    RowsPermute(s, t, query);
  }

  /** If the response does not depend on the order, any two replies commute. */
  lemma OrderCommutes(s: seq<Reply>, query: Query, id: string, a: Reply, b: Reply)
    requires AnyOrder(s, query) && ListSpec(s, query).Success? && a in s && b in s && forall r :: r in s ==> !r.Failed?
    ensures var f, room := ClassOf(id, Running(s), query), Room(RowsOf(s, query), query.limit, id); Commute(f(a), f(b), room)
  {
    hide Sort, Filter, Prefix, Room, Running, ClassOf, ListSpec;
    var f, room := ClassOf(id, Running(s), query), Room(RowsOf(s, query), query.limit, id);
    if a != b {
      var t, u, rest := FirstTwo(s, a, b);
      OnlyRowsDiffer(s, t, query);
      OnlyRowsDiffer(s, u, query);
      ShownClass(s, t, query, id);
      ShownClass(s, u, query, id);
      CollectTwoMore(f, a, b, rest);
      CollectTwoMore(f, b, a, rest);
      CommuteBefore(f(a), f(b), Collect(f, rest), room);
    }
  }

  lemma FirstTwo(s: seq<Reply>, a: Reply, b: Reply) returns (t: seq<Reply>, u: seq<Reply>, rest: seq<Reply>)
    requires a in s && b in s && a != b
    ensures t == [a] + ([b] + rest) && u == [b] + ([a] + rest)
    ensures multiset(t) == multiset(s) && multiset(u) == multiset(s)
  {
    var others := MoveFirst(s, a);
    rest := MoveFirst(others, b);
    t, u := [a] + ([b] + rest), [b] + ([a] + rest);
    FirstBag(a, others);
    FirstBag(b, rest);
    FirstBag(a, [b] + rest);
    FirstBag(a, rest);
    FirstBag(b, [a] + rest);
  }

  lemma CollectTwoMore(f: Reply -> seq<Row>, a: Reply, b: Reply, rest: seq<Reply>)
    ensures Collect(f, [a] + ([b] + rest)) == f(a) + (f(b) + Collect(f, rest))
  {
    assert ([a] + ([b] + rest))[1..] == [b] + rest && ([b] + rest)[1..] == rest;
  }

  /** Exactly when the order of the replies does not matter, for any replies, filter and limit. If nodes failed
      in unexpected ways, they must have failed alike. Otherwise a listing must show the rows of any two
      replies for one id in either order alike, as far as the limit leaves room. */
  lemma OrderExact(s: seq<Reply>, query: Query)
    ensures AnyOrder(s, query) <==>
      if exists r :: r in s && r.Failed? then forall a, b :: a in s && b in s && a.Failed? && b.Failed? ==> a == b
      else ListSpec(s, query).Success? ==> PairsCommute(s, query)
  {
    hide ListSpec, PairsCommute, AnyOrder, Sort, Prefix;
    if exists r :: r in s && r.Failed? {
      FailureExact(s, query);
    } else if ListSpec(s, query).Success? && AnyOrder(s, query) {
      ThenCommutes(s, query);
    } else if ListSpec(s, query).Success? ==> PairsCommute(s, query) {
      ThenAnyOrder(s, query);
    }
  }

  lemma ThenCommutes(s: seq<Reply>, query: Query)
    requires AnyOrder(s, query) && ListSpec(s, query).Success? && forall r :: r in s ==> !r.Failed?
    ensures PairsCommute(s, query)
  {
    hide ListSpec, AnyOrder, Commute;
    forall id, a, b | a in s && b in s
      ensures Commute(ClassOf(id, Running(s), query)(a), ClassOf(id, Running(s), query)(b), Room(RowsOf(s, query), query.limit, id))
    {
      OrderCommutes(s, query, id, a, b);
    }
  }

  lemma ThenAnyOrder(s: seq<Reply>, query: Query)
    requires ListSpec(s, query).Success? ==> PairsCommute(s, query)
    requires forall r :: r in s ==> !r.Failed?
    ensures AnyOrder(s, query)
  {
    hide ListSpec, PairsCommute, Sort, Prefix;
    forall t | multiset(t) == multiset(s)
      ensures ListSpec(t, query) == ListSpec(s, query)
    {
      OnlyRowsDiffer(s, t, query);
      if ListSpec(s, query).Success? {
        CutPermutes(s, t, query);
      }
    }
  }

  /** Rows with one id that the limit does not cut are the same. */
  ghost predicate IdsDetermineVisible(rows: seq<Row>, limit: nat) {
    forall x, y :: x in rows && y in rows && x.id == y.id && Room(rows, limit, x.id) > 0 ==> x == y
  }

  /** The order does not matter if ids determine the rows that the limit does not cut. */
  lemma OrderIndependent(s: seq<Reply>, query: Query)
    requires forall r :: r in s ==> !r.Failed?
    requires IdsDetermineVisible(RowsOf(s, query), query.limit)
    ensures AnyOrder(s, query)
  {
    hide ListSpec, AnyOrder, Room, RowsOf, ClassOf, Commute, IdsDetermineVisible;
    forall id, a, b | a in s && b in s
      ensures Commute(ClassOf(id, Running(s), query)(a), ClassOf(id, Running(s), query)(b), Room(RowsOf(s, query), query.limit, id))
    {
      EqualRowsCommute(s, query, id, a, b);
    }
    ThenAnyOrder(s, query);
  }

  lemma EqualRowsCommute(s: seq<Reply>, query: Query, id: string, a: Reply, b: Reply)
    requires IdsDetermineVisible(RowsOf(s, query), query.limit) && a in s && b in s
    ensures Commute(ClassOf(id, Running(s), query)(a), ClassOf(id, Running(s), query)(b), Room(RowsOf(s, query), query.limit, id))
  {
    hide Room, RowsOf, Running, RowsIn, Filter, Prefix;
    var v, w, room := ClassOf(id, Running(s), query)(a), ClassOf(id, Running(s), query)(b), Room(RowsOf(s, query), query.limit, id);
    if room == 0 {
      NothingLeft(v + w);
      NothingLeft(w + v);
    } else {
      RowsInAll(s, a, query, id);
      RowsInAll(s, b, query, id);
      assert forall x, y :: x in v + w && y in v + w ==> x == y;
      assert v + w == w + v;
    }
  }

  lemma NothingLeft(rows: seq<Row>)
    ensures Prefix(rows, 0) == []
  {
  }

  /** The rows of a reply with an id are rows of all replies with that id. */
  lemma RowsInAll(s: seq<Reply>, r: Reply, query: Query, id: string)
    requires r in s
    ensures forall x :: x in ClassOf(id, Running(s), query)(r) ==> x in RowsOf(s, query) && x.id == id
  {
    hide Collect, Filter;
    FilterMembers(SameId(id), RowsIn(r, Running(s), query));
    FilterMembers(SameId(id), RowsOf(s, query));
    ClassRows(s, Running(s), query, id);
    CollectMembers(ClassOf(id, Running(s), query), s);
  }

  lemma {:induction false} FirstFailureFrom(replies: seq<Reply>)
    requires FirstFailure(replies).Some?
    ensures exists r :: r in replies && r.Failed? && FirstFailure(replies) == Some(Unexpected(r.message))
  {
    if replies[0].Failed? {
      assert replies[0] in replies;
    } else {
      FirstFailureFrom(replies[1..]);
      assert replies == [replies[0]] + replies[1..];
    }
  }

  /** When some node failed in an unexpected way, the order does not matter exactly when all such nodes
      failed alike. */
  lemma FailureExact(s: seq<Reply>, query: Query)
    requires exists r :: r in s && r.Failed?
    ensures AnyOrder(s, query) <==> forall a, b :: a in s && b in s && a.Failed? && b.Failed? ==> a == b
  {
    hide Collect, Sort, Merged, FirstError;
    if forall a, b :: a in s && b in s && a.Failed? && b.Failed? ==> a == b {
      FirstFailureMembers(s);
      FirstFailureFrom(s);
      forall t | multiset(t) == multiset(s)
        ensures ListSpec(t, query) == ListSpec(s, query)
      {
        SameBagSameElements(s, t);
        FirstFailureMembers(t);
        FirstFailureFrom(t);
      }
    } else {
      var a, b :| a in s && b in s && a.Failed? && b.Failed? && a != b;
      var t := MoveFirst(s, a);
      var u := MoveFirst(s, b);
      assert ListSpec([a] + t, query) == Raised(Unexpected(a.message));
      assert ListSpec([b] + u, query) == Raised(Unexpected(b.message));
    }
  }

  /** Some reply lists this id as running. */
  ghost predicate ListedRunning(replies: seq<Reply>, id: string) {
    exists r :: r in replies && id in RunningIn(r)
  }

  /** The merged tasks are those of the replies, shown as running exactly when some reply says so. */
  lemma MergedTasks(replies: seq<Reply>, t: Task)
    ensures t in Merged(replies) <==>
      exists r, t0 :: r in replies && t0 in TasksOf(r)
        && t == if ListedRunning(replies, t0.id) then t0.(state := "RUNNING") else t0
  {
    hide Collect;
    CollectMembers(RunningIn, replies);
    CollectMembers(TasksOf, replies);
    var mark, given := Mark(Running(replies)), Collect(TasksOf, replies);
    CollectMembers(mark, given);
    assert forall id :: id in Running(replies) <==> ListedRunning(replies, id);
    if t in Merged(replies) {
      var t0 :| t0 in given && t in mark(t0);
      var r :| r in replies && t0 in TasksOf(r);
    }
    forall r, t0 | r in replies && t0 in TasksOf(r)
      && t == if ListedRunning(replies, t0.id) then t0.(state := "RUNNING") else t0
      ensures t in Merged(replies)
    {
      assert t0 in given && t in mark(t0);
    }
  }

  /** A listing shows the first rows, by the lexicographic order of their ids, of those tasks that pass the
      filter. It counts all tasks and all rows, and warns exactly when some but not all nodes failed. */
  lemma ListingShows(replies: seq<Reply>, query: Query)
    requires ListSpec(replies, query).Success?
    ensures var listing, all := ListSpec(replies, query).value, Sort(RowsOf(replies, query), RowLe);
      && listing.rows == Prefix(all, query.limit)
      && (forall i, j :: 0 <= i < j < |all| ==> Lexicographic(all[i].id, all[j].id))
      && multiset(all) == multiset(RowsOf(replies, query))
      && listing.total == Total(replies) && listing.afterTruncation == |Merged(replies)| && listing.filtered == |all|
      && (listing.warning.Some? <==> (exists r :: r in replies && r.Unavailable?) && exists r :: r in replies && !r.Unavailable?)
      && (listing.warning.Some? ==> listing.warning.value == Warning(|UnavailableAt(replies)|, |replies|))
  {
    hide Collect, Sort, Merged, FirstError, Total, FirstFailure;
    var rows := RowsOf(replies, query);
    var all := Sort(rows, RowLe);
    RowLeTotalPreorder();
    SortSorted(rows, RowLe);
    SortBag(rows, RowLe);
    SameBagSameElements(all, rows);
    forall i, j | 0 <= i < j < |all|
      ensures Lexicographic(all[i].id, all[j].id)
    {
      assert RowLe(all[i], all[j]);
      StringLeExact(all[i].id, all[j].id);
    }
    UnreachableBound(replies);
    UnavailableCount(replies);
  }

  /** A row is the one that a task is shown as: it meets every condition, and has its id and its columns. */
  ghost predicate ShownAs(t: Task, x: Row, query: Query) {
    && (forall i :: 0 <= i < |query.conditions| ==> Meets(t, query.conditions[i], query.filterable))
    && x.id == t.id && x.cells.Keys == query.shown
    && (forall c :: c in query.shown ==> x.cells[c] == Column(t, c))
  }

  /** The rows are exactly those that merged tasks are shown as. */
  lemma RowsExact(replies: seq<Reply>, query: Query, x: Row)
    ensures x in RowsOf(replies, query) <==> exists t :: t in Merged(replies) && ShownAs(t, x, query)
  {
    hide Collect, Merged, Check, Meets;
    CollectMembers(RowOf(query), Merged(replies));
    forall t
      ensures x in RowOf(query)(t) <==> ShownAs(t, x, query)
    {
      CheckExact(t, query.conditions, query.filterable);
      ShowExact(t, query.shown, x);
    }
  }

  lemma ShowExact(t: Task, shown: set<string>, x: Row)
    ensures x == Show(t, shown) <==> x.id == t.id && x.cells.Keys == shown && forall c :: c in shown ==> x.cells[c] == Column(t, c)
  {
    hide Column;
    var y := Show(t, shown);
    if x.id == t.id && x.cells.Keys == shown && forall c :: c in shown ==> x.cells[c] == Column(t, c) {
      assert x.cells == y.cells;
    }
  }

  /** A task is a dictionary with its id and its state among its columns. */
  lemma ColumnIsLookup(t: Task, name: string)
    ensures var d := t.columns["task_id" := t.id]["scheduling_state" := t.state];
      Column(t, name) == if name in d then Some(d[name]) else None
  {
    assert |"task_id"| != |"scheduling_state"|;
  }

  /** The positions of the nodes that did not answer. */
  ghost function UnavailableAt(replies: seq<Reply>): set<int> {
    set i | 0 <= i < |replies| && replies[i].Unavailable?
  }

  lemma {:induction false} UnavailableCount(replies: seq<Reply>)
    ensures |Unreachable(replies)| == |UnavailableAt(replies)|
  {
    if replies != [] {
      var n := |replies| - 1;
      UnavailableCount(replies[..n]);
      CollectSnoc(NoAnswer, replies, n);
      assert replies[..n + 1] == replies;
      hide Collect;
      var here := if replies[n].Unavailable? then {n} else {};
      assert UnavailableAt(replies) == UnavailableAt(replies[..n]) + here;
    }
  }

  /** The total is the sum of the totals of the nodes that answered. */
  lemma TotalExact(a: seq<Reply>, r: Reply, b: seq<Reply>)
    ensures Total([]) == 0
    ensures Total(a + ([r] + b)) == Total(a) + (if r.Tasks? then r.total else 0) + Total(b)
  {
    TotalAppend(a, [r] + b);
    assert ([r] + b)[1..] == b;
  }

  /** Which error a listing raises: the first unexpected failure; else that no node answered, if there are
      nodes; else the error of the filter. */
  lemma RaisesExact(replies: seq<Reply>, query: Query)
    ensures forall i :: 0 <= i < |replies| && replies[i].Failed? && (forall j :: 0 <= j < i ==> !replies[j].Failed?) ==>
      ListSpec(replies, query) == Raised(Unexpected(replies[i].message))
    ensures (forall r :: r in replies ==> !r.Failed?) ==>
      (ListSpec(replies, query) == Raised(AllUnavailable(|replies|)) <==> replies != [] && forall r :: r in replies ==> r.Unavailable?)
    ensures (forall r :: r in replies ==> !r.Failed?) && (exists r :: r in replies && !r.Unavailable?) ==>
      (ListSpec(replies, query).Raised? <==> exists t :: t in Merged(replies) && Check(t, query.conditions, query.filterable).Raise?)
  {
    hide Collect, Merged, Sort, Total, Check, FirstError;
    forall i | 0 <= i < |replies| && replies[i].Failed? && (forall j :: 0 <= j < i ==> !replies[j].Failed?)
      ensures FirstFailure(replies) == Some(Unexpected(replies[i].message))
    {
      FirstFailureIsFirst(replies, i);
    }
    FirstFailureMembers(replies);
    UnreachableBound(replies);
    FirstErrorMembers(Merged(replies), query);
    if FirstError(Merged(replies), query).Some? {
      FilterError(Merged(replies), query);
    }
  }

  lemma {:induction false} FirstFailureIsFirst(replies: seq<Reply>, i: nat)
    requires i < |replies| && replies[i].Failed? && forall j :: 0 <= j < i ==> !replies[j].Failed?
    ensures FirstFailure(replies) == Some(Unexpected(replies[i].message))
  {
    if i > 0 {
      FirstFailureIsFirst(replies[1..], i - 1);
    }
  }

  /** The errors of the filter are about columns and predicates. */
  lemma {:induction false} FilterError(tasks: seq<Task>, query: Query)
    requires FirstError(tasks, query).Some?
    ensures var e := FirstError(tasks, query).value; e.UnsupportedColumn? || e.UnsupportedPredicate?
  {
    if Check(tasks[0], query.conditions, query.filterable).Raise? {
      CheckError(tasks[0], query.conditions, query.filterable);
    } else {
      FilterError(tasks[1..], query);
    }
  }

  lemma {:induction false} CheckError(t: Task, conditions: seq<Condition>, filterable: set<string>)
    requires Check(t, conditions, filterable).Raise?
    ensures var e := Check(t, conditions, filterable).error; e.UnsupportedColumn? || e.UnsupportedPredicate?
  {
    if conditions != [] {
      var c := conditions[0];
      if c.column in filterable && (c.op == "=" || c.op == "!=") {
        CheckError(t, conditions[1..], filterable);
      }
    }
  }

  /** Exactly when two nodes with one kept task each may answer in either order: when the ids differ or
      the rows are equal. */
  lemma TwoNodes(a: Task, b: Task, query: Query)
    requires query.limit > 0
    requires Check(a, query.conditions, query.filterable).Keep? && Check(b, query.conditions, query.filterable).Keep?
    ensures var x, y := Tasks(1, [], [a]), Tasks(1, [], [b]);
      ListSpec([x, y], query) == ListSpec([y, x], query) <==> a.id != b.id || Show(a, query.shown) == Show(b, query.shown)
  {
    hide *;
    ShowId(a, query.shown);
    ShowId(b, query.shown);
    if a.id != b.id || Show(a, query.shown) == Show(b, query.shown) {
      TwoNodesAgree(a, b, query);
    } else {
      TwoNodesDiffer(a, b, query);
    }
  }

  lemma TwoNodesAgree(a: Task, b: Task, query: Query)
    requires Check(a, query.conditions, query.filterable).Keep? && Check(b, query.conditions, query.filterable).Keep?
    requires a.id != b.id || Show(a, query.shown) == Show(b, query.shown)
    ensures var x, y := Tasks(1, [], [a]), Tasks(1, [], [b]); ListSpec([x, y], query) == ListSpec([y, x], query)
  {
    hide Check, Collect, Merged, ListSpec, Show, Room;
    var x, y := Tasks(1, [], [a]), Tasks(1, [], [b]);
    TwoNodeRows(a, b, query);
    ShowId(a, query.shown);
    ShowId(b, query.shown);
    OrderIndependent([x, y], query);
    assert multiset([y, x]) == multiset([x, y]);
  }

  lemma TwoNodesDiffer(a: Task, b: Task, query: Query)
    requires query.limit > 0
    requires Check(a, query.conditions, query.filterable).Keep? && Check(b, query.conditions, query.filterable).Keep?
    requires a.id == b.id && Show(a, query.shown) != Show(b, query.shown)
    ensures var x, y := Tasks(1, [], [a]), Tasks(1, [], [b]); ListSpec([x, y], query) != ListSpec([y, x], query)
  {
    hide Check, Collect, Merged, FirstFailure, FirstError, Sort, Show;
    var ra, rb := Show(a, query.shown), Show(b, query.shown);
    TwoNodeRows(a, b, query);
    TwoNodeRows(b, a, query);
    ShowId(a, query.shown);
    ShowId(b, query.shown);
    StringLeTotal(a.id, b.id);
    SortTwo(ra, rb);
    SortTwo(rb, ra);
    assert Prefix([ra, rb], query.limit)[0] == ra && Prefix([rb, ra], query.limit)[0] == rb;
  }

  /** Two nodes that show different states of one task, and two that fail in different ways. */
  lemma OrderMatters()
    ensures var query := Query([], {}, {"scheduling_state"}, 10);
      var x, y := Tasks(1, [], [Task("1", "A", map[])]), Tasks(1, [], [Task("1", "B", map[])]);
      && ListSpec([x, y], query) != ListSpec([y, x], query)
      && ListSpec([Failed("a"), Failed("b")], query) != ListSpec([Failed("b"), Failed("a")], query)
  {
    var query := Query([], {}, {"scheduling_state"}, 10);
    var a, b := Task("1", "A", map[]), Task("1", "B", map[]);
    assert Show(a, query.shown).cells["scheduling_state"] == Some("A");
    assert Show(b, query.shown).cells["scheduling_state"] == Some("B");
    assert Check(a, [], {}).Keep? && Check(b, [], {}).Keep?;
    assert FirstFailure([Failed("a"), Failed("b")]) == Some(Unexpected("a"));
    assert FirstFailure([Failed("b"), Failed("a")]) == Some(Unexpected("b"));
    hide Show, Check, FirstFailure, Merged, Collect, Sort, FirstError;
    TwoNodes(a, b, query);
  }

  lemma ShowId(t: Task, shown: set<string>)
    ensures Show(t, shown).id == t.id
  {
  }

  lemma SortTwo(x: Row, y: Row)
    requires RowLe(x, y)
    ensures Sort([x, y], RowLe) == [x, y]
  {
    assert [x, y][1..] == [y];
    assert Sort([y], RowLe) == [y];
  }

  lemma TwoNodeRows(a: Task, b: Task, query: Query)
    requires Check(a, query.conditions, query.filterable).Keep? && Check(b, query.conditions, query.filterable).Keep?
    ensures var replies := [Tasks(1, [], [a]), Tasks(1, [], [b])];
      && Merged(replies) == [a, b]
      && Collect(RowOf(query), Merged(replies)) == [Show(a, query.shown), Show(b, query.shown)]
      && FirstFailure(replies).None? && FirstError(Merged(replies), query).None? && Unreachable(replies) == []
  {
    hide Check, Collect;
    var x, y := Tasks(1, [], [a]), Tasks(1, [], [b]);
    var replies := [x, y];
    CollectTwo(RunningIn, x, y);
    CollectTwo(NoAnswer, x, y);
    CollectTwo(TasksOf, x, y);
    assert Running(replies) == {};
    CollectTwo(Mark({}), a, b);
    CollectTwo(RowOf(query), a, b);
    assert [a] + [b] == [a, b];
    FirstFailureMembers(replies);
    FirstErrorMembers([a, b], query);
  }
}

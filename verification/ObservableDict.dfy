/** The dictionary of dashboard/utils.py that hands out lazily built immutable proxies and queues a
    notice of every first-level change. */
module ObservableDict {
  import opened Options

  datatype Key = Key(name: string)

  /** Stored values: None, a JSON scalar, a list, a dictionary, or an object of some other type. */
  datatype Value =
    | Null
    | Scalar(text: string)
    | List(items: seq<Value>)
    | Dictionary(fields: map<string, Value>)
    | Foreign(name: string)

  /** The read-only view of a value: lists and dictionaries are wrapped, scalars are themselves. */
  datatype Proxy = Plain(value: Value) | ImmutableList(items: seq<Value>) | ImmutableDict(fields: map<string, Value>)

  /** A value of a type that is not JSON compatible raises a type error. */
  function MakeImmutable(v: Value): (p: Option<Proxy>)
    ensures p.None? <==> v.Foreign?
    ensures p.Some? ==> Mutable(p.value) == v
    ensures v.List? <==> p.Some? && p.value.ImmutableList?
    ensures v.Dictionary? <==> p.Some? && p.value.ImmutableDict?
  {
    match v
    case List(items) => Some(ImmutableList(items))
    case Dictionary(fields) => Some(ImmutableDict(fields))
    case Foreign(_) => None
    case _ => Some(Plain(v))
  }

  function Mutable(p: Proxy): Value {
    match p
    case Plain(v) => v
    case ImmutableList(items) => List(items)
    case ImmutableDict(fields) => Dictionary(fields)
  }

  type Dict = map<Key, Value>

  /** A queued notice. A notice without a new value is a deletion. */
  datatype Change = Change(key: Key, before: Option<Value>, after: Option<Value>)

  /** What the dictionary has under a key, where a missing key and None are the same. */
  function Lookup(d: Dict, k: Key): Option<Value> {
    if k in d && d[k] != Null then Some(d[k]) else None
  }

  function Known(v: Value): Option<Value> {
    if v == Null then None else Some(v)
  }

  lemma LookupSet(d: Dict, k: Key, v: Value, d': Dict)
    requires d' == d[k := v]
    ensures forall x :: Lookup(d', x) == if x == k then Known(v) else Lookup(d, x)
  {
  }

  lemma LookupDelete(d: Dict, k: Key, d': Dict)
    requires d' == d - {k}
    ensures forall x :: Lookup(d', x) == if x == k then None else Lookup(d, x)
  {
  }

  // The notices that setting and deleting a key queue.

  function SetNotice(d: Dict, k: Key, v: Value): seq<Change> {
    if Lookup(d, k) != Known(v) then [Change(k, Lookup(d, k), Some(v))] else []
  }

  function DeleteNotice(d: Dict, k: Key): seq<Change> {
    if Lookup(d, k).Some? then [Change(k, Lookup(d, k), None)] else []
  }

  // Replaying notices.

  function Apply(d: Dict, c: Change): Dict {
    match c.after
    case Some(v) => d[c.key := v]
    case None => d - {c.key}
  }

  function Replay(d: Dict, queue: seq<Change>): Dict {
    if queue == [] then d else Apply(Replay(d, queue[..|queue| - 1]), queue[|queue| - 1])
  }

  /** Two dictionaries that differ at most in entries that are None. */
  ghost predicate Agree(a: Dict, b: Dict) {
    forall k :: Lookup(a, k) == Lookup(b, k)
  }

  /** Every notice reports a real change and the value that was there before it. */
  ghost predicate Faithful(d: Dict, queue: seq<Change>) {
    forall i :: 0 <= i < |queue| ==>
      var now := Replay(d, queue[..i]);
      && queue[i].before == Lookup(now, queue[i].key)
      && Lookup(Apply(now, queue[i]), queue[i].key) != queue[i].before
  }

  lemma ReplayAppend(d: Dict, queue: seq<Change>, c: Change)
    ensures Replay(d, queue + [c]) == Apply(Replay(d, queue), c)
  {
    assert (queue + [c])[..|queue|] == queue;
  }

  lemma FaithfulAppend(d: Dict, queue: seq<Change>, c: Change)
    requires Faithful(d, queue)
    requires c.before == Lookup(Replay(d, queue), c.key)
    requires Lookup(Apply(Replay(d, queue), c), c.key) != c.before
    ensures Faithful(d, queue + [c])
  {
    var all := queue + [c];
    forall i | 0 <= i < |all|
      ensures var now := Replay(d, all[..i]);
        all[i].before == Lookup(now, all[i].key) && Lookup(Apply(now, all[i]), all[i].key) != all[i].before
    {
      if i < |queue| {
        assert all[..i] == queue[..i];
      } else {
        assert all[..i] == queue;
      }
    }
  }

  /** The queue is a faithful log of how the dictionary came about. */
  ghost predicate Logged(base: Dict, d: Dict, queue: seq<Change>) {
    Agree(Replay(base, queue), d) && Faithful(base, queue)
  }

  lemma SetLogged(base: Dict, d: Dict, queue: seq<Change>, k: Key, v: Value)
    requires Logged(base, d, queue)
    ensures Logged(base, d[k := v], queue + SetNotice(d, k, v))
  {
    hide Replay, Lookup, Faithful;
    LookupSet(d, k, v, d[k := v]);
    if Lookup(d, k) == Known(v) {
      assert queue + SetNotice(d, k, v) == queue;
    } else {
      var c := Change(k, Lookup(d, k), Some(v));
      ReplayAppend(base, queue, c);
      LookupSet(Replay(base, queue), k, v, Replay(base, queue + [c]));
      FaithfulAppend(base, queue, c);
    }
  }

  lemma DeleteLogged(base: Dict, d: Dict, queue: seq<Change>, k: Key)
    requires Logged(base, d, queue)
    ensures Logged(base, d - {k}, queue + DeleteNotice(d, k))
  {
    hide Replay, Lookup, Faithful;
    LookupDelete(d, k, d - {k});
    if Lookup(d, k).None? {
      assert queue + DeleteNotice(d, k) == queue;
    } else {
      var c := Change(k, Lookup(d, k), None);
      ReplayAppend(base, queue, c);
      LookupDelete(Replay(base, queue), k, Replay(base, queue + [c]));
      FaithfulAppend(base, queue, c);
    }
  }

  ghost predicate NoNulls(d: Dict) {
    forall k :: k in d ==> d[k] != Null
  }

  /** Exactly when one assignment keeps the replay equal to the dictionary: unless it gives None to
      a key that is not there. */
  lemma SetReplayExact(base: Dict, d: Dict, queue: seq<Change>, k: Key, v: Value)
    requires Replay(base, queue) == d
    ensures Replay(base, queue + SetNotice(d, k, v)) == d[k := v] <==> !(v == Null && k !in d)
  {
    if Lookup(d, k) == Known(v) {
      assert queue + SetNotice(d, k, v) == queue;
      if k in d {
        assert d[k := v] == d;
      } else {
        assert k in d[k := v];
      }
    } else {
      ReplayAppend(base, queue, Change(k, Lookup(d, k), Some(v)));
    }
  }

  /** Exactly when one deletion keeps it equal: unless it removes a None. */
  lemma DeleteReplayExact(base: Dict, d: Dict, queue: seq<Change>, k: Key)
    requires Replay(base, queue) == d
    ensures Replay(base, queue + DeleteNotice(d, k)) == d - {k} <==> !(k in d && d[k] == Null)
  {
    if Lookup(d, k).None? {
      assert queue + DeleteNotice(d, k) == queue;
      if k in d {
        assert k !in d - {k};
      } else {
        assert d - {k} == d;
      }
    } else {
      ReplayAppend(base, queue, Change(k, Lookup(d, k), None));
    }
  }

  // Whole runs.

  datatype Op = Assign(key: Key, value: Value) | Remove(key: Key)

  function ApplyOp(d: Dict, op: Op): Dict {
    match op
    case Assign(k, v) => d[k := v]
    case Remove(k) => d - {k}
  }

  function OpNotice(d: Dict, op: Op): seq<Change> {
    match op
    case Assign(k, v) => SetNotice(d, k, v)
    case Remove(k) => DeleteNotice(d, k)
  }

  function RunDict(base: Dict, ops: seq<Op>): Dict {
    if ops == [] then base else ApplyOp(RunDict(base, ops[..|ops| - 1]), ops[|ops| - 1])
  }

  function RunQueue(base: Dict, ops: seq<Op>): seq<Change> {
    if ops == [] then []
    else
      var before := ops[..|ops| - 1];
      RunQueue(base, before) + OpNotice(RunDict(base, before), ops[|ops| - 1])
  }

  lemma RunAppend(base: Dict, ops: seq<Op>, op: Op)
    ensures RunDict(base, ops + [op]) == ApplyOp(RunDict(base, ops), op)
    ensures RunQueue(base, ops + [op]) == RunQueue(base, ops) + OpNotice(RunDict(base, ops), op)
  {
    assert (ops + [op])[..|ops|] == ops;
  }

  /** After any run the queue is a faithful log. */
  lemma {:induction false} RunLogged(base: Dict, ops: seq<Op>)
    ensures Logged(base, RunDict(base, ops), RunQueue(base, ops))
  {
    if ops != [] {
      var before := ops[..|ops| - 1];
      var d, queue := RunDict(base, before), RunQueue(base, before);
      RunLogged(base, before);
      hide Logged, Replay;
      match ops[|ops| - 1]
      case Assign(k, v) => SetLogged(base, d, queue, k, v);
      case Remove(k) => DeleteLogged(base, d, queue, k);
    }
  }

  /** Whether a key was there when its value last changed, where a missing key and None are the same value. */
  function ThereAtLastChange(base: Dict, ops: seq<Op>, k: Key): bool {
    if ops == [] then k in base
    else
      var before := ops[..|ops| - 1];
      if Lookup(RunDict(base, ops), k) != Lookup(RunDict(base, before), k) then k in RunDict(base, ops)
      else ThereAtLastChange(base, before, k)
  }

  lemma {:induction false} ReplayKeys(base: Dict, ops: seq<Op>, k: Key)
    ensures k in Replay(base, RunQueue(base, ops)) <==> ThereAtLastChange(base, ops, k)
  {
    if ops != [] {
      var before, op := ops[..|ops| - 1], ops[|ops| - 1];
      ReplayKeys(base, before, k);
      ReplayOp(base, RunDict(base, before), RunQueue(base, before), op, k);
    }
  }

  /** One operation changes whether the replay has a key exactly where it changes the key's value. */
  lemma ReplayOp(base: Dict, d: Dict, queue: seq<Change>, op: Op, k: Key)
    ensures var d', r, r' := ApplyOp(d, op), Replay(base, queue), Replay(base, queue + OpNotice(d, op));
      k in r' <==> if Lookup(d', k) != Lookup(d, k) then k in d' else k in r
  {
    if OpNotice(d, op) == [] {
      assert queue + OpNotice(d, op) == queue;
    } else {
      assert OpNotice(d, op) == [OpNotice(d, op)[0]];
      ReplayAppend(base, queue, OpNotice(d, op)[0]);
    }
    hide Replay;
  }

  /** Exactly when replaying the queue of a whole run gives its last dictionary: when every key is there if
      and only if it was there when its value last changed. Without None values that is always so. */
  lemma RunReplayExact(base: Dict, ops: seq<Op>)
    ensures Replay(base, RunQueue(base, ops)) == RunDict(base, ops) <==>
      forall k :: k in RunDict(base, ops) <==> ThereAtLastChange(base, ops, k)
    ensures NoNulls(base) && NullFree(ops) ==> Replay(base, RunQueue(base, ops)) == RunDict(base, ops)
  {
    var r, d := Replay(base, RunQueue(base, ops)), RunDict(base, ops);
    RunLogged(base, ops);
    forall k
      ensures k in r <==> ThereAtLastChange(base, ops, k)
    {
      ReplayKeys(base, ops, k);
    }
    SameKeysEqual(r, d);
    if NoNulls(base) && NullFree(ops) {
      NullFreeRun(base, ops);
    }
  }

  /** One assignment of None to a missing key: nothing is notified, so the replay misses the key. */
  lemma NoneIsLost(k: Key)
    ensures var ops := [Assign(k, Null)];
      RunQueue(map[], ops) == [] && Replay(map[], RunQueue(map[], ops)) != RunDict(map[], ops)
  {
    RunAppend(map[], [], Assign(k, Null));
    assert [] + [Assign(k, Null)] == [Assign(k, Null)];
    assert k in RunDict(map[], [Assign(k, Null)]);
  }

  lemma SameKeysEqual(a: Dict, b: Dict)
    requires Agree(a, b)
    ensures a == b <==> forall k :: k in a <==> k in b
  {
    if forall k :: k in a <==> k in b {
      forall k | k in a
        ensures a[k] == b[k]
      {
        assert Lookup(a, k) == Lookup(b, k);
      }
    }
  }

  ghost predicate NullFree(ops: seq<Op>) {
    forall i :: 0 <= i < |ops| && ops[i].Assign? ==> ops[i].value != Null
  }

  lemma {:induction false} NullFreeRun(base: Dict, ops: seq<Op>)
    requires NoNulls(base) && NullFree(ops)
    ensures NoNulls(RunDict(base, ops)) && Replay(base, RunQueue(base, ops)) == RunDict(base, ops)
  {
    if ops != [] {
      var before := ops[..|ops| - 1];
      NullFreeRun(base, before);
      hide Replay;
      match ops[|ops| - 1]
      case Assign(k, v) => SetReplayExact(base, RunDict(base, before), RunQueue(base, before), k, v);
      case Remove(k) => DeleteReplayExact(base, RunDict(base, before), RunQueue(base, before), k);
    }
  }

  /** The number of notices about a key. */
  function Notices(queue: seq<Change>, k: Key): nat {
    if queue == [] then 0
    else Notices(queue[..|queue| - 1], k) + if queue[|queue| - 1].key == k then 1 else 0
  }

  lemma NoticesAppend(queue: seq<Change>, more: seq<Change>, k: Key)
    requires |more| <= 1
    ensures Notices(queue + more, k) == Notices(queue, k) + if more != [] && more[0].key == k then 1 else 0
  {
    if more == [] {
      assert queue + more == queue;
    } else {
      assert (queue + more)[..|queue|] == queue;
    }
  }

  datatype Reply = Found(proxy: Proxy) | KeyError | TypeError

  /** Every proxy belongs to a current key and shows its current value. */
  ghost predicate ProxiesAgree(dict: Dict, proxy: map<Key, Proxy>) {
    forall k :: k in proxy ==> k in dict && MakeImmutable(dict[k]) == Some(proxy[k])
  }

  class Observed {
    const subscribed: bool
    var dict: Dict
    var proxy: map<Key, Proxy>
    var queue: seq<Change>
    /** The dictionary at first, and the assignments and removals since. */
    ghost const base: Dict
    ghost var ops: seq<Op>

    ghost predicate Valid()
      reads this
    {
      && ProxiesAgree(dict, proxy)
      && dict == RunDict(base, ops)
      && queue == if subscribed then RunQueue(base, ops) else []
    }

    constructor (d: Dict, subscribed: bool)
      ensures Valid() && dict == d && queue == [] && proxy == map[]
      ensures this.subscribed == subscribed && base == d && ops == []
    {
      this.subscribed := subscribed;
      dict, proxy, queue, base, ops := d, map[], [], d, [];
    }

    /** After every run of assignments, removals and resets the queue is a faithful log, and replaying it
        gives the dictionary exactly where every key is there if and only if it was when its value last
        changed; without None values it always does. */
    lemma Rebuilds()
      requires Valid() && subscribed
      ensures Logged(base, dict, queue)
      ensures Replay(base, queue) == dict <==> forall k :: k in dict <==> ThereAtLastChange(base, ops, k)
      ensures NoNulls(base) && NullFree(ops) ==> Replay(base, queue) == dict
    {
      RunLogged(base, ops);
      RunReplayExact(base, ops);
    }

    /** Reads a key, building and keeping its proxy on first use. */
    method Get(k: Key) returns (r: Reply)
      requires Valid()
      modifies this`proxy
      ensures Valid()
      ensures r.Found? <==> k in dict && !dict[k].Foreign?
      ensures r.KeyError? <==> k !in dict
      ensures r.Found? ==> Mutable(r.proxy) == dict[k]
    {
      if k in proxy && proxy[k] != Plain(Null) {
        return Found(proxy[k]);
      }
      if k !in dict {
        return KeyError;
      }
      match MakeImmutable(dict[k])
      case None =>
        return TypeError;
      case Some(p) =>
        proxy := proxy[k := p];
        return Found(p);
    }

    /** Iterates over the keys, building the missing proxies first. A value without a proxy makes
        it fail, and is the only thing that does. */
    method Iterate() returns (r: Option<set<Key>>)
      requires Valid()
      modifies this`proxy
      ensures Valid()
      ensures r.None? <==> exists k :: k in dict && dict[k].Foreign?
      ensures r.Some? ==> r.value == dict.Keys && proxy.Keys == dict.Keys
    {
      hide RunDict, RunQueue, MakeImmutable;
      assert proxy.Keys <= dict.Keys;
      SameSize(proxy.Keys, dict.Keys);
      if |proxy| != |dict| {
        var todo := dict.Keys - proxy.Keys;
        while todo != {}
          invariant ProxiesAgree(dict, proxy)
          invariant todo == dict.Keys - proxy.Keys
          decreases todo
        {
          var k :| k in todo;
          match MakeImmutable(dict[k])
          case None =>
            return None;
          case Some(p) =>
            proxy := proxy[k := p];
            todo := todo - {k};
        }
      }
      assert proxy.Keys == dict.Keys;
      assert forall k :: k in dict ==> k in proxy;
      return Some(proxy.Keys);
    }

    /** Stores a value, drops the key's proxy and queues a notice if the value changed. */
    method Set(k: Key, v: Value)
      requires Valid()
      modifies this
      ensures Valid() && dict == old(dict)[k := v] && ops == old(ops) + [Assign(k, v)]
      ensures queue == old(queue) + if subscribed then SetNotice(old(dict), k, v) else []
    {
      hide RunDict, RunQueue;
      RunAppend(base, ops, Assign(k, v));
      ops := ops + [Assign(k, v)];
      var was := if k in dict then dict[k] else Null;
      dict, proxy := dict[k := v], proxy - {k};
      if subscribed && was != v {
        if was == Null {
          queue := queue + [Change(k, None, Some(v))];
        } else {
          queue := queue + [Change(k, Some(was), Some(v))];
        }
      }
    }

    /** Removes a key if it is there and queues a notice if it had a value. */
    method Delete(k: Key)
      requires Valid()
      modifies this
      ensures Valid() && dict == old(dict) - {k} && ops == old(ops) + [Remove(k)]
      ensures queue == old(queue) + if subscribed then DeleteNotice(old(dict), k) else []
    {
      hide RunDict, RunQueue;
      RunAppend(base, ops, Remove(k));
      ops := ops + [Remove(k)];
      var was := if k in dict then dict[k] else Null;
      dict, proxy := dict - {k}, proxy - {k};
      if subscribed && was != Null {
        queue := queue + [Change(k, Some(was), None)];
      }
    }

    /** Makes the dictionary equal to d by removing and assigning. One notice is queued for every key whose
        value was removed, added or altered, and none for any other. */
    method Reset(d: Dict)
      requires Valid()
      modifies this
      ensures Valid() && dict == d
      ensures old(ops) <= ops && Towards(d, ops[|old(ops)|..])
      ensures old(queue) <= queue
      ensures subscribed ==> OneEach(old(dict), d, old(queue), queue)
    {
      RemoveOthers(d);
      AssignAll(d, old(dict), old(queue));
    }

    /** The first loop of a reset. */
    method RemoveOthers(d: Dict)
      requires Valid()
      modifies this
      ensures Valid() && old(ops) <= ops && Towards(d, ops[|old(ops)|..]) && old(queue) <= queue
      ensures dict.Keys == old(dict).Keys * d.Keys && forall k :: k in dict ==> dict[k] == old(dict)[k]
      ensures subscribed ==> OneEach(old(dict), dict, old(queue), queue)
    {
      hide RunDict, RunQueue, OneEach, Lookup, Towards, ProxiesAgree;
      NoneEach(dict, queue);
      TowardsNone(d, ops);
      var gone := dict.Keys - d.Keys;
      while gone != {}
        invariant Valid() && old(ops) <= ops && Towards(d, ops[|old(ops)|..]) && old(queue) <= queue
        invariant gone == dict.Keys - d.Keys && old(dict).Keys * d.Keys <= dict.Keys <= old(dict).Keys
        invariant forall k :: k in dict ==> dict[k] == old(dict)[k]
        invariant subscribed ==> OneEach(old(dict), dict, old(queue), queue)
        decreases gone
      {
        var k :| k in gone;
        ghost var before, known, done := dict, queue, ops;
        Delete(k);
        gone := gone - {k};
        TowardsStep(d, done, |old(ops)|, Remove(k));
        if subscribed {
          SameLookup(old(dict), before, k);
          CountDelete(old(dict), before, old(queue), known, k);
        }
      }
      Inside(dict.Keys, d.Keys);
    }

    /** The second loop of a reset, which began at another dictionary and queue. */
    method AssignAll(d: Dict, ghost dict0: Dict, ghost queue0: seq<Change>)
      requires Valid() && dict.Keys <= d.Keys && queue0 <= queue
      requires forall k :: k in d ==> Lookup(dict, k) == Lookup(dict0, k)
      requires subscribed ==> OneEach(dict0, dict, queue0, queue)
      modifies this
      ensures Valid() && dict == d && old(ops) <= ops && Towards(d, ops[|old(ops)|..]) && queue0 <= queue
      ensures subscribed ==> OneEach(dict0, d, queue0, queue)
    {
      hide RunDict, RunQueue, OneEach, Lookup, Towards, ProxiesAgree;
      TowardsNone(d, ops);
      var todo := d.Keys;
      while todo != {}
        invariant Valid() && old(ops) <= ops && Towards(d, ops[|old(ops)|..]) && queue0 <= queue
        invariant todo <= d.Keys && dict.Keys <= d.Keys
        invariant forall k :: k in d.Keys - todo ==> k in dict && dict[k] == d[k]
        invariant forall k :: k in todo ==> Lookup(dict, k) == Lookup(dict0, k)
        invariant subscribed ==> OneEach(dict0, dict, queue0, queue)
        decreases todo
      {
        var k :| k in todo;
        ghost var before, known, done := dict, queue, ops;
        Set(k, d[k]);
        todo := todo - {k};
        TowardsStep(d, done, |old(ops)|, Assign(k, d[k]));
        LookupSet(before, k, d[k], dict);
        if subscribed {
          CountSet(dict0, before, queue0, known, k, d[k]);
        }
      }
    }
  }

  /** The operations lead to d: they remove other keys and assign the values of d. */
  ghost predicate Towards(d: Dict, ops: seq<Op>) {
    forall i :: 0 <= i < |ops| ==>
      match ops[i]
      case Assign(k, v) => k in d && d[k] == v
      case Remove(k) => k !in d
  }

  /** The queue grew by one notice for every key whose value differs, and none for any other. */
  ghost predicate OneEach(d0: Dict, d: Dict, queue0: seq<Change>, queue: seq<Change>) {
    forall k :: Notices(queue, k) == Notices(queue0, k) + if Lookup(d0, k) != Lookup(d, k) then 1 else 0
  }

  lemma NoneEach(d: Dict, queue: seq<Change>)
    ensures OneEach(d, d, queue, queue)
  {
  }

  lemma TowardsNone(d: Dict, ops: seq<Op>)
    ensures Towards(d, ops[|ops|..])
  {
  }

  lemma TowardsStep(d: Dict, ops: seq<Op>, n: nat, op: Op)
    requires n <= |ops| && Towards(d, ops[n..]) && Towards(d, [op])
    ensures Towards(d, (ops + [op])[n..])
  {
    assert (ops + [op])[n..] == ops[n..] + [op];
  }

  lemma SameLookup(a: Dict, b: Dict, k: Key)
    requires k in a && k in b && a[k] == b[k]
    ensures Lookup(a, k) == Lookup(b, k)
  {
  }

  /** Deleting a key that had not changed yet adds its notice and no other. */
  lemma CountDelete(start: Dict, before: Dict, queue0: seq<Change>, queue: seq<Change>, k: Key)
    requires OneEach(start, before, queue0, queue) && Lookup(before, k) == Lookup(start, k)
    ensures OneEach(start, before - {k}, queue0, queue + DeleteNotice(before, k))
  {
    hide Lookup, Notices;
    LookupDelete(before, k, before - {k});
    forall x
      ensures Notices(queue + DeleteNotice(before, k), x)
           == Notices(queue0, x) + if Lookup(start, x) != Lookup(before - {k}, x) then 1 else 0
    {
      NoticesAppend(queue, DeleteNotice(before, k), x);
    }
  }

  /** So does assigning one. */
  lemma CountSet(start: Dict, before: Dict, queue0: seq<Change>, queue: seq<Change>, k: Key, v: Value)
    requires OneEach(start, before, queue0, queue) && Lookup(before, k) == Lookup(start, k)
    ensures OneEach(start, before[k := v], queue0, queue + SetNotice(before, k, v))
  {
    hide Lookup, Notices;
    LookupSet(before, k, v, before[k := v]);
    forall x
      ensures Notices(queue + SetNotice(before, k, v), x)
           == Notices(queue0, x) + if Lookup(start, x) != Lookup(before[k := v], x) then 1 else 0
    {
      NoticesAppend(queue, SetNotice(before, k, v), x);
    }
  }

  lemma Inside(a: set<Key>, b: set<Key>)
    requires a - b == {}
    ensures a <= b
  {
    forall k | k in a
      ensures k in b
    {
      assert k !in a - b;
    }
  }

  lemma SameSize(a: set<Key>, b: set<Key>)
    requires a <= b
    ensures |a| == |b| <==> a == b
  {
    assert |b| == |a| + |b - a| by {
      assert b == a + (b - a);
    }
  }
}

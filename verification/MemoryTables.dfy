/** The object reference table of dashboard/memory_utils.py: entries are classified, checked, sorted,
    grouped and summarized. */
module MemoryTables {
  import opened Options
  import opened Sequences
  import opened Sorting
  import opened Texts

  datatype ReferenceType = ActorHandle | CapturedInObject | LocalReference | PinnedInMemory | Unknown | UsedByPendingTask

  /** The order of the names that stand for the types. */
  function Rank(t: ReferenceType): nat {
    match t
    case ActorHandle => 0
    case CapturedInObject => 1
    case LocalReference => 2
    case PinnedInMemory => 3
    case Unknown => 4
    case UsedByPendingTask => 5
  }

  function TypeName(t: ReferenceType): string {
    match t
    case ActorHandle => "ACTOR_HANDLE"
    case CapturedInObject => "CAPTURED_IN_OBJECT"
    case LocalReference => "LOCAL_REFERENCE"
    case PinnedInMemory => "PINNED_IN_MEMORY"
    case Unknown => "UNKNOWN_STATUS"
    case UsedByPendingTask => "USED_BY_PENDING_TASK"
  }

  /** The order of types is the order of their names. */
  lemma RankIsNameOrder(s: ReferenceType, t: ReferenceType)
    ensures Rank(s) <= Rank(t) <==> StringLe(TypeName(s), TypeName(t))
  {
    StringLeTotal(TypeName(s), TypeName(s));
    if s != t {
      if (s == Unknown && t == UsedByPendingTask) || (s == UsedByPendingTask && t == Unknown) {
        UnknownBeforeUsed();
      } else {
        assert TypeName(s)[0] != TypeName(t)[0];
      }
    }
  }

  lemma UnknownBeforeUsed()
    ensures StringLe("UNKNOWN_STATUS", "USED_BY_PENDING_TASK") && !StringLe("USED_BY_PENDING_TASK", "UNKNOWN_STATUS")
  {
    assert "UNKNOWN_STATUS"[1..][0] == 'N' && "USED_BY_PENDING_TASK"[1..][0] == 'S';
  }

  /** A node address or a call site. */
  datatype Name = Name(text: string)

  /** One reference as a worker reports it. A size of -1 means that it was not recorded. */
  datatype Reported = Reported(hex: string, nil: bool, size: int, callSite: Name, local: int, pinned: bool,
                               submitted: int, contained: nat)

  datatype Worker = Worker(pid: int, address: Name, driver: bool, refs: seq<Reported>)

  datatype Entry = Entry(pid: int, address: Name, driver: bool, ref: Reported, callSite: Name, refType: ReferenceType)

  function Repeat(c: char, n: nat): string {
    seq(n, _ => c)
  }

  function Slice(s: string, a: nat, b: nat): string
    requires a <= b
  {
    if |s| <= a then "" else if |s| <= b then s[a..] else s[a..b]
  }

  /** The id of an actor creation task: all task bits set, but not all actor bits. */
  predicate IsActorHandle(hex: string) {
    Slice(hex, 0, 16) == Repeat('f', 16) && Slice(hex, 16, 40) != Repeat('f', 24)
  }

  function Classify(r: Reported): ReferenceType {
    if IsActorHandle(r.hex) then ActorHandle
    else if r.pinned then PinnedInMemory
    else if r.submitted > 0 then UsedByPendingTask
    else if r.local > 0 then LocalReference
    else if r.contained > 0 then CapturedInObject
    else Unknown
  }

  predicate IsValid(r: Reported) {
    !(!r.pinned && r.local == 0 && r.submitted == 0 && r.contained == 0) && !r.nil
  }

  function MakeEntry(w: Worker, r: Reported): Entry {
    Entry(w.pid, w.address, w.driver, r, if r.callSite == Name("") then Name("disabled") else r.callSite, Classify(r))
  }

  /** The type is the first of these that applies: actor handle, pinned, used by a pending task, local, captured. */
  lemma ClassifyExact(r: Reported)
    ensures Classify(r) == ActorHandle <==> IsActorHandle(r.hex)
    ensures Classify(r) == PinnedInMemory <==> !IsActorHandle(r.hex) && r.pinned
    ensures Classify(r) == UsedByPendingTask <==> !IsActorHandle(r.hex) && !r.pinned && r.submitted > 0
    ensures Classify(r) == LocalReference <==> !IsActorHandle(r.hex) && !r.pinned && r.submitted <= 0 && r.local > 0
    ensures Classify(r) == CapturedInObject <==>
      !IsActorHandle(r.hex) && !r.pinned && r.submitted <= 0 && r.local <= 0 && r.contained > 0
  {
    hide IsActorHandle;
  }

  /** An actor handle starts with 16 times f, and the 24 digits after are not all f. */
  lemma ActorHandleExact(hex: string)
    ensures IsActorHandle(hex) <==>
      && |hex| >= 16 && (forall i :: 0 <= i < 16 ==> hex[i] == 'f')
      && !(|hex| >= 40 && forall i :: 16 <= i < 40 ==> hex[i] == 'f')
  {
    AllF(hex, 0, 16);
    AllF(hex, 16, 40);
    hide Slice, Repeat;
  }

  lemma AllF(hex: string, a: nat, b: nat)
    requires a < b
    ensures Slice(hex, a, b) == Repeat('f', b - a) <==> |hex| >= b && forall i :: a <= i < b ==> hex[i] == 'f'
  {
    var s := Slice(hex, a, b);
    assert |hex| >= b ==> |s| == b - a && forall i :: a <= i < b ==> s[i - a] == hex[i];
    assert |hex| < b ==> |s| < b - a;
    if s == Repeat('f', b - a) {
      forall i | a <= i < b
        ensures hex[i] == 'f'
      {
        assert s[i - a] == 'f';
      }
    }
  }

  /** A reference is valid exactly when it has an id and something refers to it. */
  lemma ValidExact(r: Reported)
    ensures IsValid(r) <==> !r.nil && (r.pinned || r.local != 0 || r.submitted != 0 || r.contained > 0)
  {
  }

  /** What an entry takes over from its worker and its reference. */
  lemma EntryExact(w: Worker, r: Reported)
    ensures var e := MakeEntry(w, r);
      && e.pid == w.pid && e.address == w.address && e.driver == w.driver && e.ref == r && e.refType == Classify(r)
      && e.callSite.text == if r.callSite.text == "" then "disabled" else r.callSite.text
  {
    hide Classify;
  }

  /** A valid entry has no type exactly when it is no actor handle and the only thing that makes it
      valid is a negative count. */
  lemma ValidIsTyped(r: Reported)
    requires IsValid(r)
    ensures Classify(r) == Unknown <==>
      !IsActorHandle(r.hex) && !r.pinned && r.contained == 0 && r.submitted <= 0 && r.local <= 0 && (r.submitted < 0 || r.local < 0)
    ensures r.local >= 0 && r.submitted >= 0 ==> Classify(r) != Unknown
  {
  }

  /** A reference with a negative count is valid and has no type. */
  lemma NegativeCountUntyped()
    ensures var r := Reported("", false, 0, Name(""), -1, false, 0, 0); IsValid(r) && Classify(r) == Unknown
  {
    assert |Slice("", 0, 16)| == 0 && |Repeat('f', 16)| == 16;
  }

  function ValidEntry(w: Worker): Reported -> seq<Entry> {
    (r: Reported) => if IsValid(r) then [MakeEntry(w, r)] else []
  }

  function EntriesOf(w: Worker): seq<Entry> {
    Collect(ValidEntry(w), w.refs)
  }

  // Summaries.

  datatype Summary = Summary(size: int, local: int, pinned: int, pending: int, captured: int, actors: int)

  const ZERO := Summary(0, 0, 0, 0, 0, 0)

  function Add(a: Summary, b: Summary): Summary {
    Summary(a.size + b.size, a.local + b.local, a.pinned + b.pinned, a.pending + b.pending,
            a.captured + b.captured, a.actors + b.actors)
  }

  function If(b: bool): int {
    if b then 1 else 0
  }

  /** What one entry adds to the six totals. */
  function One(e: Entry): Summary {
    Summary(if e.ref.size > 0 then e.ref.size else 0, If(e.refType == LocalReference), If(e.refType == PinnedInMemory),
            If(e.refType == UsedByPendingTask), If(e.refType == CapturedInObject), If(e.refType == ActorHandle))
  }

  function SummaryOf(entries: seq<Entry>): Summary {
    if entries == [] then ZERO else Add(One(entries[0]), SummaryOf(entries[1..]))
  }

  lemma AddLaws(a: Summary, b: Summary, c: Summary)
    ensures Add(a, Add(b, c)) == Add(Add(a, b), c) && Add(a, b) == Add(b, a) && Add(ZERO, a) == a
  {
  }

  lemma SummaryOne(e: Entry)
    ensures SummaryOf([e]) == One(e)
  {
    AddLaws(One(e), ZERO, ZERO);
    assert [e][1..] == [];
  }

  lemma SummarySnoc(entries: seq<Entry>, i: nat)
    requires i < |entries|
    ensures SummaryOf(entries[..i + 1]) == Add(SummaryOf(entries[..i]), One(entries[i]))
  {
    hide One, Add;
    SummaryAppend(entries[..i], [entries[i]]);
    assert entries[..i + 1] == entries[..i] + [entries[i]];
    SummaryOne(entries[i]);
  }

  lemma AddOne(e: Entry, s: Summary)
    ensures Add(s, One(e))
         == Summary(s.size + if e.ref.size > 0 then e.ref.size else 0,
                    if e.refType == LocalReference then s.local + 1 else s.local,
                    if e.refType == PinnedInMemory then s.pinned + 1 else s.pinned,
                    if e.refType == UsedByPendingTask then s.pending + 1 else s.pending,
                    if e.refType == CapturedInObject then s.captured + 1 else s.captured,
                    if e.refType == ActorHandle then s.actors + 1 else s.actors)
  {
  }

  method Summarize(entries: seq<Entry>) returns (s: Summary)
    ensures s == SummaryOf(entries)
  {
    var size, local, pinned, pending, captured, actors := 0, 0, 0, 0, 0, 0;
    assert SummaryOf(entries[..0]) == ZERO;
    hide SummaryOf, Add, One;
    for i := 0 to |entries|
      invariant SummaryOf(entries[..i]) == Summary(size, local, pinned, pending, captured, actors)
    {
      var e := entries[i];
      SummarySnoc(entries, i);
      AddOne(e, SummaryOf(entries[..i]));
      if e.ref.size > 0 {
        size := size + e.ref.size;
      }
      match e.refType
      case LocalReference => local := local + 1;
      case PinnedInMemory => pinned := pinned + 1;
      case UsedByPendingTask => pending := pending + 1;
      case CapturedInObject => captured := captured + 1;
      case ActorHandle => actors := actors + 1;
      case Unknown =>
    }
    assert entries[..|entries|] == entries;
    s := Summary(size, local, pinned, pending, captured, actors);
  }

  lemma {:induction false} SummaryBag(s: seq<Entry>, t: seq<Entry>)
    requires multiset(s) == multiset(t)
    ensures SummaryOf(s) == SummaryOf(t)
  {
    SameBagSameElements(s, t);
    if s != [] {
      var a, b := SplitBag(s, t);
      SummaryBag(s[1..], a + b);
      SummaryAppend(a, b);
      SummaryAppend(a, [s[0]] + b);
      assert ([s[0]] + b)[1..] == b;
      hide Add;
      AddLaws(SummaryOf(a), One(s[0]), SummaryOf(b));
      AddLaws(One(s[0]), SummaryOf(a), SummaryOf(b));
    }
  }

  lemma {:induction false} SummaryAppend(a: seq<Entry>, b: seq<Entry>)
    ensures SummaryOf(a + b) == Add(SummaryOf(a), SummaryOf(b))
  {
    hide Add, One;
    if a == [] {
      assert a + b == b;
      AddLaws(SummaryOf(b), ZERO, ZERO);
    } else {
      assert (a + b)[1..] == a[1..] + b;
      SummaryAppend(a[1..], b);
      AddLaws(One(a[0]), SummaryOf(a[1..]), SummaryOf(b));
    }
  }

  // Sorting and grouping.

  datatype SortingType = Pid | ObjectSize | ByType

  datatype GroupByType = NodeAddress | StackTrace

  function SortKey(order: SortingType, e: Entry): int {
    match order
    case Pid => e.pid
    case ObjectSize => e.ref.size
    case ByType => Rank(e.refType)
  }

  function EntryLe(order: SortingType): (Entry, Entry) -> bool {
    (a: Entry, b: Entry) => SortKey(order, a) <= SortKey(order, b)
  }

  function GroupKey(grouping: GroupByType, e: Entry): Name {
    match grouping
    case NodeAddress => e.address
    case StackTrace => e.callSite
  }

  function InGroup(grouping: GroupByType, key: Name): Entry -> bool {
    (e: Entry) => GroupKey(grouping, e) == key
  }

  datatype Group = Group(entries: seq<Entry>, summary: Summary)

  /** The keys in the order in which they first occur. */
  function Keys(grouping: GroupByType, entries: seq<Entry>): seq<Name> {
    if entries == [] then []
    else
      var keys := Keys(grouping, entries[..|entries| - 1]);
      var key := GroupKey(grouping, entries[|entries| - 1]);
      if key in keys then keys else keys + [key]
  }

  lemma {:induction false} KeysCover(grouping: GroupByType, entries: seq<Entry>)
    ensures Distinct(Keys(grouping, entries))
    ensures forall e :: e in entries ==> GroupKey(grouping, e) in Keys(grouping, entries)
    ensures forall k :: k in Keys(grouping, entries) ==> Occurs(grouping, k, entries)
  {
    hide GroupKey, Distinct, Occurs;
    if entries == [] {
      NoKeys();
    } else {
      var n := |entries| - 1;
      KeysCover(grouping, entries[..n]);
      var last := entries[n];
      assert forall e :: e in entries <==> e in entries[..n] || e == last by {
        assert entries == entries[..n] + [last];
      }
      KeysStep(Keys(grouping, entries[..n]), GroupKey(grouping, last));
      forall k | k in Keys(grouping, entries)
        ensures Occurs(grouping, k, entries)
      {
        OccursSnoc(grouping, k, entries, n);
      }
    }
  }

  /** Some entry has the first key, and neither it nor any entry before has the second. */
  ghost predicate SeenBefore(grouping: GroupByType, entries: seq<Entry>, first: Name, second: Name, p: int) {
    && 0 <= p < |entries| && GroupKey(grouping, entries[p]) == first
    && forall q :: 0 <= q <= p ==> GroupKey(grouping, entries[q]) != second
  }

  /** The keys come in the order in which they first occur in the table. */
  lemma {:induction false} KeysOrder(grouping: GroupByType, entries: seq<Entry>, i: nat, j: nat)
    requires i < j < |Keys(grouping, entries)|
    ensures exists p :: SeenBefore(grouping, entries, Keys(grouping, entries)[i], Keys(grouping, entries)[j], p)
  {
    hide GroupKey;
    var n := |entries| - 1;
    var front, keys := entries[..n], Keys(grouping, entries[..n]);
    if j < |keys| {
      KeysOrder(grouping, front, i, j);
      var p :| SeenBefore(grouping, front, keys[i], keys[j], p);
      assert Keys(grouping, entries)[i] == keys[i] && Keys(grouping, entries)[j] == keys[j];
      assert forall q :: 0 <= q <= p ==> entries[q] == front[q];
      assert SeenBefore(grouping, entries, keys[i], keys[j], p);
    } else {
      KeysCover(grouping, front);
      var last := GroupKey(grouping, entries[n]);
      assert Keys(grouping, entries) == keys + [last];
      assert Keys(grouping, entries)[i] == keys[i] && Keys(grouping, entries)[j] == last;
      assert Occurs(grouping, keys[i], front);
      var e :| e in front && GroupKey(grouping, e) == keys[i];
      var p :| 0 <= p < |front| && front[p] == e;
      assert SeenBefore(grouping, entries, keys[i], last, p) by {
        assert forall q :: 0 <= q <= p ==> entries[q] == front[q] && front[q] in front;
      }
    }
  }

  /** Some entry has this key. */
  ghost predicate Occurs(grouping: GroupByType, key: Name, entries: seq<Entry>) {
    exists e :: e in entries && GroupKey(grouping, e) == key
  }

  lemma NoKeys()
    ensures Distinct<Name>([])
  {
  }

  lemma OccursSnoc(grouping: GroupByType, key: Name, entries: seq<Entry>, n: nat)
    requires n < |entries| && (Occurs(grouping, key, entries[..n]) || GroupKey(grouping, entries[n]) == key)
    ensures Occurs(grouping, key, entries)
  {
    assert entries[n] in entries;
  }

  lemma KeysStep(keys: seq<Name>, key: Name)
    requires Distinct(keys)
    ensures var keys' := if key in keys then keys else keys + [key];
      Distinct(keys') && forall k :: k in keys' <==> k in keys || k == key
  {
  }

  /** The sum of the group summaries. */
  function SumGroups(grouping: GroupByType, keys: seq<Name>, entries: seq<Entry>): Summary {
    if keys == [] then ZERO
    else Add(SummaryOf(Filter(InGroup(grouping, keys[0]), entries)), SumGroups(grouping, keys[1..], entries))
  }

  /** Adding an entry adds it to exactly one of distinct groups. */
  lemma {:induction false} SumGroupsCons(grouping: GroupByType, keys: seq<Name>, e: Entry, rest: seq<Entry>)
    requires Distinct(keys)
    ensures SumGroups(grouping, keys, [e] + rest)
         == if GroupKey(grouping, e) in keys then Add(One(e), SumGroups(grouping, keys, rest)) else SumGroups(grouping, keys, rest)
  {
    hide Add, One, SummaryOf;
    if keys != [] {
      SumGroupsCons(grouping, keys[1..], e, rest);
      var p := InGroup(grouping, keys[0]);
      var here, others := SummaryOf(Filter(p, rest)), SumGroups(grouping, keys[1..], rest);
      FilterCons(p, e, rest);
      SummaryCons(e, Filter(p, rest));
      AddLaws(One(e), here, others);
      AddLaws(here, One(e), others);
      assert forall k :: k in keys <==> k == keys[0] || k in keys[1..];
    }
  }

  lemma SummaryCons(e: Entry, rest: seq<Entry>)
    ensures SummaryOf([e] + rest) == Add(One(e), SummaryOf(rest))
  {
    assert ([e] + rest)[1..] == rest;
  }

  /** Each of the six group totals adds up to the table total. */
  lemma {:induction false} GroupsConserve(grouping: GroupByType, keys: seq<Name>, entries: seq<Entry>)
    requires Distinct(keys) && forall e :: e in entries ==> GroupKey(grouping, e) in keys
    ensures SumGroups(grouping, keys, entries) == SummaryOf(entries)
  {
    hide Add, One;
    if entries == [] {
      NoEntries(grouping, keys);
    } else {
      GroupsConserve(grouping, keys, entries[1..]);
      SumGroupsCons(grouping, keys, entries[0], entries[1..]);
      assert entries == [entries[0]] + entries[1..];
    }
  }

  lemma {:induction false} NoEntries(grouping: GroupByType, keys: seq<Name>)
    ensures SumGroups(grouping, keys, []) == ZERO
  {
    if keys != [] {
      NoEntries(grouping, keys[1..]);
      AddLaws(ZERO, ZERO, ZERO);
    }
  }

  /** The sum of the summaries that a table keeps for its groups. */
  function SumSummaries(keys: seq<Name>, group: map<Name, Group>): Summary
    requires forall k :: k in keys ==> k in group
  {
    if keys == [] then ZERO else Add(group[keys[0]].summary, SumSummaries(keys[1..], group))
  }

  lemma {:induction false} SumSummariesMatch(grouping: GroupByType, keys: seq<Name>, group: map<Name, Group>, entries: seq<Entry>)
    requires forall k :: k in keys ==> k in group && group[k].summary == SummaryOf(Filter(InGroup(grouping, k), entries))
    ensures SumSummaries(keys, group) == SumGroups(grouping, keys, entries)
  {
    if keys != [] {
      SumSummariesMatch(grouping, keys[1..], group, entries);
    }
  }

  lemma EntryLeTotalPreorder(order: SortingType)
    ensures TotalPreorder(EntryLe(order))
  {
  }

  /** The entries listed under a key so far. */
  function Listed(lists: map<Name, seq<Entry>>, key: Name): seq<Entry> {
    if key in lists then lists[key] else []
  }

  /** The groups are the entries with each key, in table order, with their totals. */
  ghost predicate IsGrouping(grouping: GroupByType, table: seq<Entry>, keys: seq<Name>, group: map<Name, Group>) {
    && keys == Keys(grouping, table)
    && (forall k :: k in group <==> k in keys)
    && (forall k :: k in group ==>
          group[k].entries == Filter(InGroup(grouping, k), table) && group[k].summary == SummaryOf(group[k].entries))
  }

  /** Grouping the stably sorted entries gives, for each key, the stably sorted entries with that key,
      and the group totals add up to the totals of all entries. */
  lemma GroupingSorted(grouping: GroupByType, order: SortingType, entries: seq<Entry>,
                                          keys: seq<Name>, group: map<Name, Group>)
    requires IsGrouping(grouping, Sort(entries, EntryLe(order)), keys, group)
    ensures forall k :: k in group ==> group[k].entries == Sort(Filter(InGroup(grouping, k), entries), EntryLe(order))
    ensures SumSummaries(keys, group) == SummaryOf(entries)
    ensures forall e :: e in entries ==> GroupKey(grouping, e) in group
    ensures forall k :: k in group ==> group[k].entries != []
  {
    hide Sort, SummaryOf, EntryLe;
    var table := Sort(entries, EntryLe(order));
    EntryLeTotalPreorder(order);
    SortBag(entries, EntryLe(order));
    SameBagSameElements(table, entries);
    KeysCover(grouping, table);
    forall k | k in group
      ensures group[k].entries == Sort(Filter(InGroup(grouping, k), entries), EntryLe(order))
      ensures group[k].entries != []
    {
      FilterSort(InGroup(grouping, k), entries, EntryLe(order));
      FilterMembers(InGroup(grouping, k), table);
      assert Occurs(grouping, k, table);
      var e :| e in table && GroupKey(grouping, e) == k;
      assert e in group[k].entries;
    }
    SumSummariesMatch(grouping, keys, group, table);
    GroupsConserve(grouping, keys, table);
    SummaryBag(table, entries);
  }

  /** The first loop of grouping: lists the entries under their keys. */
  method ListByKey(grouping: GroupByType, table: seq<Entry>) returns (names: seq<Name>, lists: map<Name, seq<Entry>>)
    ensures names == Keys(grouping, table) && forall k :: k in lists <==> k in names
    ensures forall k :: Listed(lists, k) == Filter(InGroup(grouping, k), table)
  {
    hide Filter;
    names, lists := [], map[];
    NothingListed(grouping, table);
    for i := 0 to |table|
      invariant names == Keys(grouping, table[..i])
      invariant forall k :: k in lists <==> k in names
      invariant forall k :: Listed(lists, k) == Filter(InGroup(grouping, k), table[..i])
    {
      var key := GroupKey(grouping, table[i]);
      ListOne(grouping, lists, table, i);
      lists := lists[key := Listed(lists, key) + [table[i]]];
      assert table[..i + 1][..i] == table[..i];
      if key !in names {
        names := names + [key];
      }
    }
    assert table[..|table|] == table;
  }

  lemma NothingListed(grouping: GroupByType, table: seq<Entry>)
    ensures forall k :: Listed(map[], k) == Filter(InGroup(grouping, k), table[..0])
  {
  }

  /** The second loop: summarizes every group. */
  method BuildGroups(names: seq<Name>, lists: map<Name, seq<Entry>>) returns (groups: map<Name, Group>)
    requires forall k :: k in names ==> k in lists
    ensures forall k :: k in groups <==> k in names
    ensures forall k :: k in groups ==> groups[k] == Group(lists[k], SummaryOf(lists[k]))
  {
    hide SummaryOf;
    groups := map[];
    for j := 0 to |names|
      invariant forall k :: k in groups <==> k in names[..j]
      invariant forall k :: k in groups ==> groups[k] == Group(lists[k], SummaryOf(lists[k]))
    {
      assert names[..j + 1] == names[..j] + [names[j]];
      var s := Summarize(lists[names[j]]);
      groups := groups[names[j] := Group(lists[names[j]], s)];
    }
    assert names[..|names|] == names;
  }

  lemma ListsAreGroups(grouping: GroupByType, table: seq<Entry>, names: seq<Name>,
                                          lists: map<Name, seq<Entry>>, group: map<Name, Group>)
    requires names == Keys(grouping, table) && forall k :: k in lists <==> k in names
    requires forall k :: Listed(lists, k) == Filter(InGroup(grouping, k), table)
    requires forall k :: k in group <==> k in names
    requires forall k :: k in group ==> group[k] == Group(lists[k], SummaryOf(lists[k]))
    ensures IsGrouping(grouping, table, names, group)
  {
    hide Keys, SummaryOf, Filter;
    forall k | k in group
      ensures group[k].entries == Filter(InGroup(grouping, k), table) && group[k].summary == SummaryOf(group[k].entries)
    {
      assert Listed(lists, k) == lists[k];
    }
  }

  /** By process id, by size or by the name of the type, ascending. */
  ghost predicate Ordered(order: SortingType, a: Entry, b: Entry) {
    && (order == Pid ==> a.pid <= b.pid)
    && (order == ObjectSize ==> a.ref.size <= b.ref.size)
    && (order == ByType ==> StringLe(TypeName(a.refType), TypeName(b.refType)))
  }

  lemma OrderedExact(order: SortingType, a: Entry, b: Entry)
    ensures EntryLe(order)(a, b) <==> Ordered(order, a, b)
  {
    hide TypeName, Rank;
    RankIsNameOrder(a.refType, b.refType);
  }

  lemma SortedOrdered(order: SortingType, table: seq<Entry>)
    requires Sorted(table, EntryLe(order))
    ensures forall i, j :: 0 <= i < j < |table| ==> Ordered(order, table[i], table[j])
  {
    hide Ordered, EntryLe;
    forall i, j | 0 <= i < j < |table|
      ensures Ordered(order, table[i], table[j])
    {
      OrderedExact(order, table[i], table[j]);
    }
  }

  lemma GroupMembers(grouping: GroupByType, table: seq<Entry>, keys: seq<Name>, group: map<Name, Group>)
    requires IsGrouping(grouping, table, keys, group)
    ensures forall k, e :: k in group && e in group[k].entries ==> k == if grouping == NodeAddress then e.address else e.callSite
  {
    hide Keys, SummaryOf, Filter;
    forall k, e | k in group && e in group[k].entries
      ensures k == if grouping == NodeAddress then e.address else e.callSite
    {
      FilterMembers(InGroup(grouping, k), table);
    }
  }

  class Table {
    var table: seq<Entry>
    var keys: seq<Name>
    var group: map<Name, Group>
    var summary: Summary

    constructor (entries: seq<Entry>)
      ensures table == entries && keys == [] && group == map[] && summary == ZERO
    {
      table, keys, group, summary := entries, [], map[], ZERO;
    }

    /** Sorts the table by the chosen key. Entries with the same key keep their order. */
    method SortBy(order: SortingType)
      modifies this`table
      ensures Sorted(table, EntryLe(order)) && SameClasses(table, old(table), EntryLe(order))
      ensures forall i, j :: 0 <= i < j < |table| ==> Ordered(order, table[i], table[j])
    {
      hide Sort, EntryLe;
      EntryLeTotalPreorder(order);
      SortSorted(table, EntryLe(order));
      forall e: Entry
        ensures Filter(Equivalent(e, EntryLe(order)), Sort(table, EntryLe(order))) == Filter(Equivalent(e, EntryLe(order)), table)
      {
        SortStable(table, EntryLe(order), e);
      }
      table := Sort(table, EntryLe(order));
      SortedOrdered(order, table);
    }

    /** Lists the entries under their keys, then builds and summarizes the groups. */
    method GroupBy(grouping: GroupByType)
      modifies this`keys, this`group
      ensures IsGrouping(grouping, table, keys, group)
      ensures forall k, e :: k in group && e in group[k].entries ==> k == if grouping == NodeAddress then e.address else e.callSite
    {
      var names, lists := ListByKey(grouping, table);
      hide Keys, SummaryOf, Filter, IsGrouping;
      group := BuildGroups(names, lists);
      keys := names;
      ListsAreGroups(grouping, table, names, lists, group);
      GroupMembers(grouping, table, keys, group);
    }

    /** Sorts first and groups after, then summarizes the table. */
    method Setup(grouping: GroupByType, order: SortingType)
      modifies this
      ensures table == Sort(old(table), EntryLe(order))
      ensures IsGrouping(grouping, table, keys, group)
      ensures summary == SummaryOf(old(table)) == SumSummaries(keys, group)
      ensures forall k :: k in group ==> group[k].entries == Sort(Filter(InGroup(grouping, k), old(table)), EntryLe(order))
    {
      hide SummaryOf, Sort, IsGrouping, EntryLe;
      SortBy(order);
      EntryLeTotalPreorder(order);
      StableSortUnique(old(table), table, EntryLe(order));
      GroupBy(grouping);
      summary := Summarize(table);
      SortBag(old(table), EntryLe(order));
      SummaryBag(table, old(table));
      GroupingSorted(grouping, order, old(table), keys, group);
    }
  }

  lemma ListOne(grouping: GroupByType, lists: map<Name, seq<Entry>>, table: seq<Entry>, i: nat)
    requires i < |table| && forall k :: Listed(lists, k) == Filter(InGroup(grouping, k), table[..i])
    ensures var key := GroupKey(grouping, table[i]);
      var lists' := lists[key := Listed(lists, key) + [table[i]]];
      forall k :: Listed(lists', k) == Filter(InGroup(grouping, k), table[..i + 1])
  {
    var key := GroupKey(grouping, table[i]);
    var lists' := lists[key := Listed(lists, key) + [table[i]]];
    assert table[..i + 1] == table[..i] + [table[i]];
    forall k
      ensures Listed(lists', k) == Filter(InGroup(grouping, k), table[..i + 1])
    {
      FilterSnoc(InGroup(grouping, k), table[..i], table[i]);
      assert Listed(lists', k) == if k == key then Listed(lists, k) + [table[i]] else Listed(lists, k);
    }
  }

  // Memory use by reference type.

  datatype Sizes = Sizes(local: int, pinned: int, pending: int, captured: int, actors: int) {
    function Total(): int {
      local + pinned + pending + captured + actors
    }
  }

  function Recorded(e: Entry): int {
    if e.ref.size == -1 then 0 else e.ref.size
  }

  function AddSize(d: Sizes, t: ReferenceType, size: int): Sizes
    requires t != Unknown
  {
    match t
    case LocalReference => d.(local := d.local + size)
    case PinnedInMemory => d.(pinned := d.pinned + size)
    case UsedByPendingTask => d.(pending := d.pending + size)
    case CapturedInObject => d.(captured := d.captured + size)
    case ActorHandle => d.(actors := d.actors + size)
  }

  /** The recorded sizes of the entries of one type. */
  function SizeOfType(t: ReferenceType, entries: seq<Entry>): int {
    if entries == [] then 0
    else SizeOfType(t, entries[..|entries| - 1])
         + if entries[|entries| - 1].refType == t then Recorded(entries[|entries| - 1]) else 0
  }

  function SizesOf(entries: seq<Entry>): Sizes {
    Sizes(SizeOfType(LocalReference, entries), SizeOfType(PinnedInMemory, entries), SizeOfType(UsedByPendingTask, entries),
          SizeOfType(CapturedInObject, entries), SizeOfType(ActorHandle, entries))
  }

  /** Adds up sizes by type. An entry without a type has no column, which is an error. */
  method TrackReferenceSize(entries: seq<Entry>) returns (r: Option<Sizes>)
    ensures r.None? <==> exists e :: e in entries && e.refType == Unknown
    ensures r.Some? ==> r.value == SizesOf(entries)
  {
    var d := Sizes(0, 0, 0, 0, 0);
    for i := 0 to |entries|
      invariant forall e :: e in entries[..i] ==> e.refType != Unknown
      invariant d == SizesOf(entries[..i])
    {
      var e := entries[i];
      if e.refType == Unknown {
        assert e in entries;
        return None;
      }
      assert entries[..i + 1] == entries[..i] + [e];
      SizesSnoc(entries[..i], e);
      d := AddSize(d, e.refType, Recorded(e));
    }
    assert entries[..|entries|] == entries;
    return Some(d);
  }

  /** The entries that construct_memory_table keeps have a type, if counts are not negative. */
  lemma ConstructedTyped(workers: seq<Worker>)
    requires forall w, r :: w in workers && r in w.refs ==> r.local >= 0 && r.submitted >= 0
    ensures Typed(Collect(EntriesOf, workers))
  {
    hide Collect, Classify, IsValid;
    CollectMembers(EntriesOf, workers);
    forall e | e in Collect(EntriesOf, workers)
      ensures e.refType != Unknown
    {
      var w :| w in workers && e in EntriesOf(w);
      CollectMembers(ValidEntry(w), w.refs);
      var r :| r in w.refs && e in ValidEntry(w)(r);
      ValidIsTyped(r);
    }
  }

  /** The size of an entry goes to its own type, and an unrecorded size counts as nothing. */
  lemma SizesOne(e: Entry)
    ensures var d, size := SizesOf([e]), if e.ref.size == -1 then 0 else e.ref.size;
      && d.local == (if e.refType == LocalReference then size else 0)
      && d.pinned == (if e.refType == PinnedInMemory then size else 0)
      && d.pending == (if e.refType == UsedByPendingTask then size else 0)
      && d.captured == (if e.refType == CapturedInObject then size else 0)
      && d.actors == (if e.refType == ActorHandle then size else 0)
  {
    OneSize(LocalReference, e);
    OneSize(PinnedInMemory, e);
    OneSize(UsedByPendingTask, e);
    OneSize(CapturedInObject, e);
    OneSize(ActorHandle, e);
    hide SizeOfType;
  }

  lemma OneSize(t: ReferenceType, e: Entry)
    ensures SizeOfType(t, [e]) == if e.refType == t then Recorded(e) else 0
  {
    assert [e][..0] == [];
    assert SizeOfType(t, [e]) == SizeOfType(t, [e][..0]) + if e.refType == t then Recorded(e) else 0;
  }

  lemma SizesSnoc(front: seq<Entry>, last: Entry)
    requires last.refType != Unknown
    ensures SizesOf(front + [last]) == AddSize(SizesOf(front), last.refType, Recorded(last))
    ensures SizesOf(front + [last]).Total() == SizesOf(front).Total() + Recorded(last)
  {
    assert (front + [last])[..|front|] == front;
  }

  function Count(s: Summary): int {
    s.local + s.pinned + s.pending + s.captured + s.actors
  }

  lemma ZeroCounts()
    ensures Count(ZERO) == 0 && ZERO.size == 0
  {
  }

  lemma OneCounts(e: Entry, s: Summary)
    requires e.refType != Unknown
    ensures Count(Add(s, One(e))) == Count(s) + 1
    ensures Add(s, One(e)).size == s.size + if e.ref.size > 0 then e.ref.size else 0
  {
  }

  /** No size is below -1. */
  ghost predicate SizesRecorded(entries: seq<Entry>) {
    forall e :: e in entries ==> e.ref.size >= -1
  }

  ghost predicate Typed(entries: seq<Entry>) {
    forall e :: e in entries ==> e.refType != Unknown
  }

  lemma EntriesSnoc(front: seq<Entry>, last: Entry)
    ensures SizesRecorded(front + [last]) <==> SizesRecorded(front) && last.ref.size >= -1
    ensures Typed(front + [last]) <==> Typed(front) && last.refType != Unknown
  {
    assert forall e :: e in front + [last] <==> e in front || e == last;
  }

  /** With a type for every entry, the five type counts add up to the number of entries, and the sizes
      by type add up to the total object size exactly when no size is below -1. */
  lemma {:induction false} TypesConserve(entries: seq<Entry>)
    requires Typed(entries)
    ensures Count(SummaryOf(entries)) == |entries|
    ensures SizesOf(entries).Total() <= SummaryOf(entries).size
    ensures SizesOf(entries).Total() == SummaryOf(entries).size <==> SizesRecorded(entries)
  {
    hide *;
    if entries == [] {
      EmptyTotals(entries);
      ZeroCounts();
    } else {
      var n := |entries| - 1;
      assert entries == entries[..n] + [entries[n]];
      EntriesSnoc(entries[..n], entries[n]);
      TypesConserve(entries[..n]);
      ConserveOne(entries[..n], entries[n]);
    }
  }

  /** One local reference of size -2: its size by type is negative, and the total leaves it out. */
  lemma NegativeSizeLost(e: Entry)
    requires e.refType == LocalReference && e.ref.size == -2
    ensures SizesOf([e]).Total() == -2 && SummaryOf([e]).size == 0
  {
    hide *;
    assert [] + [e] == [e];
    SummaryOne(e);
    SizesSnoc([], e);
    EmptyTotals([]);
    NegativeOne(e);
  }

  lemma NegativeOne(e: Entry)
    requires e.ref.size == -2
    ensures Recorded(e) == -2 && One(e).size == 0
  {
  }

  lemma ConserveOne(front: seq<Entry>, last: Entry)
    requires last.refType != Unknown && Count(SummaryOf(front)) == |front|
    requires SizesOf(front).Total() <= SummaryOf(front).size
    requires SizesOf(front).Total() == SummaryOf(front).size <==> SizesRecorded(front)
    ensures Count(SummaryOf(front + [last])) == |front| + 1
    ensures SizesOf(front + [last]).Total() <= SummaryOf(front + [last]).size
    ensures SizesOf(front + [last]).Total() == SummaryOf(front + [last]).size <==> SizesRecorded(front + [last])
  {
    hide SizesOf, SummaryOf, Add, One, Count, AddSize, SizesRecorded, Typed;
    EntriesSnoc(front, last);
    SummaryAppend(front, [last]);
    SummaryOne(last);
    OneCounts(last, SummaryOf(front));
    SizesSnoc(front, last);
  }

  lemma EmptyTotals(entries: seq<Entry>)
    requires entries == []
    ensures SummaryOf(entries) == ZERO && SizesOf(entries).Total() == 0 && SizesRecorded(entries)
  {
    hide SizesRecorded;
    assert SizesRecorded(entries) by { NoneUnrecorded(entries); }
  }

  lemma NoneUnrecorded(entries: seq<Entry>)
    requires |entries| == 0
    ensures SizesRecorded(entries)
  {
  }

  /** No count is negative and no size is below -1. */
  ghost predicate WellReported(workers: seq<Worker>) {
    forall w, r :: w in workers && r in w.refs ==> r.local >= 0 && r.submitted >= 0 && r.size >= -1
  }

  /** Tracking the sizes of a group succeeds, and they add up to the group's total object size. */
  ghost predicate Tracked(g: Group) {
    Typed(g.entries) && SizesOf(g.entries).Total() == g.summary.size && Count(g.summary) == |g.entries|
  }

  lemma ReportedSizes(workers: seq<Worker>)
    requires WellReported(workers)
    ensures SizesRecorded(Collect(EntriesOf, workers))
  {
    hide Collect, Classify, IsValid;
    CollectMembers(EntriesOf, workers);
    forall e | e in Collect(EntriesOf, workers)
      ensures e.ref.size >= -1
    {
      var w :| w in workers && e in EntriesOf(w);
      CollectMembers(ValidEntry(w), w.refs);
      var r :| r in w.refs && e in ValidEntry(w)(r);
    }
  }

  lemma GroupsTracked(workers: seq<Worker>, grouping: GroupByType, table: seq<Entry>, order: SortingType,
                                         keys: seq<Name>, group: map<Name, Group>)
    requires WellReported(workers) && table == Sort(Collect(EntriesOf, workers), EntryLe(order))
    requires IsGrouping(grouping, table, keys, group)
    ensures forall k :: k in group ==> Tracked(group[k])
  {
    hide Sort, Filter, SummaryOf, SizesOf, Count, Classify, Collect;
    var entries := Collect(EntriesOf, workers);
    ConstructedTyped(workers);
    ReportedSizes(workers);
    SortBag(entries, EntryLe(order));
    SameBagSameElements(table, entries);
    forall k | k in group
      ensures Tracked(group[k])
    {
      FilterMembers(InGroup(grouping, k), table);
      TypesConserve(group[k].entries);
    }
  }

  /** The loops over workers and their references. */
  method CollectEntries(workers: seq<Worker>) returns (entries: seq<Entry>)
    ensures entries == Collect(EntriesOf, workers)
  {
    hide IsValid, MakeEntry, Collect;
    CollectNone(EntriesOf, workers);
    entries := [];
    for i := 0 to |workers|
      invariant entries == Collect(EntriesOf, workers[..i])
    {
      ghost var before := entries;
      var w := workers[i];
      CollectNone(ValidEntry(w), w.refs);
      for j := 0 to |w.refs|
        invariant entries == before + Collect(ValidEntry(w), w.refs[..j])
      {
        CollectSnoc(ValidEntry(w), w.refs, j);
        if IsValid(w.refs[j]) {
          entries := entries + [MakeEntry(w, w.refs[j])];
        }
      }
      assert w.refs[..|w.refs|] == w.refs;
      CollectSnoc(EntriesOf, workers, i);
    }
    assert workers[..|workers|] == workers;
  }

  /** Builds the table of all valid references of all workers. */
  method ConstructMemoryTable(workers: seq<Worker>, grouping: GroupByType, order: SortingType) returns (t: Table)
    ensures fresh(t)
    ensures t.table == Sort(Collect(EntriesOf, workers), EntryLe(order))
    ensures IsGrouping(grouping, t.table, t.keys, t.group)
    ensures t.summary == SummaryOf(Collect(EntriesOf, workers)) == SumSummaries(t.keys, t.group)
    ensures forall k :: k in t.group ==>
      t.group[k].entries == Sort(Filter(InGroup(grouping, k), Collect(EntriesOf, workers)), EntryLe(order))
    ensures WellReported(workers) ==> forall k :: k in t.group ==> Tracked(t.group[k])
  {
    hide Sort, SummaryOf, IsGrouping, EntryLe, InGroup, Filter, WellReported, Tracked;
    var entries := CollectEntries(workers);
    t := new Table(entries);
    t.Setup(grouping, order);
    if WellReported(workers) {
      GroupsTracked(workers, grouping, t.table, order, t.keys, t.group);
    }
  }
}

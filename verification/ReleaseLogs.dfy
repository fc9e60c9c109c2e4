/** Fetching release test results from builds: release/release_logs/fetch_release_logs.py. */
module ReleaseLogs {
  import opened Options
  import opened Sequences
  import opened Sorting

  /** A job name pattern and the file its results go to. */
  datatype Want = Want(pattern: string, file: string)

  datatype Job = Job(id: string, name: Option<string>)

  datatype Build = Build(number: int, jobs: seq<Job>)

  /** Results of a job, which are not empty. */
  datatype Results = Results(text: string)

  /** The pattern matcher, and the results artifact of a job: none if it is missing or empty. */
  datatype Service = Service(matches: (string, string) -> bool, artifact: Job -> Option<Results>)

  // What should be fetched.

  /** The results that a job has for a wanted file. A job without a name has none. */
  function Hit(s: Service, w: Want, job: Job): Option<Results> {
    if job.name.Some? && job.name.value != "" && s.matches(w.pattern, job.name.value) then s.artifact(job) else None
  }

  /** The results of the first job that has any. */
  function FirstHit(s: Service, w: Want, jobs: seq<Job>): Option<Results> {
    if jobs == [] then None
    else
      var before := FirstHit(s, w, jobs[..|jobs| - 1]);
      if before.Some? then before else Hit(s, w, jobs[|jobs| - 1])
  }

  lemma {:induction false} FirstHitAppend(s: Service, w: Want, a: seq<Job>, b: seq<Job>)
    ensures FirstHit(s, w, a + b) == if FirstHit(s, w, a).Some? then FirstHit(s, w, a) else FirstHit(s, w, b)
  {
    if b == [] {
      assert a + b == a;
    } else {
      var n := |b| - 1;
      assert (a + b)[..|a + b| - 1] == a + b[..n];
      FirstHitAppend(s, w, a, b[..n]);
    }
  }

  ghost predicate IsFirstHit(s: Service, w: Want, jobs: seq<Job>, i: int) {
    0 <= i < |jobs| && Hit(s, w, jobs[i]).Some? && forall j :: 0 <= j < i ==> Hit(s, w, jobs[j]).None?
  }

  /** FirstHit is the hit of a job before which no job has one. */
  lemma {:induction false} FirstHitIsFirst(s: Service, w: Want, jobs: seq<Job>)
    ensures FirstHit(s, w, jobs).None? <==> forall i :: 0 <= i < |jobs| ==> Hit(s, w, jobs[i]).None?
    ensures FirstHit(s, w, jobs).Some? ==> exists i :: IsFirstHit(s, w, jobs, i) && Hit(s, w, jobs[i]) == FirstHit(s, w, jobs)
  {
    hide Hit;
    if jobs != [] {
      var n := |jobs| - 1;
      FirstHitIsFirst(s, w, jobs[..n]);
      if FirstHit(s, w, jobs[..n]).Some? {
        var i :| IsFirstHit(s, w, jobs[..n], i) && Hit(s, w, jobs[..n][i]) == FirstHit(s, w, jobs[..n]);
        assert forall j :: 0 <= j <= i ==> jobs[..n][j] == jobs[j];
        assert IsFirstHit(s, w, jobs, i);
      } else {
        assert forall j :: 0 <= j < n ==> jobs[..n][j] == jobs[j];
        assert Hit(s, w, jobs[n]).Some? ==> IsFirstHit(s, w, jobs, n);
      }
    }
  }

  /** Files tell wanted results apart. */
  ghost predicate DistinctFiles(wants: seq<Want>) {
    forall v, w :: v in wants && w in wants && v.file == w.file ==> v == w
  }

  /** The results that the script fetches. */
  const WANTED := [
    Want("^microbenchmark \\(.+\\)$", "microbenchmark.json"),
    Want("^many_actors \\(.+\\)$", "benchmarks/many_actors.json"),
    Want("^many_nodes \\(.+\\)$", "benchmarks/many_nodes.json"),
    Want("^many_pgs \\(.+\\)$", "benchmarks/many_pgs.json"),
    Want("^many_tasks \\(.+\\)$", "benchmarks/many_tasks.json"),
    Want("^object_store \\(.+\\)$", "scalability/object_store.json"),
    Want("^single_node \\(.+\\)$", "scalability/single_node.json"),
    Want("^stress_test_dead_actors \\(.+\\)$", "stress_tests/stress_test_dead_actors.json"),
    Want("^stress_test_many_tasks \\(.+\\)$", "stress_tests/stress_test_many_tasks.json"),
    Want("^stress_test_placement_group \\(.+\\)$", "stress_tests/stress_test_placement_group.json")]

  lemma DistinctByLength(wants: seq<Want>, lengths: seq<nat>)
    requires |wants| == |lengths| && forall i :: 0 <= i < |wants| ==> |wants[i].file| == lengths[i]
    requires forall i, j :: 0 <= i < j < |wants| && lengths[i] == lengths[j] ==> wants[i].file != wants[j].file
    ensures DistinctFiles(wants)
  {
    forall v, w | v in wants && w in wants && v.file == w.file
      ensures v == w
    {
      var i :| 0 <= i < |wants| && wants[i] == v;
      var j :| 0 <= j < |wants| && wants[j] == w;
      assert lengths[i] == lengths[j];
    }
  }

  /** File names of different lengths differ, and the only two of equal length differ in one place. */
  lemma WantedDistinct()
    ensures DistinctFiles(WANTED)
  {
    var lengths := [19, 27, 26, 24, 26, 29, 28, 41, 40, 45];
    assert WANTED[2].file[16] != WANTED[4].file[16];
    DistinctByLength(WANTED, lengths);
  }

  /** A wanted file is settled: its first result is in hand and it is off the list, or there is none so
      far and it is still on it. */
  ghost predicate Settled(s: Service, w: Want, jobs: seq<Job>, todo: seq<Want>, fetched: map<string, Results>) {
    match FirstHit(s, w, jobs)
    case None => w in todo && w.file !in fetched
    case Some(r) => w !in todo && w.file in fetched && fetched[w.file] == r
  }

  ghost predicate AllSettled(s: Service, wants: seq<Want>, jobs: seq<Job>, todo: seq<Want>, fetched: map<string, Results>) {
    && (forall w :: w in wants ==> Settled(s, w, jobs, todo, fetched))
    && (forall w :: w in todo ==> w in wants)
    && (forall f :: f in fetched ==> exists w :: w in wants && w.file == f)
  }

  /** The shared list of results still to fetch, which is shortened in place. */
  class Worklist {
    var items: seq<Want>

    constructor (wants: seq<Want>)
      ensures items == wants
    {
      items := wants;
    }
  }

  /** The inner loop: tries one job for everything still wanted. */
  method TryJob(s: Service, job: Job, work: Worklist, fetched0: map<string, Results>) returns (fetched: map<string, Results>)
    requires DistinctFiles(work.items) && forall w :: w in work.items ==> w.file !in fetched0
    modifies work
    ensures forall w :: w in work.items <==> w in old(work.items) && Hit(s, w, job).None?
    ensures forall f :: f in fetched <==> f in fetched0 || exists w :: w in old(work.items) && w.file == f && Hit(s, w, job).Some?
    ensures forall f :: f in fetched0 ==> fetched[f] == fetched0[f]
    ensures forall w :: w in old(work.items) && Hit(s, w, job).Some? ==> fetched[w.file] == Hit(s, w, job).value
  {
    fetched := fetched0;
    if job.name.None? || job.name.value == "" {
      return;
    }
    var snapshot := work.items;
    for i := 0 to |snapshot|
      invariant forall w :: w in work.items <==> w in snapshot && !(w in snapshot[..i] && Hit(s, w, job).Some?)
      invariant forall f :: f in fetched <==>
        f in fetched0 || exists w :: w in snapshot[..i] && w.file == f && Hit(s, w, job).Some?
      invariant forall f :: f in fetched0 ==> fetched[f] == fetched0[f]
      invariant forall w :: w in snapshot[..i] && Hit(s, w, job).Some? ==> fetched[w.file] == Hit(s, w, job).value
    {
      var want := snapshot[i];
      assert snapshot[..i + 1] == snapshot[..i] + [want];
      if s.matches(want.pattern, job.name.value) {
        var result := s.artifact(job);
        if result.Some? {
          fetched := fetched[want.file := result.value];
          WithoutMembers(work.items, want);
          work.items := Without(work.items, want);
        }
      }
    }
    assert snapshot[..|snapshot|] == snapshot;
  }

  lemma JobSettles(s: Service, wants: seq<Want>, jobs: seq<Job>, job: Job, todo: seq<Want>,
                                      fetched: map<string, Results>, todo': seq<Want>, fetched': map<string, Results>)
    requires DistinctFiles(wants) && AllSettled(s, wants, jobs, todo, fetched)
    requires forall w :: w in todo' <==> w in todo && Hit(s, w, job).None?
    requires forall f :: f in fetched' <==> f in fetched || exists w :: w in todo && w.file == f && Hit(s, w, job).Some?
    requires forall f :: f in fetched ==> fetched'[f] == fetched[f]
    requires forall w :: w in todo && Hit(s, w, job).Some? ==> fetched'[w.file] == Hit(s, w, job).value
    ensures AllSettled(s, wants, jobs + [job], todo', fetched')
  {
    forall w | w in wants
      ensures Settled(s, w, jobs + [job], todo', fetched')
    {
      assert Settled(s, w, jobs, todo, fetched);
      assert (jobs + [job])[..|jobs|] == jobs;
    }
  }

  /** Fetches what one build has of the wanted results. */
  method FromBuild(s: Service, build: Build, work: Worklist) returns (fetched: map<string, Results>)
    requires DistinctFiles(work.items)
    modifies work
    ensures AllSettled(s, old(work.items), build.jobs, work.items, fetched)
  {
    hide Hit;
    fetched := map[];
    ghost var wants := work.items;
    for i := 0 to |build.jobs|
      invariant AllSettled(s, wants, build.jobs[..i], work.items, fetched)
    {
      if work.items == [] {
        NothingLeft(s, wants, build.jobs[..i], build.jobs[i..], fetched);
        assert build.jobs[..i] + build.jobs[i..] == build.jobs;
        return;
      }
      ghost var todo, known := work.items, fetched;
      assert forall w :: w in work.items ==> w in wants && Settled(s, w, build.jobs[..i], todo, fetched);
      fetched := TryJob(s, build.jobs[i], work, fetched);
      JobSettles(s, wants, build.jobs[..i], build.jobs[i], todo, known, work.items, fetched);
      assert build.jobs[..i + 1] == build.jobs[..i] + [build.jobs[i]];
    }
    assert build.jobs[..|build.jobs|] == build.jobs;
  }

  /** When everything has been found, later jobs change nothing. */
  lemma NothingLeft(s: Service, wants: seq<Want>, jobs: seq<Job>, more: seq<Job>, fetched: map<string, Results>)
    requires AllSettled(s, wants, jobs, [], fetched)
    ensures AllSettled(s, wants, jobs + more, [], fetched)
  {
    forall w | w in wants
      ensures Settled(s, w, jobs + more, [], fetched)
    {
      assert Settled(s, w, jobs, [], fetched);
      FirstHitAppend(s, w, jobs, more);
    }
  }

  // All builds, newest first.

  predicate NewerFirst(a: Build, b: Build) {
    b.number <= a.number
  }

  function JobsOf(b: Build): seq<Job> {
    b.jobs
  }

  /** The jobs in scan order: highest build number first, then the order within the build. */
  function ScanOrder(builds: seq<Build>): seq<Job> {
    Collect(JobsOf, Sort(builds, NewerFirst))
  }

  /** The scan goes through all builds from the highest number to the lowest. */
  lemma ScanIsNewestFirst(builds: seq<Build>)
    ensures var scanned := Sort(builds, NewerFirst);
      multiset(scanned) == multiset(builds) && forall i, j :: 0 <= i < j < |scanned| ==> scanned[i].number >= scanned[j].number
  {
    assert TotalPreorder(NewerFirst);
    SortSorted(builds, NewerFirst);
    SortBag(builds, NewerFirst);
  }

  lemma BuildSettles(s: Service, wants: seq<Want>, jobs: seq<Job>, more: seq<Job>, todo: seq<Want>,
                                        fetched: map<string, Results>, todo': seq<Want>, found: map<string, Results>)
    requires DistinctFiles(wants) && AllSettled(s, wants, jobs, todo, fetched) && AllSettled(s, todo, more, todo', found)
    ensures AllSettled(s, wants, jobs + more, todo', fetched + found)
  {
    forall w | w in wants
      ensures Settled(s, w, jobs + more, todo', fetched + found)
    {
      FirstHitAppend(s, w, jobs, more);
      assert Settled(s, w, jobs, todo, fetched);
      if w in todo {
        assert Settled(s, w, more, todo', found);
      }
    }
  }

  /** A job has this result for a wanted file: it has a name that matches, and its artifact holds the result. */
  ghost predicate Gives(s: Service, w: Want, job: Job, r: Results) {
    && job.name.Some? && job.name.value != "" && s.matches(w.pattern, job.name.value)
    && s.artifact(job) == Some(r)
  }

  ghost predicate BuildGives(s: Service, w: Want, b: Build) {
    exists job, r :: job in b.jobs && Gives(s, w, job, r)
  }

  /** The result of the first job that has one in a build such that no build with a higher number has any. */
  ghost predicate IsNewest(s: Service, w: Want, builds: seq<Build>, r: Results) {
    exists b :: b in builds && FirstIn(s, w, b, r) && forall c :: c in builds && c.number > b.number ==> !BuildGives(s, w, c)
  }

  ghost predicate FirstIn(s: Service, w: Want, b: Build, r: Results) {
    exists i :: 0 <= i < |b.jobs| && Gives(s, w, b.jobs[i], r) && forall j, q :: 0 <= j < i ==> !Gives(s, w, b.jobs[j], q)
  }

  lemma HitGives(s: Service, w: Want, job: Job)
    ensures forall r :: Gives(s, w, job, r) <==> Hit(s, w, job) == Some(r)
  {
  }

  /** What a single build is found to have. */
  lemma FirstHitInBuild(s: Service, w: Want, b: Build)
    ensures FirstHit(s, w, b.jobs).Some? <==> BuildGives(s, w, b)
    ensures FirstHit(s, w, b.jobs).Some? ==> FirstIn(s, w, b, FirstHit(s, w, b.jobs).value)
  {
    hide Hit, Gives, FirstHit;
    FirstHitIsFirst(s, w, b.jobs);
    forall i | 0 <= i < |b.jobs|
      ensures forall r :: Gives(s, w, b.jobs[i], r) <==> Hit(s, w, b.jobs[i]) == Some(r)
    {
      HitGives(s, w, b.jobs[i]);
    }
    if FirstHit(s, w, b.jobs).Some? {
      var r := FirstHit(s, w, b.jobs).value;
      var i :| IsFirstHit(s, w, b.jobs, i) && Hit(s, w, b.jobs[i]) == FirstHit(s, w, b.jobs);
      assert Gives(s, w, b.jobs[i], r) && b.jobs[i] in b.jobs;
    }
  }

  ghost predicate FirstBuild(s: Service, w: Want, bs: seq<Build>, k: int) {
    && 0 <= k < |bs| && BuildGives(s, w, bs[k])
    && forall j :: 0 <= j < k ==> !BuildGives(s, w, bs[j])
  }

  /** The first result in a list of builds is that of the first build that has one. */
  lemma {:induction false} FirstHitInBuilds(s: Service, w: Want, bs: seq<Build>)
    ensures FirstHit(s, w, Collect(JobsOf, bs)).None? <==> forall b :: b in bs ==> !BuildGives(s, w, b)
    ensures FirstHit(s, w, Collect(JobsOf, bs)).Some? ==>
      exists k :: FirstBuild(s, w, bs, k) && FirstIn(s, w, bs[k], FirstHit(s, w, Collect(JobsOf, bs)).value)
  {
    hide BuildGives, FirstIn;
    if bs == [] {
      hide Hit;
    } else {
      var rest := bs[1..];
      FirstHitInBuilds(s, w, rest);
      FirstHitInBuild(s, w, bs[0]);
      FirstHitAppend(s, w, bs[0].jobs, Collect(JobsOf, rest));
      hide FirstHit;
      assert forall b :: b in bs <==> b == bs[0] || b in rest;
      if BuildGives(s, w, bs[0]) {
        assert FirstBuild(s, w, bs, 0);
      } else if FirstHit(s, w, Collect(JobsOf, rest)).Some? {
        var k :| FirstBuild(s, w, rest, k) && FirstIn(s, w, rest[k], FirstHit(s, w, Collect(JobsOf, rest)).value);
        assert FirstBuild(s, w, bs, k + 1);
      }
    }
  }

  /** The first result in scan order is the newest, and there is none exactly when no build has any. */
  lemma FirstIsNewest(s: Service, w: Want, builds: seq<Build>)
    ensures FirstHit(s, w, ScanOrder(builds)).None? <==> forall b :: b in builds ==> !BuildGives(s, w, b)
    ensures FirstHit(s, w, ScanOrder(builds)).Some? ==> IsNewest(s, w, builds, FirstHit(s, w, ScanOrder(builds)).value)
  {
    hide FirstHit, BuildGives, FirstIn, Sort, NewerFirst;
    var scanned := Sort(builds, NewerFirst);
    ScanIsNewestFirst(builds);
    SameBagSameElements(scanned, builds);
    FirstHitInBuilds(s, w, scanned);
    if FirstHit(s, w, ScanOrder(builds)).Some? {
      var r := FirstHit(s, w, ScanOrder(builds)).value;
      var k :| FirstBuild(s, w, scanned, k) && FirstIn(s, w, scanned[k], r);
      assert scanned[k] in scanned;
      forall c | c in builds && c.number > scanned[k].number
        ensures !BuildGives(s, w, c)
      {
        assert c in scanned;
        NoneBefore(s, w, scanned, k, c);
      }
    }
  }

  lemma NoneBefore(s: Service, w: Want, scanned: seq<Build>, k: int, c: Build)
    requires FirstBuild(s, w, scanned, k) && c in scanned && c.number > scanned[k].number
    requires forall i, j :: 0 <= i < j < |scanned| ==> scanned[i].number >= scanned[j].number
    ensures !BuildGives(s, w, c)
  {
    hide BuildGives;
    var j :| 0 <= j < |scanned| && scanned[j] == c;
  }

  /** Every wanted file gets the newest result, and is absent exactly when no build has one: neither the shrinking list nor the early exits lose or overwrite a result. */
  method FromBuildCollection(s: Service, wants: seq<Want>, builds: seq<Build>) returns (fetched: map<string, Results>)
    requires DistinctFiles(wants)
    ensures forall w :: w in wants ==> (w.file in fetched <==> exists b :: b in builds && BuildGives(s, w, b))
    ensures forall w :: w in wants && w.file in fetched ==> IsNewest(s, w, builds, fetched[w.file])
    ensures forall f :: f in fetched ==> exists w :: w in wants && w.file == f
  {
    hide Hit, Sort, BuildGives, IsNewest;
    var work := new Worklist(wants);
    var sorted := Sort(builds, NewerFirst);
    fetched := map[];
    CollectNone(JobsOf, sorted);
    for i := 0 to |sorted|
      invariant AllSettled(s, wants, Collect(JobsOf, sorted[..i]), work.items, fetched)
      invariant fresh(work)
    {
      ghost var todo := work.items;
      if work.items == [] {
        var seen, rest := Collect(JobsOf, sorted[..i]), Collect(JobsOf, sorted[i..]);
        NothingLeft(s, wants, seen, rest, fetched);
        CollectAppend(JobsOf, sorted[..i], sorted[i..]);
        assert sorted[..i] + sorted[i..] == sorted;
        FinallySettled(s, wants, builds, work.items, fetched);
        return;
      }
      var found := FromBuild(s, sorted[i], work);
      BuildSettles(s, wants, Collect(JobsOf, sorted[..i]), sorted[i].jobs, todo, fetched, work.items, found);
      CollectSnoc(JobsOf, sorted, i);
      fetched := fetched + found;
    }
    assert sorted[..|sorted|] == sorted;
    FinallySettled(s, wants, builds, work.items, fetched);
  }

  lemma FinallySettled(s: Service, wants: seq<Want>, builds: seq<Build>, todo: seq<Want>, fetched: map<string, Results>)
    requires AllSettled(s, wants, ScanOrder(builds), todo, fetched)
    ensures forall w :: w in wants ==> (w.file in fetched <==> exists b :: b in builds && BuildGives(s, w, b))
    ensures forall w :: w in wants && w.file in fetched ==> IsNewest(s, w, builds, fetched[w.file])
  {
    hide FirstHit, BuildGives, IsNewest, ScanOrder;
    forall w | w in wants
      ensures w.file in fetched <==> exists b :: b in builds && BuildGives(s, w, b)
      ensures w.file in fetched ==> IsNewest(s, w, builds, fetched[w.file])
    {
      assert Settled(s, w, ScanOrder(builds), todo, fetched);
      FirstIsNewest(s, w, builds);
    }
  }
}

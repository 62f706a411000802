/** The line chart of progress over time. For an administrator or a supervisor it groups
    projects by the month they started in (`calculateMonthlyProgress`); for an intern it
    walks month by month through the internship and reports, at each step, the projects
    already started (`calculatePersonalProgress`). Both keep the last six points. */
module ProgressChart {
  import opened ArrayOps
  import opened Calendar
  import opened OrderedMap
  import opened Records

  /** The accumulator kept per month: sum, number and running maximum of progress. */
  datatype Bucket = Bucket(totalProgress: int, count: nat, maxProgress: int)

  /** A point of the chart: its month, the rounded average progress and the best progress. */
  datatype ProgressPoint = ProgressPoint(month: MonthKey, progress: int, performance: int)

  /** `slice(-6)`: the chart shows at most six months. */
  const MonthsShown: nat := 6

  /** `{ totalProgress: 0, count: 0, maxProgress: 0 }`, the bucket of a month not seen yet. */
  const EmptyBucket := Bucket(0, 0, 0)

  /** The month a project is filed under: that of its start date. */
  function MonthOf(p: Project): MonthKey {
    p.startDate.month
  }

  // ----- calculateMonthlyProgress -----

  /** One step of the `forEach`: the bucket of the project's month takes in its progress. */
  function AddProject(buckets: seq<(MonthKey, Bucket)>, p: Project): seq<(MonthKey, Bucket)> {
    var existing := GetOr(Lookup(buckets, MonthOf(p)), EmptyBucket);
    Store(buckets, MonthOf(p),
      Bucket(existing.totalProgress + p.progress, existing.count + 1, Max(existing.maxProgress, p.progress)))
  }

  /** The buckets after the `forEach` over `projects`. */
  function BucketsOf(projects: seq<Project>): seq<(MonthKey, Bucket)> {
    if projects == [] then [] else AddProject(BucketsOf(projects[..|projects| - 1]), projects[|projects| - 1])
  }

  /** The `forEach` that fills `monthsMap`. */
  method MonthBuckets(projects: seq<Project>) returns (monthsMap: seq<(MonthKey, Bucket)>)
    ensures monthsMap == BucketsOf(projects)
  {
    monthsMap := [];
    for i := 0 to |projects|
      invariant monthsMap == BucketsOf(projects[..i])
    {
      var project := projects[i];
      var monthKey := MonthOf(project);
      var existing := GetOr(Lookup(monthsMap, monthKey), EmptyBucket);
      existing := Bucket(existing.totalProgress + project.progress, existing.count + 1,
                         Max(existing.maxProgress, project.progress));
      monthsMap := Store(monthsMap, monthKey, existing);
      assert projects[..i + 1][..i] == projects[..i];
    }
    assert projects[..|projects|] == projects;
  }

  /** The months of the projects' start dates, in input order. */
  function MonthsOf(projects: seq<Project>): seq<MonthKey> {
    seq(|projects|, i requires 0 <= i < |projects| => MonthOf(projects[i]))
  }

  /** The progress values of the projects started in month `k`, in input order; there are
      as many as projects started in that month. */
  function ProgressIn(projects: seq<Project>, k: MonthKey): seq<int> {
    if projects == [] then []
    else
      var pre, last := projects[..|projects| - 1], projects[|projects| - 1];
      ProgressIn(pre, k) + if MonthOf(last) == k then [last.progress] else []
  }

  /** There are as many values for month `k` as projects started in `k`. */
  lemma {:induction false} ProgressInCount(projects: seq<Project>, k: MonthKey)
    ensures |ProgressIn(projects, k)| == multiset(MonthsOf(projects))[k]
  {
    if projects != [] {
      var pre, last := projects[..|projects| - 1], projects[|projects| - 1];
      assert MonthsOf(projects) == MonthsOf(pre) + [MonthOf(last)];
      ProgressInCount(pre, k);
    }
  }

  /** What the bucket of month `k` must hold: the sum, the number and the maximum (from 0)
      of the progress of the projects started in `k`. */
  function MonthBucket(projects: seq<Project>, k: MonthKey): Bucket {
    var vs := ProgressIn(projects, k);
    Bucket(Sum(vs), |vs|, MaxFrom(0, vs))
  }

  /** The entry month `k` should have: none when no project started in it. */
  function BucketEntry(projects: seq<Project>, k: MonthKey): Option<Bucket> {
    if ProgressIn(projects, k) == [] then None else Some(MonthBucket(projects, k))
  }

  /** Every project lands in the bucket of its start month and in no other: a month has a
      bucket exactly when some project started in it, and that bucket holds the sum, the
      number and the maximum (from 0) of those projects' progress. */
  lemma {:induction false} BucketsMatchMonths(projects: seq<Project>)
    ensures DistinctKeys(BucketsOf(projects))
    ensures forall k :: Lookup(BucketsOf(projects), k) == BucketEntry(projects, k)
  {
    if projects != [] {
      var pre, p := projects[..|projects| - 1], projects[|projects| - 1];
      BucketsMatchMonths(pre);
      assert projects == pre + [p];
      BucketsOfLast(pre, p);
      var existing := GetOr(Lookup(BucketsOf(pre), MonthOf(p)), EmptyBucket);
      StoreDistinct(BucketsOf(pre), MonthOf(p),
        Bucket(existing.totalProgress + p.progress, existing.count + 1, Max(existing.maxProgress, p.progress)));
      forall k ensures Lookup(BucketsOf(projects), k) == BucketEntry(projects, k) {
        BucketStep(pre, p, k);
      }
    }
  }

  /** Adding the last project changes only the bucket of its month, as `BucketEntry` says. */
  lemma BucketStep(pre: seq<Project>, p: Project, k: MonthKey)
    requires Lookup(BucketsOf(pre), k) == BucketEntry(pre, k)
    ensures Lookup(BucketsOf(pre + [p]), k) == BucketEntry(pre + [p], k)
  {
    if k == MonthOf(p) {
      BucketStepOwn(pre, p);
    } else {
      BucketStepOther(pre, p, k);
    }
  }

  /** The `forEach` over one more project is one more `AddProject`. */
  lemma BucketsOfLast(pre: seq<Project>, p: Project)
    ensures BucketsOf(pre + [p]) == AddProject(BucketsOf(pre), p)
  {
    assert (pre + [p])[..|pre|] == pre;
  }

  /** The bucket of the project's own month takes in its progress. */
  lemma BucketStepOwn(pre: seq<Project>, p: Project)
    requires Lookup(BucketsOf(pre), MonthOf(p)) == BucketEntry(pre, MonthOf(p))
    ensures Lookup(BucketsOf(pre + [p]), MonthOf(p)) == BucketEntry(pre + [p], MonthOf(p))
  {
    BucketsOfLast(pre, p);
    var bs := BucketsOf(pre);
    var existing := GetOr(Lookup(bs, MonthOf(p)), EmptyBucket);
    var b := Bucket(existing.totalProgress + p.progress, existing.count + 1, Max(existing.maxProgress, p.progress));
    StoreLookup(bs, MonthOf(p), b, MonthOf(p));
    BucketTakesProgress(pre, p);
    assert existing == MonthBucket(pre, MonthOf(p));
  }

  /** The bucket of any other month is left as it was. */
  lemma BucketStepOther(pre: seq<Project>, p: Project, k: MonthKey)
    requires k != MonthOf(p)
    requires Lookup(BucketsOf(pre), k) == BucketEntry(pre, k)
    ensures Lookup(BucketsOf(pre + [p]), k) == BucketEntry(pre + [p], k)
  {
    BucketsOfLast(pre, p);
    var bs := BucketsOf(pre);
    var existing := GetOr(Lookup(bs, MonthOf(p)), EmptyBucket);
    var b := Bucket(existing.totalProgress + p.progress, existing.count + 1, Max(existing.maxProgress, p.progress));
    StoreLookup(bs, MonthOf(p), b, k);
    ProgressInOther(pre, p, k);
  }

  /** A project adds nothing to the values of another month. */
  lemma ProgressInOther(pre: seq<Project>, p: Project, k: MonthKey)
    requires k != MonthOf(p)
    ensures ProgressIn(pre + [p], k) == ProgressIn(pre, k)
  {
    assert (pre + [p])[..|pre|] == pre;
  }

  /** A project's progress goes into the bucket of its own month: added to the sum, counted,
      and taken into the maximum. */
  lemma BucketTakesProgress(pre: seq<Project>, p: Project)
    ensures ProgressIn(pre + [p], MonthOf(p)) != []
    ensures MonthBucket(pre + [p], MonthOf(p)) ==
      (var b := MonthBucket(pre, MonthOf(p)); Bucket(b.totalProgress + p.progress, b.count + 1, Max(b.maxProgress, p.progress)))
  {
    var vs := ProgressIn(pre, MonthOf(p));
    var ws := vs + [p.progress];
    assert (pre + [p])[..|pre|] == pre;
    assert ProgressIn(pre + [p], MonthOf(p)) == ws;
    assert ws[..|vs|] == vs;
  }

  /** The sum of the bucket counts. */
  function CountTotal(buckets: seq<(MonthKey, Bucket)>): int {
    SumOf(buckets, (b: Bucket) => b.count)
  }

  /** No project is lost or counted twice: the bucket counts add up to the number of projects. */
  lemma {:induction false} BucketCountsConserved(projects: seq<Project>)
    ensures CountTotal(BucketsOf(projects)) == |projects|
  {
    if projects != [] {
      var pre, p := projects[..|projects| - 1], projects[|projects| - 1];
      var bs := BucketsOf(pre);
      var existing := GetOr(Lookup(bs, MonthOf(p)), EmptyBucket);
      var b := Bucket(existing.totalProgress + p.progress, existing.count + 1, Max(existing.maxProgress, p.progress));
      assert BucketsOf(projects) == Store(bs, MonthOf(p), b);
      BucketCountsConserved(pre);
      SumOfStore(bs, MonthOf(p), b, (b: Bucket) => b.count);
    }
  }

  /** Chronological order on the entries of `monthsMap`. */
  function MonthRank(e: (MonthKey, Bucket)): int {
    Index(e.0)
  }

  /** `{ month, progress: count > 0 ? Math.round(totalProgress / count) : 0, performance: maxProgress }`. */
  function ToPoint(e: (MonthKey, Bucket)): ProgressPoint {
    var b := e.1;
    ProgressPoint(e.0, if b.count > 0 then RoundDiv(b.totalProgress, b.count) else 0, b.maxProgress)
  }

  /** The months kept for the chart: the buckets in chronological order, the last six. */
  function LatestBuckets(projects: seq<Project>): seq<(MonthKey, Bucket)> {
    TakeLast(SortBy(BucketsOf(projects), MonthRank), MonthsShown)
  }

  /** `calculateMonthlyProgress`. */
  function MonthlyProgress(projects: seq<Project>): seq<ProgressPoint> {
    Points(LatestBuckets(projects))
  }

  /** `.map(([month, data]) => ...)`: one point per kept bucket, in order. */
  function Points(kept: seq<(MonthKey, Bucket)>): seq<ProgressPoint> {
    seq(|kept|, i requires 0 <= i < |kept| => ToPoint(kept[i]))
  }

  /** `calculateMonthlyProgress(interns, projects)`; the interns are passed but not used. */
  method CalculateMonthlyProgress(interns: seq<Intern>, projects: seq<Project>) returns (data: seq<ProgressPoint>)
    ensures data == MonthlyProgress(projects)
  {
    var monthsMap := MonthBuckets(projects);
    var sortedMonths := TakeLast(SortBy(monthsMap, MonthRank), MonthsShown);
    data := Points(sortedMonths);
  }

  /** Entries in strictly chronological order of their months. */
  ghost predicate Chronological(s: seq<(MonthKey, Bucket)>) {
    forall i, j :: 0 <= i < j < |s| ==> Before(s[i].0, s[j].0)
  }

  /** The sorted buckets have distinct months in strictly chronological order. */
  lemma SortedBucketsAscending(projects: seq<Project>)
    ensures Chronological(SortBy(BucketsOf(projects), MonthRank))
  {
    var s := SortBy(BucketsOf(projects), MonthRank);
    BucketsMatchMonths(projects);
    SortByDistinctKeys(BucketsOf(projects), MonthRank);
    forall i, j | 0 <= i < j < |s| ensures Before(s[i].0, s[j].0) {
      assert MonthRank(s[i]) <= MonthRank(s[j]);
      IndexInjective(s[i].0, s[j].0);
    }
  }

  /** The months kept are in strictly chronological order too. */
  lemma LatestBucketsAscending(projects: seq<Project>)
    ensures Chronological(LatestBuckets(projects))
  {
    var s := SortBy(BucketsOf(projects), MonthRank);
    var kept := TakeLast(s, MonthsShown);
    SortedBucketsAscending(projects);
    assert kept == s[|s| - |kept|..];
    ChronologicalSuffix(s, |s| - |kept|);
  }

  /** A chronological sequence stays chronological when its first entries are dropped. */
  lemma ChronologicalSuffix(s: seq<(MonthKey, Bucket)>, n: nat)
    requires Chronological(s) && n <= |s|
    ensures Chronological(s[n..])
  {
    forall i, j | 0 <= i < j < |s[n..]| ensures Before(s[n..][i].0, s[n..][j].0) {
      assert s[n..][i] == s[n + i] && s[n..][j] == s[n + j];
    }
  }

  /** At most six points, one per month that has projects, and none at all without projects. */
  lemma MonthlyProgressLength(projects: seq<Project>)
    ensures |MonthlyProgress(projects)| <= MonthsShown
    ensures |MonthlyProgress(projects)| == if |BucketsOf(projects)| < MonthsShown then |BucketsOf(projects)| else MonthsShown
    ensures MonthlyProgress(projects) == [] <==> projects == []
  {
    var bs := BucketsOf(projects);
    assert |SortBy(bs, MonthRank)| == |bs| by {
      assert |multiset(SortBy(bs, MonthRank))| == |multiset(bs)|;
    }
    if projects != [] {
      var p := projects[|projects| - 1];
      BucketsMatchMonths(projects);
      assert ProgressIn(projects, MonthOf(p)) != [] by {
        ProgressInCount(projects, MonthOf(p));
        assert MonthsOf(projects)[|projects| - 1] == MonthOf(p);
        assert MonthOf(p) in multiset(MonthsOf(projects));
      }
      assert bs != [];
    }
  }

  /** The points are in strictly ascending month order: no month twice, no month out of place. */
  lemma MonthlyProgressAscending(projects: seq<Project>)
    ensures forall i, j :: 0 <= i < j < |MonthlyProgress(projects)| ==>
      Before(MonthlyProgress(projects)[i].month, MonthlyProgress(projects)[j].month)
  {
    var kept := LatestBuckets(projects);
    var r := MonthlyProgress(projects);
    LatestBucketsAscending(projects);
    forall i, j | 0 <= i < j < |r| ensures Before(r[i].month, r[j].month) {
      assert r[i].month == kept[i].0 && r[j].month == kept[j].0;
    }
  }

  /** Each point stands for a month in which some project started; its `progress` is the
      rounded average and its `performance` the maximum (from 0) of those projects' progress. */
  lemma MonthlyProgressPoints(projects: seq<Project>)
    ensures forall i :: 0 <= i < |MonthlyProgress(projects)| ==>
      var pt := MonthlyProgress(projects)[i];
      var vs := ProgressIn(projects, pt.month);
      vs != [] && pt.progress == RoundDiv(Sum(vs), |vs|) && pt.performance == MaxFrom(0, vs)
  {
    var bs := BucketsOf(projects);
    var s := SortBy(bs, MonthRank);
    var kept := TakeLast(s, MonthsShown);
    assert kept == s[|s| - |kept|..];
    var r := MonthlyProgress(projects);
    assert |r| == |kept|;
    BucketsMatchMonths(projects);
    forall i | 0 <= i < |r|
      ensures var vs := ProgressIn(projects, r[i].month);
        vs != [] && r[i].progress == RoundDiv(Sum(vs), |vs|) && r[i].performance == MaxFrom(0, vs)
    {
      var e := kept[i];
      assert r[i] == ToPoint(e);
      assert e == s[|s| - |kept| + i];
      assert e in multiset(bs) by { assert e in multiset(s); }
      var k :| 0 <= k < |bs| && bs[k] == e;
      LookupEntry(bs, k);
    }
  }

  /** A month in which some project started has an entry among the sorted buckets. */
  lemma MonthHasSortedBucket(projects: seq<Project>, n: nat) returns (j: nat)
    requires n < |projects|
    ensures j < |SortBy(BucketsOf(projects), MonthRank)|
    ensures SortBy(BucketsOf(projects), MonthRank)[j].0 == MonthOf(projects[n])
  {
    var bs := BucketsOf(projects);
    var s := SortBy(bs, MonthRank);
    var k := MonthOf(projects[n]);
    BucketsMatchMonths(projects);
    assert MonthsOf(projects)[n] == k;
    assert k in multiset(MonthsOf(projects));
    ProgressInCount(projects, k);
    assert Lookup(bs, k).Some?;
    LookupFinds(bs, k);
    var i :| 0 <= i < |bs| && bs[i] == (k, Lookup(bs, k).value);
    assert bs[i] in multiset(s) by { assert bs[i] in multiset(bs); }
    j :| 0 <= j < |s| && s[j] == bs[i];
  }

  /** The points are the latest months: a project whose month has no point started before
      every month shown. */
  lemma MonthlyProgressLatest(projects: seq<Project>, n: nat)
    requires n < |projects|
    ensures (exists i :: 0 <= i < |MonthlyProgress(projects)| && MonthlyProgress(projects)[i].month == MonthOf(projects[n])) ||
      (forall i :: 0 <= i < |MonthlyProgress(projects)| ==> Before(MonthOf(projects[n]), MonthlyProgress(projects)[i].month))
  {
    var j := MonthHasSortedBucket(projects, n);
    if j >= |SortBy(BucketsOf(projects), MonthRank)| - |LatestBuckets(projects)| {
      KeptIsShown(projects, j);
    } else {
      KeptAfterDropped(projects, j);
    }
  }

  /** A sorted bucket among the last six has its point. */
  lemma KeptIsShown(projects: seq<Project>, j: nat)
    requires |SortBy(BucketsOf(projects), MonthRank)| - |LatestBuckets(projects)| <= j < |SortBy(BucketsOf(projects), MonthRank)|
    ensures exists i :: 0 <= i < |MonthlyProgress(projects)| && MonthlyProgress(projects)[i].month == SortBy(BucketsOf(projects), MonthRank)[j].0
  {
    var s := SortBy(BucketsOf(projects), MonthRank);
    var i := SuffixIsShown(s, j);
    assert MonthlyProgress(projects) == Points(TakeLast(s, MonthsShown));
    assert MonthlyProgress(projects)[i].month == s[j].0;
  }

  /** Every entry among the last six of `s` has its point, at `i`. */
  lemma SuffixIsShown(s: seq<(MonthKey, Bucket)>, j: nat) returns (i: nat)
    requires |s| - |TakeLast(s, MonthsShown)| <= j < |s|
    ensures i < |Points(TakeLast(s, MonthsShown))| && Points(TakeLast(s, MonthsShown))[i].month == s[j].0
  {
    var kept := TakeLast(s, MonthsShown);
    i := j - (|s| - |kept|);
    assert kept[i] == s[j];
  }

  /** A sorted bucket that is not among the last six comes before every point shown. */
  lemma KeptAfterDropped(projects: seq<Project>, j: nat)
    requires j < |SortBy(BucketsOf(projects), MonthRank)| - |LatestBuckets(projects)|
    ensures forall i :: 0 <= i < |MonthlyProgress(projects)| ==>
      Before(SortBy(BucketsOf(projects), MonthRank)[j].0, MonthlyProgress(projects)[i].month)
  {
    SortedBucketsAscending(projects);
    DroppedBeforeShown(SortBy(BucketsOf(projects), MonthRank), j);
  }

  /** In a chronological `s`, an entry before the last six comes before every point shown. */
  lemma DroppedBeforeShown(s: seq<(MonthKey, Bucket)>, j: nat)
    requires Chronological(s) && j < |s| - |TakeLast(s, MonthsShown)|
    ensures forall i :: 0 <= i < |Points(TakeLast(s, MonthsShown))| ==> Before(s[j].0, Points(TakeLast(s, MonthsShown))[i].month)
  {
    var kept := TakeLast(s, MonthsShown);
    var off := |s| - |kept|;
    forall i | 0 <= i < |kept| ensures Before(s[j].0, Points(kept)[i].month) {
      assert kept[i] == s[off + i];
    }
  }

  /** With progress values that are not negative, the seed 0 of the running maximum never
      shows: each point's performance is the largest progress of its month. */
  lemma MonthlyPerformanceIsMax(projects: seq<Project>, i: nat)
    requires forall p :: p in projects ==> p.progress >= 0
    requires i < |MonthlyProgress(projects)|
    ensures ProgressIn(projects, MonthlyProgress(projects)[i].month) != []
    ensures MonthlyProgress(projects)[i].performance == MaxOf(ProgressIn(projects, MonthlyProgress(projects)[i].month))
  {
    var k := MonthlyProgress(projects)[i].month;
    MonthlyProgressPoints(projects);
    ProgressInValues(projects, k);
    var vs := ProgressIn(projects, k);
    forall j | 0 <= j < |vs| ensures vs[j] >= 0 {
      assert vs[j] in vs;
      var p :| p in projects && p.progress == vs[j];
    }
    assert MaxOf(vs) in vs;
  }

  /** Every value of `ProgressIn(projects, k)` is the progress of some project. */
  lemma {:induction false} ProgressInValues(projects: seq<Project>, k: MonthKey)
    ensures forall v :: v in ProgressIn(projects, k) ==> exists p :: p in projects && p.progress == v
  {
    if projects != [] {
      var pre, last := projects[..|projects| - 1], projects[|projects| - 1];
      ProgressInValues(pre, k);
      forall v | v in ProgressIn(projects, k) ensures exists p :: p in projects && p.progress == v {
        if v in ProgressIn(pre, k) {
          var p :| p in pre && p.progress == v;
          assert p in projects;
        } else {
          assert last in projects;
        }
      }
    }
  }

  /** The projects of the worked example below. */
  const ExampleProjects := [
    Project(1, Some(7), Date(MonthKey(2024, 1), 0), 40),
    Project(2, Some(7), Date(MonthKey(2024, 1), 0), 60),
    Project(3, Some(8), Date(MonthKey(2024, 2), 0), 90)]

  /** The buckets of the worked example: January holds 40 + 60 from two projects, best 60,
      and February 90 from one. */
  lemma ExampleBuckets()
    ensures BucketsOf(ExampleProjects) ==
      [(MonthKey(2024, 1), Bucket(100, 2, 60)), (MonthKey(2024, 2), Bucket(90, 1, 90))]
  {
    var ps := ExampleProjects;
    var jan, feb := MonthKey(2024, 1), MonthKey(2024, 2);
    assert ps[..2] == ps[..2][..2] && ps[..2][..1] == ps[..1] && ps[..1][..0] == [];
    assert BucketsOf(ps[..1]) == [(jan, Bucket(40, 1, 40))];
    assert BucketsOf(ps[..2]) == [(jan, Bucket(100, 2, 60))];
    var es := [(jan, Bucket(100, 2, 60))];
    assert Lookup(es, feb) == None by { assert Lookup(es[1..], feb) == None; }
    assert AddProject(es, ps[2]) == Store(es, feb, Bucket(90, 1, 90));
    assert Store(es, feb, Bucket(90, 1, 90)) == es + [(feb, Bucket(90, 1, 90))] by {
      assert es[1..] == [];
    }
  }

  /** The example's buckets are already in chronological order. */
  lemma ExampleSorted()
    ensures SortBy([(MonthKey(2024, 1), Bucket(100, 2, 60)), (MonthKey(2024, 2), Bucket(90, 1, 90))], MonthRank) ==
      [(MonthKey(2024, 1), Bucket(100, 2, 60)), (MonthKey(2024, 2), Bucket(90, 1, 90))]
  {
    var bs := [(MonthKey(2024, 1), Bucket(100, 2, 60)), (MonthKey(2024, 2), Bucket(90, 1, 90))];
    assert bs[1..] == [bs[1]] && [bs[1]][1..] == [];
    assert SortBy([bs[1]], MonthRank) == Insert(bs[1], [], MonthRank) == [bs[1]];
    assert InsertPos(bs[0], [bs[1]], MonthRank) == 0;
    assert Insert(bs[0], [bs[1]], MonthRank) == bs;
  }

  /** The example's two buckets turn into points with the rounded averages 100 / 2 and 90 / 1. */
  lemma ExamplePoints(kept: seq<(MonthKey, Bucket)>)
    requires kept == [(MonthKey(2024, 1), Bucket(100, 2, 60)), (MonthKey(2024, 2), Bucket(90, 1, 90))]
    ensures Points(kept) ==
      [ProgressPoint(MonthKey(2024, 1), 50, 60), ProgressPoint(MonthKey(2024, 2), 90, 90)]
  {
    RoundDivUnique(100, 2, 50);
    RoundDivUnique(90, 1, 90);
  }

  /** Two projects started in January 2024 with progress 40 and 60 and one in February with
      90 give two points: January with average 50 and best 60, February with 90 and 90. */
  lemma MonthlyProgressExample()
    ensures MonthlyProgress(ExampleProjects) ==
      [ProgressPoint(MonthKey(2024, 1), 50, 60), ProgressPoint(MonthKey(2024, 2), 90, 90)]
  {
    ExampleBuckets();
    ExampleSorted();
    ExamplePoints(LatestBuckets(ExampleProjects));
  }

  // ----- calculatePersonalProgress -----

  /** `projects.filter(p => new Date(p.startDate) <= currentDate)`, keeping input order. */
  function Started(projects: seq<Project>, d: Date): seq<Project> {
    if projects == [] then []
    else
      var last := projects[|projects| - 1];
      Started(projects[..|projects| - 1], d) + if NotAfter(last.startDate, d) then [last] else []
  }

  /** The filter keeps every copy of a project started by `d` and drops every other. */
  lemma {:induction false} StartedCounts(projects: seq<Project>, d: Date)
    ensures forall p :: multiset(Started(projects, d))[p] == (if NotAfter(p.startDate, d) then multiset(projects)[p] else 0)
  {
    if projects != [] {
      var last := projects[|projects| - 1];
      assert projects == projects[..|projects| - 1] + [last];
      StartedCounts(projects[..|projects| - 1], d);
    }
  }

  /** `projects.map(p => p.progress)`. */
  function Progresses(projects: seq<Project>): seq<int> {
    seq(|projects|, i requires 0 <= i < |projects| => projects[i].progress)
  }

  /** The point for the step at date `d`: the rounded average and the maximum of the progress
      of the projects started by then, or 0 and 0 when there are none. */
  function PointAt(projects: seq<Project>, d: Date): ProgressPoint {
    var started := Started(projects, d);
    var values := Progresses(started);
    ProgressPoint(d.month,
      if |started| > 0 then RoundDiv(Sum(values), |started|) else 0,
      if |started| > 0 then MaxOf(values) else 0)
  }

  /** The dates the `while` loop visits: from `current`, a month at a time, while the date is
      neither after `today` nor after `end`. */
  function Walk(current: Date, today: Date, end: Date): seq<Date>
    decreases Index(end.month) - Index(current.month)
  {
    if NotAfter(current, today) && NotAfter(current, end) then [current] + Walk(StepMonth(current), today, end)
    else []
  }

  /** The points for a list of dates. */
  function PointsAlong(projects: seq<Project>, dates: seq<Date>): (r: seq<ProgressPoint>)
    ensures |r| == |dates| && forall i :: 0 <= i < |dates| ==> r[i] == PointAt(projects, dates[i])
  {
    if dates == [] then [] else [PointAt(projects, dates[0])] + PointsAlong(projects, dates[1..])
  }

  /** `calculatePersonalProgress(intern, projects)` with the clock reading `today`. */
  function PersonalProgress(intern: Option<Intern>, projects: seq<Project>, today: Date): seq<ProgressPoint> {
    if intern.None? || intern.value.startDate.None? || intern.value.endDate.None? then []
    else
      var dates := Walk(intern.value.startDate.value, today, intern.value.endDate.value);
      TakeLast(PointsAlong(projects, dates), MonthsShown)
  }

  /** One turn of the loop: a date within bounds contributes its point, then the walk goes on
      from the following month. */
  lemma WalkStep(projects: seq<Project>, current: Date, today: Date, end: Date)
    requires NotAfter(current, today) && NotAfter(current, end)
    ensures PointsAlong(projects, Walk(current, today, end)) ==
      [PointAt(projects, current)] + PointsAlong(projects, Walk(StepMonth(current), today, end))
  {
    var rest := Walk(StepMonth(current), today, end);
    assert Walk(current, today, end) == [current] + rest;
    assert ([current] + rest)[1..] == rest;
  }

  method CalculatePersonalProgress(intern: Option<Intern>, projects: seq<Project>, today: Date)
    returns (data: seq<ProgressPoint>)
    ensures data == PersonalProgress(intern, projects, today)
  {
    if intern.None? || intern.value.startDate.None? || intern.value.endDate.None? {
      return [];
    }
    var startDate, endDate := intern.value.startDate.value, intern.value.endDate.value;
    var monthlyData: seq<ProgressPoint> := [];
    var currentDate := startDate;
    while NotAfter(currentDate, today) && NotAfter(currentDate, endDate)
      invariant monthlyData + PointsAlong(projects, Walk(currentDate, today, endDate)) ==
                PointsAlong(projects, Walk(startDate, today, endDate))
      decreases Index(endDate.month) - Index(currentDate.month)
    {
      var projectsAtMonth := Started(projects, currentDate);
      var values := Progresses(projectsAtMonth);
      var avgProgress := if |projectsAtMonth| > 0 then RoundDiv(Sum(values), |projectsAtMonth|) else 0;
      var maxProgress := if |projectsAtMonth| > 0 then MaxOf(values) else 0;
      var point := ProgressPoint(currentDate.month, avgProgress, maxProgress);
      assert point == PointAt(projects, currentDate);
      WalkStep(projects, currentDate, today, endDate);
      var rest := PointsAlong(projects, Walk(StepMonth(currentDate), today, endDate));
      AppendAssociative(monthlyData, [point], rest);
      monthlyData := monthlyData + [point];
      currentDate := StepMonth(currentDate);
    }
    data := TakeLast(monthlyData, MonthsShown);
  }

  /** The walk visits exactly the consecutive monthly steps from `current` that are neither
      after `today` nor after `end`, and stops at the first step that is. */
  lemma {:induction false} WalkSteps(current: Date, today: Date, end: Date)
    ensures forall i :: 0 <= i < |Walk(current, today, end)| ==>
      Walk(current, today, end)[i] == Shift(current, i) &&
      NotAfter(Shift(current, i), today) && NotAfter(Shift(current, i), end)
    ensures !(NotAfter(Shift(current, |Walk(current, today, end)|), today) &&
              NotAfter(Shift(current, |Walk(current, today, end)|), end))
    decreases Index(end.month) - Index(current.month)
  {
    var w := Walk(current, today, end);
    assert Shift(current, 0) == current;
    if NotAfter(current, today) && NotAfter(current, end) {
      var next := StepMonth(current);
      WalkSteps(next, today, end);
      forall i | 0 < i <= |w| ensures Shift(current, i) == Shift(next, i - 1) {
        assert AddMonths(current.month, i) == AddMonths(Next(current.month), i - 1);
      }
      forall i | 0 < i < |w| ensures w[i] == Walk(next, today, end)[i - 1] {
      }
    }
  }

  /** The last six points of the walk from `start` are those of its last six monthly steps. */
  lemma LastPointsOfWalk(projects: seq<Project>, start: Date, today: Date, end: Date)
    ensures LastSteps(TakeLast(PointsAlong(projects, Walk(start, today, end)), MonthsShown),
                      projects, start, |Walk(start, today, end)|)
  {
    var w := Walk(start, today, end);
    var all := PointsAlong(projects, w);
    var r := TakeLast(all, MonthsShown);
    WalkSteps(start, today, end);
    assert |r| == (if |w| < MonthsShown then |w| else MonthsShown);
    forall i | 0 <= i < |r| ensures r[i] == PointAt(projects, Shift(start, |w| - |r| + i)) {
      var k := |w| - |r| + i;
      assert r[i] == all[k];
      assert all[k] == PointAt(projects, w[k]);
      assert w[k] == Shift(start, k);
    }
    assert LastSteps(r, projects, start, |w|);
  }

  /** No intern, or no start or end date, gives no points; otherwise the points are the last
      six steps of the walk, each computed from the projects started by its date. */
  lemma PersonalProgressShape(intern: Option<Intern>, projects: seq<Project>, today: Date)
    ensures intern.None? || intern.value.startDate.None? || intern.value.endDate.None? ==>
      PersonalProgress(intern, projects, today) == []
    ensures |PersonalProgress(intern, projects, today)| <= MonthsShown
    ensures intern.Some? && intern.value.startDate.Some? && intern.value.endDate.Some? ==>
      LastSteps(PersonalProgress(intern, projects, today), projects, intern.value.startDate.value,
                |Walk(intern.value.startDate.value, today, intern.value.endDate.value)|)
  {
    if intern.Some? && intern.value.startDate.Some? && intern.value.endDate.Some? {
      LastPointsOfWalk(projects, intern.value.startDate.value, today, intern.value.endDate.value);
    }
  }

  /** `r` is the last (at most six) of `n` monthly points from `start`. */
  ghost predicate LastSteps(r: seq<ProgressPoint>, projects: seq<Project>, start: Date, n: nat) {
    |r| == (if n < MonthsShown then n else MonthsShown) &&
    forall i :: 0 <= i < |r| ==> r[i] == PointAt(projects, Shift(start, n - |r| + i))
  }

  /** Moving to a later date never drops a project from those already started. */
  lemma StartedGrows(projects: seq<Project>, d1: Date, d2: Date)
    requires NotAfter(d1, d2)
    ensures multiset(Started(projects, d1)) <= multiset(Started(projects, d2))
  {
    StartedCounts(projects, d1);
    StartedCounts(projects, d2);
    forall p ensures multiset(Started(projects, d1))[p] <= multiset(Started(projects, d2))[p] {
      if NotAfter(p.startDate, d1) {
        NotAfterTransitive(p.startDate, d1, d2);
      }
    }
  }

  /** A project started by `d1` has its progress among the values seen at a later `d2`. */
  lemma StartedValueSeenLater(projects: seq<Project>, d1: Date, d2: Date, k: nat)
    requires NotAfter(d1, d2)
    requires k < |Started(projects, d1)|
    ensures Started(projects, d1)[k].progress in Progresses(Started(projects, d2))
  {
    var s1, s2 := Started(projects, d1), Started(projects, d2);
    StartedGrows(projects, d1, d2);
    assert s1[k] in multiset(s1);
    assert s1[k] in multiset(s2);
    var j :| 0 <= j < |s2| && s2[j] == s1[k];
    assert Progresses(s2)[j] == s1[k].progress;
  }

  /** With progress values that are not negative, the best progress shown never falls from
      one date to a later one. */
  lemma PerformanceNeverDecreases(projects: seq<Project>, d1: Date, d2: Date)
    requires NotAfter(d1, d2)
    requires forall p :: p in projects ==> p.progress >= 0
    ensures PointAt(projects, d1).performance <= PointAt(projects, d2).performance
  {
    var s1, s2 := Started(projects, d1), Started(projects, d2);
    if |s1| > 0 {
      var k :| 0 <= k < |s1| && Progresses(s1)[k] == MaxOf(Progresses(s1));
      StartedValueSeenLater(projects, d1, d2, k);
    } else if |s2| > 0 {
      var k :| 0 <= k < |s2| && Progresses(s2)[k] == MaxOf(Progresses(s2));
      assert s2[k] in multiset(s2);
      StartedCounts(projects, d2);
      assert s2[k] in projects by { assert s2[k] in multiset(projects); }
    }
  }

  /** Performance never goes down along points taken at successive monthly steps. */
  lemma LastStepsPerformance(r: seq<ProgressPoint>, projects: seq<Project>, start: Date, n: nat)
    requires LastSteps(r, projects, start, n)
    requires forall p :: p in projects ==> p.progress >= 0
    ensures forall i, j :: 0 <= i < j < |r| ==> r[i].performance <= r[j].performance
  {
    forall i, j | 0 <= i < j < |r| ensures r[i].performance <= r[j].performance {
      var di, dj := Shift(start, n - |r| + i), Shift(start, n - |r| + j);
      assert r[i] == PointAt(projects, di) && r[j] == PointAt(projects, dj);
      ShiftOrdered(start, n - |r| + i, n - |r| + j);
      PerformanceNeverDecreases(projects, di, dj);
    }
  }

  /** Along the personal chart, the performance line never goes down. */
  lemma PersonalPerformanceNeverDecreases(intern: Option<Intern>, projects: seq<Project>, today: Date)
    requires forall p :: p in projects ==> p.progress >= 0
    ensures forall i, j :: 0 <= i < j < |PersonalProgress(intern, projects, today)| ==>
      PersonalProgress(intern, projects, today)[i].performance <= PersonalProgress(intern, projects, today)[j].performance
  {
    PersonalProgressShape(intern, projects, today);
    if intern.Some? && intern.value.startDate.Some? && intern.value.endDate.Some? {
      var start, end := intern.value.startDate.value, intern.value.endDate.value;
      LastStepsPerformance(PersonalProgress(intern, projects, today), projects, start, |Walk(start, today, end)|);
    }
  }

  /** The projects of the second worked example: one started on 1 January 2024 with progress
      40, one later in the day of 1 February 2024 with progress 80. */
  const ExampleOwnProjects := [
    Project(1, Some(7), Date(MonthKey(2024, 1), 0), 40),
    Project(2, Some(7), Date(MonthKey(2024, 2), 5), 80)]

  /** From 1 January to 1 March 2024, seen on 1 April, the loop visits three dates. */
  lemma ExampleWalk()
    ensures Walk(Date(MonthKey(2024, 1), 0), Date(MonthKey(2024, 4), 0), Date(MonthKey(2024, 3), 0)) ==
      [Date(MonthKey(2024, 1), 0), Date(MonthKey(2024, 2), 0), Date(MonthKey(2024, 3), 0)]
  {
    var d1, d2, d3, today := Date(MonthKey(2024, 1), 0), Date(MonthKey(2024, 2), 0), Date(MonthKey(2024, 3), 0), Date(MonthKey(2024, 4), 0);
    assert Walk(today, today, d3) == [];
    assert Walk(d3, today, d3) == [d3];
    assert Walk(d2, today, d3) == [d2, d3];
  }

  /** The February project started later in the day than the February step, so only the
      March step counts it. */
  lemma ExampleStarted()
    ensures Started(ExampleOwnProjects, Date(MonthKey(2024, 1), 0)) == ExampleOwnProjects[..1]
    ensures Started(ExampleOwnProjects, Date(MonthKey(2024, 2), 0)) == ExampleOwnProjects[..1]
    ensures Started(ExampleOwnProjects, Date(MonthKey(2024, 3), 0)) == ExampleOwnProjects
  {
    var ps := ExampleOwnProjects;
    assert ps[..1][..0] == [];
  }

  /** At each of the three dates, the point counts only the projects started by then. */
  lemma ExampleOwnPoints()
    ensures PointAt(ExampleOwnProjects, Date(MonthKey(2024, 1), 0)) == ProgressPoint(MonthKey(2024, 1), 40, 40)
    ensures PointAt(ExampleOwnProjects, Date(MonthKey(2024, 2), 0)) == ProgressPoint(MonthKey(2024, 2), 40, 40)
    ensures PointAt(ExampleOwnProjects, Date(MonthKey(2024, 3), 0)) == ProgressPoint(MonthKey(2024, 3), 60, 80)
  {
    var ps := ExampleOwnProjects;
    ExampleStarted();
    assert Progresses(ps[..1]) == [40] && [40][..0] == [];
    assert Progresses(ps) == [40, 80] && [40, 80][..1] == [40];
    RoundDivUnique(40, 1, 40);
    RoundDivUnique(120, 2, 60);
  }

  /** An internship from 1 January to 1 March 2024 seen on 1 April 2024 gives three points,
      January, February and March, each counting the projects started by then. */
  lemma PersonalProgressExample()
    ensures PersonalProgress(Some(Intern(7, None, Some(Date(MonthKey(2024, 1), 0)), Some(Date(MonthKey(2024, 3), 0)))),
                             ExampleOwnProjects, Date(MonthKey(2024, 4), 0)) ==
      [ProgressPoint(MonthKey(2024, 1), 40, 40), ProgressPoint(MonthKey(2024, 2), 40, 40),
       ProgressPoint(MonthKey(2024, 3), 60, 80)]
  {
    ExampleWalk();
    ExampleOwnPoints();
  }

  // ----- the intern's own chart -----

  /** The intern branch of `loadProgressData`, once interns and projects are fetched: the walk
      over the signed-in intern's internship, counting the projects assigned to them. */
  function OwnProgress(interns: seq<Intern>, projects: seq<Project>, userId: int, today: Date): seq<ProgressPoint> {
    PersonalProgress(FindIntern(interns, userId), MyProjects(interns, projects, userId), today)
  }

  /** A user id without an intern record gets no chart. */
  lemma OwnProgressWithoutIntern(interns: seq<Intern>, projects: seq<Project>, userId: int, today: Date)
    requires forall i :: 0 <= i < |interns| ==> interns[i].userId != userId
    ensures OwnProgress(interns, projects, userId, today) == []
  {
  }

  /** A project assigned to someone else never changes the intern's chart, wherever it
      stands in the fetched list. */
  lemma OwnProgressIgnoresOthers(interns: seq<Intern>, a: seq<Project>, p: Project, b: seq<Project>, userId: int, today: Date)
    requires p.stagiaireId != Some(userId)
    ensures OwnProgress(interns, a + [p] + b, userId, today) == OwnProgress(interns, a + b, userId, today)
  {
    AssignedToAppend(a + [p], b, userId);
    AssignedToAppend(a, [p], userId);
    AssignedToOne(p, userId);
    AssignedToAppend(a, b, userId);
    assert AssignedTo(a + [p], userId) == AssignedTo(a, userId);
    assert AssignedTo(a + [p] + b, userId) == AssignedTo(a + b, userId);
  }
}

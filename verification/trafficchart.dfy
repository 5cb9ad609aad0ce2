/** The dataset-building body of `get_traffic_chart_data`: which
    repositories are charted, the common time axis, one point per axis
    timestamp for every charted repository, and the dataset labels.
    Repositories arrive in the order the loop visits them; colours and the
    other styling fields are not modelled. */
module TrafficChart {
  import opened Base
  import opened PyStr
  import opened PyDict
  import opened Calendar
  import opened DtFormat

  /** One timeline entry of a repository's traffic views. */
  datatype Entry = Entry(timestamp: DateTime, count: int, uniques: int)

  /** What the chart reads of a repository. */
  datatype RepoSummary = RepoSummary(slug: string, totalViews: int, timeline: seq<Entry>)

  /** The two metrics the JSON route admits. */
  datatype Metric = CountMetric | UniquesMetric

  /** `{'t': dtstr, 'y': value}`; `None` is a gap. */
  datatype Point = Point(t: string, y: Option<int>)

  datatype Dataset = Dataset(legend: string, data: seq<Point>)

  predicate DistinctSlugs(xs: seq<RepoSummary>)
  {
    forall i, j | 0 <= i < j < |xs| :: xs[i].slug != xs[j].slug
  }

  // ---------------------------------------------------------------------
  // Which repositories are charted

  /** The loop `for i, repo in enumerate(...)` from position `i` on: a
      repository with no views is skipped, and the first one with views
      past `limit` ends the loop. */
  function SelectFrom(repos: seq<RepoSummary>, limit: int, i: nat): seq<RepoSummary>
    decreases |repos| - i
  {
    if i >= |repos| then []
    else if repos[i].totalViews == 0 then SelectFrom(repos, limit, i + 1)
    else if i > limit then []
    else [repos[i]] + SelectFrom(repos, limit, i + 1)
  }

  function Selected(repos: seq<RepoSummary>, limit: int): seq<RepoSummary>
  {
    SelectFrom(repos, limit, 0)
  }

  /** The repositories with views, in order. */
  function WithViews(xs: seq<RepoSummary>): (r: seq<RepoSummary>)
    ensures forall x :: x in r <==> x in xs && x.totalViews != 0
  {
    if |xs| == 0 then []
    else
      assert forall x :: x in xs <==> x == xs[0] || x in xs[1..];
      (if xs[0].totalViews != 0 then [xs[0]] else []) + WithViews(xs[1..])
  }

  /** How many positions the loop looks at: `limit + 1`, at most all. */
  function Shown(n: nat, limit: int): (k: nat)
    ensures k <= n
  {
    if limit < 0 then 0 else if limit + 1 < n then limit + 1 else n
  }

  /** The loop charts exactly the repositories with views among the first
      `limit + 1` positions, in order (skipped repositories count towards
      the limit). */
  lemma SelectedSpec(repos: seq<RepoSummary>, limit: int)
    ensures Selected(repos, limit) == WithViews(repos[..Shown(|repos|, limit)])
  {
    SelectFromSpec(repos, limit, 0);
  }

  lemma {:induction false} SelectFromSpec(repos: seq<RepoSummary>, limit: int, i: nat)
    requires i <= |repos|
    decreases |repos| - i
    ensures var s := Shown(|repos|, limit);
      SelectFrom(repos, limit, i) == if i < s then WithViews(repos[i..s]) else []
  {
    var s := Shown(|repos|, limit);
    if i < |repos| {
      SelectFromSpec(repos, limit, i + 1);
      if i < s {
        var xs := repos[i..s];
        WithViewsCons(xs);
        assert xs[0] == repos[i];
        assert xs[1..] == repos[i + 1..s];
        if i + 1 == s {
          assert xs[1..] == [];
        }
      }
    }
  }

  lemma WithViewsCons(xs: seq<RepoSummary>)
    requires |xs| > 0
    ensures WithViews(xs) == (if xs[0].totalViews != 0 then [xs[0]] else []) + WithViews(xs[1..])
  {
  }

  lemma {:induction false} WithViewsDistinct(xs: seq<RepoSummary>)
    requires DistinctSlugs(xs)
    ensures DistinctSlugs(WithViews(xs))
  {
    if |xs| > 0 {
      assert DistinctSlugs(xs[1..]);
      WithViewsDistinct(xs[1..]);
      var t := WithViews(xs[1..]);
      forall j | 0 <= j < |t|
        ensures t[j].slug != xs[0].slug
      {
        assert t[j] in xs[1..];
      }
    }
  }

  // ---------------------------------------------------------------------
  // The time axis

  /** Strictly increasing in time, hence without duplicates. */
  predicate Increasing(axis: seq<DateTime>)
  {
    forall i, j | 0 <= i < j < |axis| :: ToSeconds(axis[i]) < ToSeconds(axis[j])
  }

  /** Adding one timestamp to a sorted, duplicate-free axis. */
  function InsertTime(t: DateTime, axis: seq<DateTime>): (r: seq<DateTime>)
    requires Increasing(axis)
    ensures Increasing(r)
    ensures forall u :: u in r <==> u in axis || u == t
  {
    if |axis| == 0 then [t]
    else if ToSeconds(t) < ToSeconds(axis[0]) then
      ConsIncreasing(t, axis);
      [t] + axis
    else if ToSeconds(t) == ToSeconds(axis[0]) then
      ToSecondsInjective(t, axis[0]);
      axis
    else
      assert axis == [axis[0]] + axis[1..];
      var rest := InsertTime(t, axis[1..]);
      assert forall u | u in rest :: ToSeconds(axis[0]) < ToSeconds(u);
      ConsIncreasing(axis[0], rest);
      [axis[0]] + rest
  }

  /** A timestamp earlier than every one of a sorted axis can lead it. */
  lemma ConsIncreasing(x: DateTime, rest: seq<DateTime>)
    requires Increasing(rest)
    requires forall j | 0 <= j < |rest| :: ToSeconds(x) < ToSeconds(rest[j])
    ensures Increasing([x] + rest)
  {
    var r := [x] + rest;
    forall i, j | 0 <= i < j < |r|
      ensures ToSeconds(r[i]) < ToSeconds(r[j])
    {
      assert r[j] == rest[j - 1];
      if i > 0 {
        assert r[i] == rest[i - 1];
      }
    }
  }

  /** The distinct timestamps in increasing order: `sorted(set(ts))`. */
  function SortedSet(ts: seq<DateTime>): (r: seq<DateTime>)
    ensures Increasing(r)
    ensures forall u :: u in r <==> u in ts
  {
    if |ts| == 0 then []
    else
      assert forall u :: u in ts <==> u in ts[..|ts| - 1] || u == ts[|ts| - 1];
      InsertTime(ts[|ts| - 1], SortedSet(ts[..|ts| - 1]))
  }

  /** Every timestamp of a timeline. */
  function TimelineStamps(tl: seq<Entry>): (r: seq<DateTime>)
    ensures forall u :: u in r <==> exists k | 0 <= k < |tl| :: tl[k].timestamp == u
  {
    var r := seq(|tl|, k requires 0 <= k < |tl| => tl[k].timestamp);
    assert forall k | 0 <= k < |tl| :: r[k] == tl[k].timestamp;
    r
  }

  /** Some charted repository has an entry at `u`. */
  predicate OnAxis(sel: seq<RepoSummary>, u: DateTime)
  {
    exists i | 0 <= i < |sel| :: u in TimelineStamps(sel[i].timeline)
  }

  /** The union, as a sequence, of the charted timelines' timestamps. */
  function Stamps(sel: seq<RepoSummary>): (r: seq<DateTime>)
    ensures forall u :: u in r <==> OnAxis(sel, u)
  {
    if |sel| == 0 then []
    else
      var rest := Stamps(sel[1..]);
      assert forall u :: OnAxis(sel, u) <==> u in TimelineStamps(sel[0].timeline) || OnAxis(sel[1..], u) by {
        forall u
          ensures OnAxis(sel, u) <==> u in TimelineStamps(sel[0].timeline) || OnAxis(sel[1..], u)
        {
          if OnAxis(sel, u) {
            var i :| 0 <= i < |sel| && u in TimelineStamps(sel[i].timeline);
            if i > 0 {
              assert sel[1..][i - 1] == sel[i];
            }
          }
          if OnAxis(sel[1..], u) {
            var i :| 0 <= i < |sel[1..]| && u in TimelineStamps(sel[1..][i].timeline);
            assert sel[1..][i] == sel[i + 1];
          }
        }
      }
      TimelineStamps(sel[0].timeline) + rest
  }

  /** `all_dts`: sorted, without duplicates, exactly the timestamps some
      charted repository has. */
  function Axis(sel: seq<RepoSummary>): (axis: seq<DateTime>)
    ensures Increasing(axis)
    ensures forall u :: u in axis <==> OnAxis(sel, u)
  {
    SortedSet(Stamps(sel))
  }

  // ---------------------------------------------------------------------
  // One dataset

  function MetricValue(e: Entry, m: Metric): int
  {
    match m
    case CountMetric => e.count
    case UniquesMetric => e.uniques
  }

  /** The timeline indexed by timestamp, a later entry replacing an earlier
      one with the same timestamp: `{e.timestamp: e for e in timeline}`. */
  function EntryDict(tl: seq<Entry>): Dict<DateTime, Entry>
  {
    SetAll([], seq(|tl|, k requires 0 <= k < |tl| => (tl[k].timestamp, tl[k])))
  }

  /** One point per axis timestamp, rendered with `render`. */
  function Points(axis: seq<DateTime>, tl: seq<Entry>, m: Metric, render: DateTime -> string)
    : (pts: seq<Point>)
    ensures |pts| == |axis|
    ensures forall j | 0 <= j < |axis| :: pts[j].t == render(axis[j])
  {
    var d := EntryDict(tl);
    seq(|axis|, j requires 0 <= j < |axis| =>
      Point(render(axis[j]), match Lookup(d, axis[j]) case None => None case Some(e) => Some(MetricValue(e, m))))
  }

  /** A point is a gap exactly when the timeline has no entry at its
      timestamp; otherwise it carries the metric of the last such entry. */
  lemma PointSpec(axis: seq<DateTime>, tl: seq<Entry>, m: Metric, render: DateTime -> string, j: nat)
    requires j < |axis|
    ensures var p := Points(axis, tl, m, render)[j];
      && (p.y.None? <==> forall k | 0 <= k < |tl| :: tl[k].timestamp != axis[j])
      && (p.y.Some? ==> exists k | 0 <= k < |tl| ::
            && tl[k].timestamp == axis[j]
            && p.y.value == MetricValue(tl[k], m)
            && forall k' | k < k' < |tl| :: tl[k'].timestamp != axis[j])
  {
    var ps := seq(|tl|, k requires 0 <= k < |tl| => (tl[k].timestamp, tl[k]));
    assert forall k | 0 <= k < |tl| :: ps[k] == (tl[k].timestamp, tl[k]);
    var empty: Dict<DateTime, Entry> := [];
    SetAllSpec(empty, ps);
    var u := axis[j];
    if LastWith(ps, u).None? {
      LookupMissing(empty, u);
    }
  }

  /** `'{} Total'` by default, `'{} Uniques'` for the uniques metric. */
  function Label(slug: string, m: Metric): string
  {
    slug + (if m == UniquesMetric then " Uniques" else " Total")
  }

  /** Legends tell repositories and metrics apart. */
  lemma LabelInjective(a: string, m: Metric, b: string, m': Metric)
    requires Label(a, m) == Label(b, m')
    ensures a == b && m == m'
  {
    var s := Label(a, m);
    assert s[|s| - 1] == (if m == UniquesMetric then 's' else 'l');
    assert s[|s| - 1] == (if m' == UniquesMetric then 's' else 'l');
    assert s[..|a|] == a && s[..|b|] == b;
  }

  function DatasetOf(r: RepoSummary, axis: seq<DateTime>, m: Metric, render: DateTime -> string): Dataset
  {
    Dataset(Label(r.slug, m), Points(axis, r.timeline, m, render))
  }

  // ---------------------------------------------------------------------
  // Grouping by total views

  type Group = Dict<string, RepoSummary>
  type ByCounts = Dict<int, Group>

  /** Filing a repository under its total view count and then its slug,
      creating the count's group when it is new:
      `by_counts[count][repo_slug] = repo`. */
  function AddRepo(b: ByCounts, r: RepoSummary): ByCounts
  {
    var g := match Lookup(b, r.totalViews) case None => [] case Some(g) => g;
    Set(b, r.totalViews, Set(g, r.slug, r))
  }

  function GroupAll(sel: seq<RepoSummary>): ByCounts
  {
    if |sel| == 0 then [] else AddRepo(GroupAll(sel[..|sel| - 1]), sel[|sel| - 1])
  }

  ghost predicate GroupsOk(b: ByCounts)
  {
    && UniqueKeys(b)
    && forall c | Lookup(b, c).Some? :: UniqueKeys(Lookup(b, c).value)
  }

  /** Everything filed under a count and slug is that repository. */
  ghost predicate Sound(b: ByCounts, sel: seq<RepoSummary>)
  {
    forall c, k | Lookup(b, c).Some? && Lookup(Lookup(b, c).value, k).Some? ::
      var r := Lookup(Lookup(b, c).value, k).value;
      r in sel && r.slug == k && r.totalViews == c
  }

  /** Every repository is filed under its count and slug. */
  ghost predicate Complete(b: ByCounts, sel: seq<RepoSummary>)
  {
    forall r | r in sel ::
      Lookup(b, r.totalViews).Some? && Lookup(Lookup(b, r.totalViews).value, r.slug) == Some(r)
  }

  lemma AddRepoSpec(b: ByCounts, r: RepoSummary)
    requires GroupsOk(b)
    ensures GroupsOk(AddRepo(b, r))
    ensures Lookup(AddRepo(b, r), r.totalViews).Some?
    ensures Lookup(Lookup(AddRepo(b, r), r.totalViews).value, r.slug) == Some(r)
    ensures forall k | k != r.slug ::
      Lookup(Lookup(AddRepo(b, r), r.totalViews).value, k) ==
        (match Lookup(b, r.totalViews) case None => None case Some(g) => Lookup(g, k))
    ensures forall c | c != r.totalViews :: Lookup(AddRepo(b, r), c) == Lookup(b, c)
  {
    var g := match Lookup(b, r.totalViews) case None => [] case Some(g) => g;
    SetSpec(g, r.slug, r);
    SetSpec(b, r.totalViews, Set(g, r.slug, r));
    forall k | k != r.slug
      ensures Lookup(g, k) == (match Lookup(b, r.totalViews) case None => None case Some(g) => Lookup(g, k))
    {
      if Lookup(b, r.totalViews).None? {
        LookupMissing(g, k);
      }
    }
  }

  /** Grouping files every charted repository under its count and slug,
      and nothing else. */
  lemma {:induction false} GroupAllSpec(sel: seq<RepoSummary>)
    requires DistinctSlugs(sel)
    ensures GroupsOk(GroupAll(sel))
    ensures Sound(GroupAll(sel), sel)
    ensures Complete(GroupAll(sel), sel)
  {
    if |sel| > 0 {
      var init := sel[..|sel| - 1];
      var r := sel[|sel| - 1];
      assert DistinctSlugs(init);
      GroupAllSpec(init);
      assert sel == init + [r];
      assert forall x | x in init :: x.slug != r.slug;
      AddRepoStep(GroupAll(init), init, r);
    }
  }

  /** Filing one more repository, whose slug is new, keeps the grouping
      sound and complete. */
  lemma AddRepoStep(b: ByCounts, init: seq<RepoSummary>, r: RepoSummary)
    requires GroupsOk(b) && Sound(b, init) && Complete(b, init)
    requires forall x | x in init :: x.slug != r.slug
    ensures GroupsOk(AddRepo(b, r))
    ensures Sound(AddRepo(b, r), init + [r])
    ensures Complete(AddRepo(b, r), init + [r])
  {
    var b' := AddRepo(b, r);
    var sel := init + [r];
    AddRepoSpec(b, r);
    forall c | Lookup(b', c).Some?
      ensures UniqueKeys(Lookup(b', c).value)
    {
      if c == r.totalViews {
        var g := match Lookup(b, r.totalViews) case None => [] case Some(g) => g;
        SetSpec(g, r.slug, r);
        SetSpec(b, r.totalViews, Set(g, r.slug, r));
      }
    }
    forall c, k | Lookup(b', c).Some? && Lookup(Lookup(b', c).value, k).Some?
      ensures var x := Lookup(Lookup(b', c).value, k).value; x in sel && x.slug == k && x.totalViews == c
    {
      if c != r.totalViews || k != r.slug {
        assert Lookup(b, c).Some? && Lookup(Lookup(b, c).value, k) == Lookup(Lookup(b', c).value, k);
      }
    }
    forall x | x in sel
      ensures Lookup(b', x.totalViews).Some? && Lookup(Lookup(b', x.totalViews).value, x.slug) == Some(x)
    {
      if x != r {
        assert x in init;
      }
    }
  }

  // ---------------------------------------------------------------------
  // All datasets

  /** The datasets of one group, for the slugs `ks` in order. */
  function GroupDatasets(g: Group, ks: seq<string>, axis: seq<DateTime>, m: Metric, render: DateTime -> string)
    : (ds: seq<Dataset>)
    ensures forall d :: d in ds <==>
      exists j | 0 <= j < |ks| :: Lookup(g, ks[j]).Some? && d == DatasetOf(Lookup(g, ks[j]).value, axis, m, render)
  {
    if |ks| == 0 then []
    else
      var rest := GroupDatasets(g, ks[1..], axis, m, render);
      assert forall j | 1 <= j < |ks| :: ks[j] == ks[1..][j - 1];
      var first := match Lookup(g, ks[0]) case None => [] case Some(r) => [DatasetOf(r, axis, m, render)];
      first + rest
  }

  /** The datasets of every group, groups in the order their counts were
      first filed and, within a group, slugs in sorted order
      (`for count, _repos in by_counts.items(): for repo_slug in sorted(...)`). */
  function AllDatasets(b: ByCounts, axis: seq<DateTime>, m: Metric, render: DateTime -> string)
    : (ds: seq<Dataset>)
    ensures forall d :: d in ds <==>
      exists i, k | 0 <= i < |b| && HasKey(b[i].1, k) :: d == DatasetOf(Lookup(b[i].1, k).value, axis, m, render)
  {
    if |b| == 0 then []
    else
      var g := b[0].1;
      var ks := SortStrings(KeysOf(g));
      var first := GroupDatasets(g, ks, axis, m, render);
      var rest := AllDatasets(b[1..], axis, m, render);
      GroupDatasetsKeys(g, ks, axis, m, render);
      assert forall i | 1 <= i < |b| :: b[i] == b[1..][i - 1];
      first + rest
  }

  /** Over the sorted keys of a group, the datasets are those of its entries. */
  lemma GroupDatasetsKeys(g: Group, ks: seq<string>, axis: seq<DateTime>, m: Metric, render: DateTime -> string)
    requires multiset(ks) == multiset(KeysOf(g))
    ensures forall d :: d in GroupDatasets(g, ks, axis, m, render) <==>
      exists k | HasKey(g, k) :: d == DatasetOf(Lookup(g, k).value, axis, m, render)
  {
    forall k
      ensures k in ks <==> HasKey(g, k)
    {
      assert k in ks <==> k in multiset(ks);
      assert k in KeysOf(g) <==> k in multiset(KeysOf(g));
    }
    LookupKeys(g);
  }

  lemma LookupKeys(g: Group)
    ensures forall k :: HasKey(g, k) <==> Lookup(g, k).Some?
  {
    forall k
      ensures HasKey(g, k) <==> Lookup(g, k).Some?
    {
      LookupSomeIff(g, k);
    }
  }

  /** `get_traffic_chart_data`, dataset part: timestamps rendered with `dt_to_str`. */
  function ChartData(repos: seq<RepoSummary>, m: Metric, limit: int): seq<Dataset>
  {
    var sel := Selected(repos, limit);
    AllDatasets(GroupAll(sel), Axis(sel), m, DtToStr)
  }

  /** With distinct slugs, the chart has one dataset per charted repository
      and nothing else, each aligned to the common axis: as many datasets
      as charted repositories, none repeated. */
  lemma ChartDataSpec(repos: seq<RepoSummary>, m: Metric, limit: int)
    requires DistinctSlugs(repos)
    ensures var sel := Selected(repos, limit);
      var chart := ChartData(repos, m, limit);
      && (forall d | d in chart :: exists r | r in sel :: d == DatasetOf(r, Axis(sel), m, DtToStr))
      && (forall r | r in sel :: DatasetOf(r, Axis(sel), m, DtToStr) in chart)
      && |chart| == |sel|
      && Distinct(chart)
  {
    var sel := Selected(repos, limit);
    SelectedSpec(repos, limit);
    DistinctPrefix(repos, Shown(|repos|, limit));
    WithViewsDistinct(repos[..Shown(|repos|, limit)]);
    GroupAllSpec(sel);
    GroupAllTotal(sel);
    DatasetsOfGroups(GroupAll(sel), sel, Axis(sel), m, DtToStr);
    DatasetsOnce(GroupAll(sel), sel, Axis(sel), m, DtToStr);
  }

  /** The datasets of a sound and complete grouping are those of the
      grouped repositories. */
  lemma DatasetsOfGroups(b: ByCounts, sel: seq<RepoSummary>, axis: seq<DateTime>, m: Metric, render: DateTime -> string)
    requires GroupsOk(b) && Sound(b, sel) && Complete(b, sel)
    ensures forall d | d in AllDatasets(b, axis, m, render) :: exists r | r in sel :: d == DatasetOf(r, axis, m, render)
    ensures forall r | r in sel :: DatasetOf(r, axis, m, render) in AllDatasets(b, axis, m, render)
  {
    var chart := AllDatasets(b, axis, m, render);
    forall d | d in chart
      ensures exists r | r in sel :: d == DatasetOf(r, axis, m, render)
    {
      var i, k :| 0 <= i < |b| && HasKey(b[i].1, k) && d == DatasetOf(Lookup(b[i].1, k).value, axis, m, render);
      LookupAt(b, i);
      LookupSomeIff(b[i].1, k);
      var r := Lookup(Lookup(b, b[i].0).value, k).value;
      assert r in sel;
    }
    forall r | r in sel
      ensures DatasetOf(r, axis, m, render) in chart
    {
      var g := Lookup(b, r.totalViews).value;
      var i := Find(b, r.totalViews).value;
      assert b[i].1 == g;
      LookupSomeIff(g, r.slug);
    }
  }

  // ---------------------------------------------------------------------
  // Counting the datasets

  /** How many repositories a grouping files, over all its groups. */
  function Total(b: ByCounts): nat
  {
    if |b| == 0 then 0 else |b[0].1| + Total(b[1..])
  }

  lemma {:induction false} TotalAppend(b: ByCounts, x: (int, Group))
    ensures Total(b + [x]) == Total(b) + |x.1|
  {
    if |b| > 0 {
      assert (b + [x])[1..] == b[1..] + [x];
      TotalAppend(b[1..], x);
    }
  }

  lemma {:induction false} TotalUpdate(b: ByCounts, i: nat, x: (int, Group))
    requires i < |b|
    ensures Total(b[i := x]) == Total(b) - |b[i].1| + |x.1|
  {
    if i > 0 {
      assert b[i := x][1..] == b[1..][i - 1 := x];
      TotalUpdate(b[1..], i - 1, x);
    }
  }

  /** Filing a repository whose slug its count's group lacks files one more. */
  lemma AddRepoTotal(b: ByCounts, r: RepoSummary)
    requires Lookup(b, r.totalViews).Some? ==> !HasKey(Lookup(b, r.totalViews).value, r.slug)
    ensures Total(AddRepo(b, r)) == Total(b) + 1
  {
    var g := match Lookup(b, r.totalViews) case None => [] case Some(g) => g;
    assert Find(g, r.slug).None?;
    var g' := Set(g, r.slug, r);
    assert |g'| == |g| + 1;
    match Find(b, r.totalViews)
    case None =>
      TotalAppend(b, (r.totalViews, g'));
    case Some(i) =>
      TotalUpdate(b, i, (r.totalViews, g'));
  }

  /** With distinct slugs, the grouping files each repository exactly once. */
  lemma {:induction false} GroupAllTotal(sel: seq<RepoSummary>)
    requires DistinctSlugs(sel)
    ensures Total(GroupAll(sel)) == |sel|
  {
    if |sel| > 0 {
      var init := sel[..|sel| - 1];
      var r := sel[|sel| - 1];
      assert DistinctSlugs(init);
      GroupAllTotal(init);
      GroupAllSpec(init);
      var b := GroupAll(init);
      assert forall x | x in init :: x.slug != r.slug;
      if Lookup(b, r.totalViews).Some? {
        var g := Lookup(b, r.totalViews).value;
        assert Lookup(g, r.slug).None?;
        LookupSomeIff(g, r.slug);
      }
      AddRepoTotal(b, r);
    }
  }

  /** Over slugs that are all keys of the group, one dataset per slug. */
  lemma {:induction false} GroupDatasetsLength(g: Group, ks: seq<string>, axis: seq<DateTime>, m: Metric, render: DateTime -> string)
    requires forall j | 0 <= j < |ks| :: Lookup(g, ks[j]).Some?
    ensures |GroupDatasets(g, ks, axis, m, render)| == |ks|
  {
    if |ks| > 0 {
      assert forall j | 0 <= j < |ks| - 1 :: ks[1..][j] == ks[j + 1];
      GroupDatasetsLength(g, ks[1..], axis, m, render);
    }
  }

  /** The datasets of a grouping are as many as the repositories it files. */
  lemma {:induction false} AllDatasetsLength(b: ByCounts, axis: seq<DateTime>, m: Metric, render: DateTime -> string)
    ensures |AllDatasets(b, axis, m, render)| == Total(b)
  {
    if |b| > 0 {
      var g := b[0].1;
      var ks := SortStrings(KeysOf(g));
      forall j | 0 <= j < |ks|
        ensures Lookup(g, ks[j]).Some?
      {
        assert ks[j] in multiset(KeysOf(g));
        LookupSomeIff(g, ks[j]);
      }
      assert |ks| == |multiset(ks)| == |g|;
      GroupDatasetsLength(g, ks, axis, m, render);
      AllDatasetsLength(b[1..], axis, m, render);
    }
  }

  /** The values a sequence holds. */
  function Elements<T>(xs: seq<T>): set<T>
  {
    set x | x in xs
  }

  /** A sequence holds as many values as it has positions exactly when
      none repeats. */
  lemma {:induction false} ElementsCard<T>(xs: seq<T>)
    ensures |Elements(xs)| <= |xs|
    ensures |Elements(xs)| == |xs| <==> Distinct(xs)
  {
    if |xs| > 0 {
      var init := xs[..|xs| - 1];
      var last := xs[|xs| - 1];
      assert xs == init + [last];
      assert Elements(xs) == Elements(init) + {last};
      ElementsCard(init);
      if last !in init {
        assert |Elements(xs)| == |Elements(init)| + 1;
        if Distinct(xs) {
          assert Distinct(init);
        } else {
          var i, j :| 0 <= i < j < |xs| && xs[i] == xs[j];
          assert xs[i] in init;
        }
      } else {
        assert Elements(xs) == Elements(init);
      }
    }
  }

  /** When `xs` has as many positions as the duplicate-free `ys` and holds
      all of its values, nothing in `xs` repeats. */
  lemma Pigeonhole<T>(xs: seq<T>, ys: seq<T>)
    requires Distinct(ys) && |xs| == |ys|
    requires forall y | y in ys :: y in xs
    ensures Distinct(xs)
  {
    ElementsCard(xs);
    ElementsCard(ys);
    var a, b := Elements(ys), Elements(xs);
    assert a <= b;
    assert b == a + (b - a) && a !! (b - a);
    assert |b| == |a| + |b - a|;
  }

  /** With distinct slugs, a sound and complete grouping that files each
      repository once yields each dataset once. */
  lemma DatasetsOnce(b: ByCounts, sel: seq<RepoSummary>, axis: seq<DateTime>, m: Metric, render: DateTime -> string)
    requires GroupsOk(b) && Sound(b, sel) && Complete(b, sel)
    requires DistinctSlugs(sel) && Total(b) == |sel|
    ensures |AllDatasets(b, axis, m, render)| == |sel|
    ensures Distinct(AllDatasets(b, axis, m, render))
  {
    var chart := AllDatasets(b, axis, m, render);
    AllDatasetsLength(b, axis, m, render);
    DatasetsOfGroups(b, sel, axis, m, render);
    var ys := seq(|sel|, i requires 0 <= i < |sel| => DatasetOf(sel[i], axis, m, render));
    forall i, j | 0 <= i < j < |ys|
      ensures ys[i] != ys[j]
    {
      if ys[i].legend == ys[j].legend {
        LabelInjective(sel[i].slug, m, sel[j].slug, m);
      }
    }
    forall y | y in ys
      ensures y in chart
    {
      var i :| 0 <= i < |ys| && ys[i] == y;
      assert sel[i] in sel;
    }
    Pigeonhole(chart, ys);
  }

  lemma DistinctPrefix(xs: seq<RepoSummary>, n: nat)
    requires DistinctSlugs(xs) && n <= |xs|
    ensures DistinctSlugs(xs[..n])
  {
  }
}

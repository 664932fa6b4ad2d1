/** The ingester's state of one user: the series in memory by fingerprint, the inverted index,
    the collision mapper and the count of series of each metric name. */
module UserStates {
  import opened ByteStrings
  import opened SortedLists
  import opened Schema
  import opened Matchers
  import opened MetricStrings
  import opened InvertedIndex
  import opened Mapper

  type Counts = map<Bytes, int>

  function CountAt(counts: Counts, name: Bytes): int {
    if name in counts then counts[name] else 0
  }

  /** The series in memory with a metric name. */
  ghost function SeriesNamed(live: Live, name: Bytes): set<Fp> {
    set fp | fp in live && METRIC_NAME in live[fp] && live[fp][METRIC_NAME] == name
  }

  /** The counts are the true ones, and none is kept at zero. */
  ghost predicate TrueCounts(counts: Counts, live: Live) {
    forall name :: CountAt(counts, name) == |SeriesNamed(live, name)| && (name in counts ==> counts[name] > 0)
  }

  /** Neither limit is exceeded. */
  ghost predicate WithinLimits(live: Live, perUser: int, perMetric: int) {
    (|live| == 0 || |live| <= perUser) && forall name :: |SeriesNamed(live, name)| == 0 || |SeriesNamed(live, name)| <= perMetric
  }

  ghost predicate AllNamed(live: Live) {
    forall fp :: fp in live ==> METRIC_NAME in live[fp]
  }

  lemma OneMoreSeries(live: Live, fp: Fp, m: Metric)
    requires fp !in live && METRIC_NAME in m
    ensures |live[fp := m]| == |live| + 1
    ensures forall name :: |SeriesNamed(live[fp := m], name)| == |SeriesNamed(live, name)| + if name == m[METRIC_NAME] then 1 else 0
  {
    forall name
      ensures |SeriesNamed(live[fp := m], name)| == |SeriesNamed(live, name)| + if name == m[METRIC_NAME] then 1 else 0
    {
      NamedAfter(live, fp, m, name);
    }
  }

  lemma NamedAfter(live: Live, fp: Fp, m: Metric, name: Bytes)
    requires fp !in live && METRIC_NAME in m
    ensures SeriesNamed(live[fp := m], name) == if name == m[METRIC_NAME] then SeriesNamed(live, name) + {fp} else SeriesNamed(live, name)
  {
  }

  lemma OneSeriesLess(live: Live, fp: Fp)
    requires fp in live && METRIC_NAME in live[fp]
    ensures |live - {fp}| == |live| - 1
    ensures forall name :: |SeriesNamed(live - {fp}, name)| == |SeriesNamed(live, name)| - if name == live[fp][METRIC_NAME] then 1 else 0
  {
    assert (live - {fp})[fp := live[fp]] == live;
    OneMoreSeries(live - {fp}, fp, live[fp]);
  }

  /** Every series has a name, the counts are true and the limits kept. */
  ghost predicate Books(counts: Counts, live: Live, perUser: int, perMetric: int) {
    AllNamed(live) && TrueCounts(counts, live) && WithinLimits(live, perUser, perMetric)
  }

  /** Counting a new series keeps the counts true. */
  lemma CountsGrow(counts: Counts, live: Live, fp: Fp, m: Metric)
    requires TrueCounts(counts, live) && fp !in live && METRIC_NAME in m
    ensures TrueCounts(counts[m[METRIC_NAME] := CountAt(counts, m[METRIC_NAME]) + 1], live[fp := m])
  {
    OneMoreSeries(live, fp, m);
    var counts' := counts[m[METRIC_NAME] := CountAt(counts, m[METRIC_NAME]) + 1];
    forall name ensures CountAt(counts', name) == |SeriesNamed(live[fp := m], name)| && (name in counts' ==> counts'[name] > 0) {
      assert CountAt(counts, name) == |SeriesNamed(live, name)|;
    }
  }

  /** A new series below the limits keeps the limits. */
  lemma Created(counts: Counts, live: Live, fp: Fp, m: Metric, perUser: int, perMetric: int)
    requires Books(counts, live, perUser, perMetric)
    requires fp !in live && METRIC_NAME in m && |live| < perUser && CountAt(counts, m[METRIC_NAME]) < perMetric
    ensures Books(counts[m[METRIC_NAME] := CountAt(counts, m[METRIC_NAME]) + 1], live[fp := m], perUser, perMetric)
  {
    CountsGrow(counts, live, fp, m);
    var live' := live[fp := m];
    OneMoreSeries(live, fp, m);
    assert CountAt(counts, m[METRIC_NAME]) == |SeriesNamed(live, m[METRIC_NAME])|;
    forall name ensures |SeriesNamed(live', name)| == 0 || |SeriesNamed(live', name)| <= perMetric {
      assert |SeriesNamed(live, name)| == 0 || |SeriesNamed(live, name)| <= perMetric;
    }
  }

  /** Uncounting a series. */
  lemma Removed(counts: Counts, live: Live, fp: Fp, perUser: int, perMetric: int)
    requires Books(counts, live, perUser, perMetric) && fp in live
    ensures Books(Uncounted(counts, live[fp][METRIC_NAME]), live - {fp}, perUser, perMetric)
  {
    var live', gone := live - {fp}, live[fp][METRIC_NAME];
    OneSeriesLess(live, fp);
    forall name ensures CountAt(Uncounted(counts, gone), name) == |SeriesNamed(live', name)| {
      assert CountAt(counts, name) == |SeriesNamed(live, name)|;
    }
    forall name ensures |SeriesNamed(live', name)| == 0 || |SeriesNamed(live', name)| <= perMetric {
      assert |SeriesNamed(live, name)| == 0 || |SeriesNamed(live, name)| <= perMetric;
    }
  }

  function Uncounted(counts: Counts, name: Bytes): Counts {
    var n := CountAt(counts, name) - 1;
    if n == 0 then counts - {name} else counts[name := n]
  }

  /** The series in memory, the index, the mapper and the counts agree. */
  ghost predicate Sound(idx: Idx, mappings: Mappings, highest: nat, raw: Metric -> Fp, live: Live,
                        counts: Counts, perUser: int, perMetric: int) {
    Agrees(idx, live) && Resolved(mappings, highest, raw, live) && Books(counts, live, perUser, perMetric)
  }

  lemma HasName(live: Live, fp: Fp)
    requires AllNamed(live) && fp in live
    ensures METRIC_NAME in live[fp]
  {
  }

  lemma SoundAfterRemoval(idx: Idx, idx': Idx, mappings: Mappings, highest: nat, raw: Metric -> Fp, live: Live, fp: Fp,
                          counts: Counts, perUser: int, perMetric: int)
    requires Sound(idx, mappings, highest, raw, live, counts, perUser, perMetric)
    requires fp in live && METRIC_NAME in live[fp] && Agrees(idx', live - {fp})
    ensures Sound(idx', mappings, highest, raw, live - {fp}, Uncounted(counts, live[fp][METRIC_NAME]), perUser, perMetric)
  {
    Removed(counts, live, fp, perUser, perMetric);
    PlacesChange(mappings, raw, live, fp, live[fp]);
  }

  /** What a request for the series of a metric gives. */
  datatype Got =
    | Series(fp: Fp)
    | ErrUserSeriesLimit
    | ErrNoMetricName
    | ErrMetricSeriesLimit
    | Panicked

  /** What the limits say of a metric that is not in memory. */
  ghost predicate Admitted(live: Live, m: Metric, perUser: int, perMetric: int, r: Got) {
    if |live| >= perUser then r == ErrUserSeriesLimit
    else if METRIC_NAME !in m then r == ErrNoMetricName
    else if |SeriesNamed(live, m[METRIC_NAME])| >= perMetric then r == ErrMetricSeriesLimit
    else r.Series?
  }

  class UserState {
    const raw: Metric -> Fp
    const maxSeriesPerUser: int
    const maxSeriesPerMetric: int
    const index: Index
    const mapper: FpMapper
    var fpToSeries: Live
    var seriesInMetric: Counts

    ghost predicate Valid()
      reads this, index, mapper
    {
      Sound(index.idx, mapper.mappings, mapper.highestMappedFP, raw, fpToSeries, seriesInMetric, maxSeriesPerUser, maxSeriesPerMetric)
    }

    constructor (raw: Metric -> Fp, maxSeriesPerUser: int, maxSeriesPerMetric: int)
      ensures Valid() && fpToSeries == map[] && fresh(index) && fresh(mapper)
      ensures this.raw == raw && mapper.mappings == map[] && mapper.highestMappedFP == 0
      ensures this.maxSeriesPerUser == maxSeriesPerUser && this.maxSeriesPerMetric == maxSeriesPerMetric
    {
      this.raw := raw;
      this.maxSeriesPerUser, this.maxSeriesPerMetric := maxSeriesPerUser, maxSeriesPerMetric;
      index := new Index();
      mapper := new FpMapper();
      fpToSeries, seriesInMetric := map[], map[];
      new;
      assert forall name :: SeriesNamed(map[], name) == {};
    }

    /** canAddSeriesFor: counts one more series unless the metric name is at its limit. */
    method CanAddSeriesFor(name: Bytes) returns (ok: bool)
      modifies this`seriesInMetric
      ensures ok == (CountAt(old(seriesInMetric), name) < maxSeriesPerMetric)
      ensures seriesInMetric == if ok then old(seriesInMetric)[name := CountAt(old(seriesInMetric), name) + 1] else old(seriesInMetric)
    {
      if CountAt(seriesInMetric, name) >= maxSeriesPerMetric {
        return false;
      }
      seriesInMetric := seriesInMetric[name := CountAt(seriesInMetric, name) + 1];
      ok := true;
    }

    /** unlockedGet: finds or creates the series of a metric. A metric in memory gets its own
        series; one that is not is refused for the first limit it meets, or put in memory, unless it
        is given the series of a twin; which does not happen without the separator in values. */
    method UnlockedGet(metric: Metric) returns (r: Got)
      requires Valid() && CleanNames(metric)
      modifies this, index, mapper
      ensures !r.Panicked? ==> Valid()
      ensures r.Panicked? <==> old(mapper.NeedsMapping(raw(metric), metric, fpToSeries)) && old(mapper.highestMappedFP) == MAX_MAPPED
      ensures r.Series? ==> r.fp in fpToSeries && Twins(raw, fpToSeries[r.fp], metric)
      ensures r.Series? && Clean(metric) && Clean(fpToSeries[r.fp]) ==> fpToSeries[r.fp] == metric
      ensures r.Series? && fpToSeries[r.fp] != metric <==> old(Borrows(mapper.mappings, raw(metric), fpToSeries, metric))
      ensures forall f :: f in old(fpToSeries) && old(fpToSeries)[f] == metric ==> r == Series(f)
      ensures (r.Series? && r.fp in old(fpToSeries)) || r.Panicked? || Admitted(old(fpToSeries), metric, maxSeriesPerUser, maxSeriesPerMetric, r)
      ensures fpToSeries == if r.Series? && r.fp !in old(fpToSeries) then old(fpToSeries)[r.fp := metric] else old(fpToSeries)
      ensures !r.Panicked? && Clean(metric) && old(AtHome(mapper.mappings, raw, fpToSeries)) ==> AtHome(mapper.mappings, raw, fpToSeries)
      ensures mapper.highestMappedFP == old(mapper.highestMappedFP) + if old(mapper.NeedsMapping(raw(metric), metric, fpToSeries)) then 1 else 0
    {
      var mapped := mapper.MapFP(raw(metric), metric, raw, fpToSeries);
      if mapped.None? {
        return Got.Panicked;
      }
      var fp := mapped.value;
      if fp in fpToSeries {
        return Series(fp);
      }
      HomesChange(mapper.mappings, raw, fpToSeries, fp, metric);
      r := Create(fp, metric);
    }

    /** The rest of unlockedGet, for a metric that is not in memory. */
    method Create(fp: Fp, metric: Metric) returns (r: Got)
      requires Valid() && fp !in fpToSeries && MayBeAt(mapper.mappings, raw(metric), metric, fp) && !InMemory(fpToSeries, metric)
      modifies this, index
      ensures Valid() && Admitted(old(fpToSeries), metric, maxSeriesPerUser, maxSeriesPerMetric, r)
      ensures r.Series? ==> r.fp == fp
      ensures fpToSeries == if r.Series? then old(fpToSeries)[fp := metric] else old(fpToSeries)
    {
      if |fpToSeries| >= maxSeriesPerUser {
        return ErrUserSeriesLimit;
      }
      if METRIC_NAME !in metric {
        return ErrNoMetricName;
      }
      Counted(metric[METRIC_NAME]);
      ghost var counts := seriesInMetric;
      var ok := CanAddSeriesFor(metric[METRIC_NAME]);
      if !ok {
        return ErrMetricSeriesLimit;
      }
      AddSeries(fp, metric, counts);
      r := Series(fp);
    }

    lemma Counted(name: Bytes)
      requires TrueCounts(seriesInMetric, fpToSeries)
      ensures CountAt(seriesInMetric, name) == |SeriesNamed(fpToSeries, name)|
    {
    }

    /** The end of unlockedGet: puts in a new series that has just been counted. */
    method AddSeries(fp: Fp, metric: Metric, ghost counts: Counts)
      requires Agrees(index.idx, fpToSeries) && mapper.Valid(raw, fpToSeries)
      requires Books(counts, fpToSeries, maxSeriesPerUser, maxSeriesPerMetric)
      requires fp !in fpToSeries && MayBeAt(mapper.mappings, raw(metric), metric, fp) && !InMemory(fpToSeries, metric)
      requires METRIC_NAME in metric && |fpToSeries| < maxSeriesPerUser && CountAt(counts, metric[METRIC_NAME]) < maxSeriesPerMetric
      requires seriesInMetric == counts[metric[METRIC_NAME] := CountAt(counts, metric[METRIC_NAME]) + 1]
      modifies this`fpToSeries, index
      ensures Valid() && fpToSeries == old(fpToSeries)[fp := metric]
    {
      Created(counts, fpToSeries, fp, metric, maxSeriesPerUser, maxSeriesPerMetric);
      PlacesChange(mapper.mappings, raw, fpToSeries, fp, metric);
      index.Add(metric, fp, fpToSeries);
      fpToSeries := fpToSeries[fp := metric];
    }

    /** removeSeries, of a series in memory. */
    method RemoveSeries(fp: Fp, metric: Metric)
      requires Valid() && fp in fpToSeries && fpToSeries[fp] == metric
      modifies this`fpToSeries, this`seriesInMetric, index
      ensures Valid() && fpToSeries == old(fpToSeries) - {fp}
      ensures old(AtHome(mapper.mappings, raw, fpToSeries)) ==> AtHome(mapper.mappings, raw, fpToSeries)
    {
      ghost var idx, live := index.idx, fpToSeries;
      HasName(fpToSeries, fp);
      HomesChange(mapper.mappings, raw, fpToSeries, fp, metric);
      index.Delete(metric, fp, fpToSeries);
      SoundAfterRemoval(idx, index.idx, mapper.mappings, mapper.highestMappedFP, raw, live, fp,
                        seriesInMetric, maxSeriesPerUser, maxSeriesPerMetric);
      fpToSeries := fpToSeries - {fp};
      seriesInMetric := Uncounted(seriesInMetric, metric[METRIC_NAME]);
    }

    /** forSeriesMatching: the series that satisfy every matcher are visited once each, in
        fingerprint order, up to the first on which the callback fails; but no series at all is
        visited when every matcher also accepts a missing label. */
    method ForSeriesMatching(all: seq<Matcher>, fails: Fp -> bool) returns (visited: seq<Fp>)
      requires Agrees(index.idx, fpToSeries)
      ensures Increasing(visited)
      ensures forall k :: 0 <= k < |visited| - 1 ==> !fails(visited[k])
      ensures forall fp :: fp in visited ==> Asked(fpToSeries, all, fp)
      ensures forall fp :: Asked(fpToSeries, all, fp) ==>
                fp in visited || (visited != [] && fails(visited[|visited| - 1]) && visited[|visited| - 1] < fp)
    {
      var filters, matchers := SplitFiltersAndMatchers(all);
      var fps := index.Lookup(matchers, fpToSeries);
      LookupMeans(fpToSeries, all, fps);
      visited := Visit(fps, fpToSeries, filters, fails);
    }
  }

  /** Of any two metrics with one string whose raw fingerprint is the same and reserved, the second
      is given the series of the first. */
  method TwinsShare(m: Metric, m': Metric, fp: Fp) returns (first: Got, second: Got)
    requires CleanNames(m) && CleanNames(m') && UniqueString(m) == UniqueString(m') && m != m'
    requires METRIC_NAME in m && fp <= MAX_MAPPED
    ensures first.Series? && second == first
  {
    var state;
    state, first := FirstSeries(m, fp);
    ghost var mappings := state.mapper.mappings;
    assert MayBeAt(mappings, fp, state.fpToSeries[first.fp], first.fp);
    assert Borrows(mappings, fp, state.fpToSeries, m');
    second := state.UnlockedGet(m');
  }

  /** A new state with the series of one metric. */
  method FirstSeries(m: Metric, fp: Fp) returns (state: UserState, r: Got)
    requires CleanNames(m) && METRIC_NAME in m && fp <= MAX_MAPPED
    ensures fresh(state) && fresh(state.index) && fresh(state.mapper) && state.Valid() && state.raw(m) == fp
    ensures (forall x :: state.raw(x) == fp) && r.Series? && state.fpToSeries == map[r.fp := m]
  {
    state := new UserState((x: Metric) => fp, 1, 1);
    assert SeriesNamed(map[], m[METRIC_NAME]) == {};
    r := state.UnlockedGet(m);
  }

  /** Two such metrics, for any values. */
  lemma SomeTwins(x: Bytes, y: Bytes)
    ensures var m, m' := map[METRIC_NAME := x + [SEPARATOR] + Part([98], y)], map[METRIC_NAME := x, [98] := y];
            CleanNames(m) && CleanNames(m') && UniqueString(m) == UniqueString(m') && m != m' && METRIC_NAME in m && METRIC_NAME in m'
  {
    assert Less(Part(METRIC_NAME, x), Part([98], y)) && |[98]| != |METRIC_NAME|;
    SeparatorConfuses(METRIC_NAME, [98], x, y);
  }

  /** The series satisfies every matcher, and some matcher rejects a missing label. */
  ghost predicate Asked(live: Live, all: seq<Matcher>, fp: Fp) {
    NonFilters(all) != [] && fp in live && MatchesAll(live[fp], all)
  }

  lemma LookupMeans(live: Live, all: seq<Matcher>, fps: seq<Fp>)
    requires forall fp :: fp in fps <==> NonFilters(all) != [] && fp in live && PassesAll(live[fp], NonFilters(all))
    ensures forall fp :: fp in fps ==> fp in live
    ensures forall fp :: Asked(live, all, fp) <==> fp in fps && MatchesAll(live[fp], Filters(all))
  {
    forall fp | fp in live ensures Asked(live, all, fp) <==> fp in fps && MatchesAll(live[fp], Filters(all)) {
      SplitKeepsMeaning(live[fp], all);
      NonFiltersNeedLabels(live[fp], all);
    }
  }

  /** The loop of forSeriesMatching over the fingerprints that were looked up. */
  method Visit(fps: seq<Fp>, live: Live, filters: seq<Matcher>, fails: Fp -> bool) returns (visited: seq<Fp>)
    requires Increasing(fps) && forall fp :: fp in fps ==> fp in live
    ensures Increasing(visited) && forall k :: 0 <= k < |visited| - 1 ==> !fails(visited[k])
    ensures forall fp :: fp in visited ==> fp in fps && MatchesAll(live[fp], filters)
    ensures forall fp :: fp in fps && MatchesAll(live[fp], filters) ==>
              fp in visited || (visited != [] && fails(visited[|visited| - 1]) && visited[|visited| - 1] < fp)
  {
    visited := [];
    for k := 0 to |fps|
      invariant Increasing(visited) && forall j :: 0 <= j < |visited| ==> !fails(visited[j])
      invariant forall fp :: fp in visited <==> fp in fps[..k] && MatchesAll(live[fp], filters)
    {
      var fp := fps[k];
      assert fps[..k + 1] == fps[..k] + [fp];
      if MatchesAll(live[fp], filters) {
        forall x | x in visited ensures x < fp {
          var j :| 0 <= j < k && fps[j] == x;
          assert FpBefore(fps[j], fps[k]);
        }
        SortedAppend(FpBefore, visited, fp);
        visited := visited + [fp];
        if fails(fp) {
          forall x | x in fps && x !in fps[..k + 1] ensures fp < x {
            var j :| 0 <= j < |fps| && fps[j] == x;
            assert FpBefore(fps[k], fps[j]);
          }
          return;
        }
      }
    }
    assert fps[..|fps|] == fps;
  }

  /** A matcher that rejects the missing label passes exactly the series that have the label. */
  lemma NonFiltersNeedLabels(metric: Metric, all: seq<Matcher>)
    ensures MatchesAll(metric, NonFilters(all)) <==> PassesAll(metric, NonFilters(all))
  {
    var ms := NonFilters(all);
    forall k | 0 <= k < |ms| ensures ms[k].Match(ValueOf(metric, ms[k].name)) <==> Passes(metric, ms[k]) {
      assert !ms[k].IsFilter();
    }
  }
}

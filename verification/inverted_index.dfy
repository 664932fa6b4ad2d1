/** The ingester's inverted index: for every label name and value, the fingerprints of the
    series in memory that have it, in order. */
module InvertedIndex {
  import opened ByteStrings
  import opened SortedLists
  import opened Schema
  import opened Matchers
  import Storage

  type Fp = nat

  /** The metrics of the series in memory. */
  type Live = map<Fp, Metric>

  type Values = map<Bytes, seq<Fp>>
  type Idx = map<Bytes, Values>

  predicate FpBefore(a: Fp, b: Fp) {
    a < b
  }

  ghost predicate Increasing(s: seq<Fp>) {
    Sorted(FpBefore, s)
  }

  function ValuesOf(idx: Idx, n: Bytes): Values {
    if n in idx then idx[n] else map[]
  }

  function FpsAt(values: Values, v: Bytes): seq<Fp> {
    if v in values then values[v] else []
  }

  /** The lists are in order, and no list and no map of lists is kept empty. */
  ghost predicate Tidy(idx: Idx) {
    && (forall n :: n in idx ==> idx[n] != map[])
    && (forall n, v :: n in idx && v in idx[n] ==> idx[n][v] != [] && Increasing(idx[n][v]))
  }

  ghost predicate HasLabel(live: Live, fp: Fp, n: Bytes, v: Bytes) {
    fp in live && n in live[fp] && live[fp][n] == v
  }

  /** The index is exactly what the series in memory say. */
  ghost predicate Agrees(idx: Idx, live: Live) {
    && Tidy(idx)
    && forall n, v, fp :: fp in FpsAt(ValuesOf(idx, n), v) <==> HasLabel(live, fp, n, v)
  }

  // -------------------------------------------------- adding and deleting

  /** Where a fingerprint is, or belongs. */
  method Place(fps: seq<Fp>, fp: Fp) returns (j: nat)
    requires Increasing(fps)
    ensures j <= |fps| && forall k :: 0 <= k < |fps| ==> (fps[k] < fp <==> k < j)
  {
    var f := (k: int) requires 0 <= k < |fps| => fps[k] >= fp;
    j := Storage.Search(|fps|, f);
    forall k | 0 <= k < |fps| ensures fps[k] < fp <==> k < j {
      assert f(k) == (fps[k] >= fp);
    }
  }

  method Insert(fps: seq<Fp>, fp: Fp) returns (r: seq<Fp>)
    requires Increasing(fps) && fp !in fps
    ensures Increasing(r) && r != [] && forall x :: x in r <==> x in fps || x == fp
  {
    var j := Place(fps, fp);
    r := fps[..j] + [fp] + fps[j..];
    assert fps == fps[..j] + fps[j..];
  }

  method Remove(fps: seq<Fp>, fp: Fp) returns (r: seq<Fp>)
    requires Increasing(fps) && fp in fps
    ensures Increasing(r) && forall x :: x in r <==> x in fps && x != fp
  {
    var j := Place(fps, fp);
    var at :| 0 <= at < |fps| && fps[at] == fp;
    assert at >= j && (at > j ==> FpBefore(fps[j], fps[at]));
    r := fps[..j] + fps[j + 1..];
    assert fps == fps[..j] + [fp] + fps[j + 1..];
  }

  /** Giving a series one more label changes one list. */
  lemma OneMoreLabel(idx: Idx, live: Live, fp: Fp, n: Bytes, v: Bytes, fps: seq<Fp>)
    requires Agrees(idx, live) && fp in live && n !in live[fp]
    requires Increasing(fps) && fps != [] && forall x :: x in fps <==> x in FpsAt(ValuesOf(idx, n), v) || x == fp
    ensures Agrees(idx[n := ValuesOf(idx, n)[v := fps]], live[fp := live[fp][n := v]])
  {
    var idx', live' := idx[n := ValuesOf(idx, n)[v := fps]], live[fp := live[fp][n := v]];
    forall m, w, x ensures x in FpsAt(ValuesOf(idx', m), w) <==> HasLabel(live', x, m, w) {
      assert x in FpsAt(ValuesOf(idx, m), w) <==> HasLabel(live, x, m, w);
    }
    TidyMore(idx, n, v, fps);
  }

  lemma TidyMore(idx: Idx, n: Bytes, v: Bytes, fps: seq<Fp>)
    requires Tidy(idx) && Increasing(fps) && fps != []
    ensures Tidy(idx[n := ValuesOf(idx, n)[v := fps]])
  {
    assert v in ValuesOf(idx, n)[v := fps];
  }

  /** The values of a name once a list has been cut down. */
  function Without(values: Values, v: Bytes, fps: seq<Fp>): Values {
    if fps == [] then values - {v} else values[v := fps]
  }

  function WithValues(idx: Idx, n: Bytes, values: Values): Idx {
    if values == map[] then idx - {n} else idx[n := values]
  }

  lemma OneLabelLess(idx: Idx, live: Live, fp: Fp, n: Bytes, fps: seq<Fp>)
    requires Agrees(idx, live) && fp in live && n in live[fp] && n in idx
    requires Increasing(fps) && forall x :: x in fps <==> x in FpsAt(ValuesOf(idx, n), live[fp][n]) && x != fp
    ensures Agrees(WithValues(idx, n, Without(idx[n], live[fp][n], fps)), live[fp := live[fp] - {n}])
  {
    var v := live[fp][n];
    var values := Without(idx[n], v, fps);
    var idx', live' := WithValues(idx, n, values), live[fp := live[fp] - {n}];
    forall m, w, x ensures x in FpsAt(ValuesOf(idx', m), w) <==> HasLabel(live', x, m, w) {
      assert x in FpsAt(ValuesOf(idx, m), w) <==> HasLabel(live, x, m, w);
      if m == n {
        assert FpsAt(ValuesOf(idx', n), w) == FpsAt(values, w);
      }
    }
    TidyAfter(idx, n, v, fps);
  }

  lemma TidyAfter(idx: Idx, n: Bytes, v: Bytes, fps: seq<Fp>)
    requires Tidy(idx) && n in idx && Increasing(fps)
    ensures Tidy(WithValues(idx, n, Without(idx[n], v, fps)))
  {
  }

  /** A series without labels is in no list. */
  lemma NoLabels(idx: Idx, live: Live, fp: Fp)
    requires fp in live ==> live[fp] == map[]
    ensures Agrees(idx, live[fp := map[]]) <==> Agrees(idx, live - {fp})
  {
    forall n, v, x ensures HasLabel(live[fp := map[]], x, n, v) <==> HasLabel(live - {fp}, x, n, v) {
    }
  }

  /** The body of the loop of add. */
  method AddLabel(idx: Idx, fp: Fp, n: Bytes, v: Bytes, ghost live: Live) returns (r: Idx)
    requires Agrees(idx, live) && fp in live && n !in live[fp]
    ensures Agrees(r, live[fp := live[fp][n := v]])
  {
    var values := ValuesOf(idx, n);
    assert !HasLabel(live, fp, n, v);
    var fingerprints := Insert(FpsAt(values, v), fp);
    OneMoreLabel(idx, live, fp, n, v, fingerprints);
    r := idx[n := values[v := fingerprints]];
  }

  /** The body of the loop of delete. */
  method DeleteLabel(idx: Idx, fp: Fp, n: Bytes, v: Bytes, ghost live: Live) returns (r: Idx)
    requires Agrees(idx, live) && HasLabel(live, fp, n, v)
    ensures Agrees(r, live[fp := live[fp] - {n}])
  {
    assert fp in FpsAt(ValuesOf(idx, n), v);
    if n !in idx || v !in idx[n] {
      return idx;
    }
    var fingerprints := Remove(idx[n][v], fp);
    OneLabelLess(idx, live, fp, n, fingerprints);
    r := WithValues(idx, n, Without(idx[n], v, fingerprints));
  }

  /** The series in memory, and one of them with only some of its labels. */
  ghost function Partly(live: Live, fp: Fp, metric: Metric, names: set<Bytes>): Live
    requires names <= metric.Keys
  {
    live[fp := map n | n in names :: metric[n]]
  }

  lemma PartlyMore(live: Live, fp: Fp, metric: Metric, names: set<Bytes>, n: Bytes)
    requires names <= metric.Keys && n in metric && n !in names
    ensures var now := Partly(live, fp, metric, names);
            && now[fp := now[fp][n := metric[n]]] == Partly(live, fp, metric, names + {n})
            && (fp in now && n !in now[fp])
    ensures var now := Partly(live, fp, metric, names + {n});
            && HasLabel(now, fp, n, metric[n])
            && now[fp := now[fp] - {n}] == Partly(live, fp, metric, names)
  {
    var less, more := Partly(live, fp, metric, names), Partly(live, fp, metric, names + {n});
    assert less[fp][n := metric[n]] == more[fp];
    assert more[fp] - {n} == less[fp];
  }

  lemma PartlyEnds(idx: Idx, live: Live, fp: Fp, metric: Metric)
    ensures Agrees(idx, Partly(live, fp, metric, {})) <==> Agrees(idx, live - {fp})
    ensures Partly(live, fp, metric, metric.Keys) == live[fp := metric]
  {
    var now := Partly(live, fp, metric, {});
    assert now[fp] == map[];
    assert now[fp := map[]] == now && now - {fp} == live - {fp};
    NoLabels(idx, now, fp);
    assert Partly(live, fp, metric, metric.Keys)[fp] == metric;
  }

  // -------------------------------------------------- looking up

  /** merge, of two lists without a common fingerprint. */
  method Merge(a: seq<Fp>, b: seq<Fp>) returns (result: seq<Fp>)
    requires Increasing(a) && Increasing(b) && forall x :: x in a ==> x !in b
    ensures Increasing(result) && forall x :: x in result <==> x in a || x in b
  {
    result := [];
    var i, j := 0, 0;
    while i < |a| && j < |b|
      invariant Merging(a, i, b, j, result)
      decreases |a| + |b| - i - j
    {
      if a[i] < b[j] {
        TakeFirst(a, i, b, j, result);
        result := result + [a[i]];
        i := i + 1;
      } else {
        assert a[i] in a && b[j] in b;
        TakeFirst(b, j, a, i, result);
        result := result + [b[j]];
        j := j + 1;
      }
    }
    while i < |a|
      invariant Merging(a, i, b, j, result) && (i < |a| ==> j == |b|)
    {
      TakeFirst(a, i, b, j, result);
      result := result + [a[i]];
      i := i + 1;
    }
    while j < |b|
      invariant Merging(a, i, b, j, result) && i == |a|
    {
      TakeFirst(b, j, a, i, result);
      result := result + [b[j]];
      j := j + 1;
    }
    assert a[..i] == a && b[..j] == b;
  }

  /** The merge after `i` fingerprints of the one list and `j` of the other. */
  ghost predicate Merging(a: seq<Fp>, i: nat, b: seq<Fp>, j: nat, r: seq<Fp>) {
    && i <= |a| && j <= |b| && Increasing(r)
    && (forall x :: x in r <==> x in a[..i] || x in b[..j])
    && (forall x, k :: x in r && i <= k < |a| ==> x < a[k])
    && (forall x, k :: x in r && j <= k < |b| ==> x < b[k])
  }

  lemma TakeFirst(a: seq<Fp>, i: nat, b: seq<Fp>, j: nat, r: seq<Fp>)
    requires Increasing(a) && Increasing(b) && Merging(a, i, b, j, r) && i < |a| && (j < |b| ==> a[i] < b[j])
    ensures Merging(a, i + 1, b, j, r + [a[i]]) && Merging(b, j, a, i + 1, r + [a[i]])
  {
    assert a[..i + 1] == a[..i] + [a[i]];
    SortedAppend(FpBefore, r, a[i]);
    forall k | i < k < |a| ensures a[i] < a[k] {
      assert FpBefore(a[i], a[k]);
    }
    forall k | j <= k < |b| ensures a[i] < b[k] {
      assert k > j ==> FpBefore(b[j], b[k]);
    }
  }

  lemma HasIsIn(s: seq<Fp>, x: Fp)
    ensures Has(FpBefore, s, x) <==> x in s
  {
    if x in s {
      var k :| 0 <= k < |s| && s[k] == x;
      assert Same(FpBefore, s[k], x);
    }
  }

  /** intersect, where a missing first list stands for all fingerprints. */
  method IntersectWith(a: Option<seq<Fp>>, b: seq<Fp>) returns (result: seq<Fp>)
    requires Increasing(b) && (a.Some? ==> Increasing(a.value))
    ensures Increasing(result) && forall x :: x in result <==> x in b && (a.Some? ==> x in a.value)
  {
    if a.None? {
      return b;
    }
    assert StrictOrder(FpBefore);
    result := Intersect(FpBefore, a.value, b);
    forall x ensures x in result <==> x in b && x in a.value {
      HasIsIn(b, x);
    }
  }

  /** The fingerprints under the values that a matcher accepts, whatever order the values are
      visited in. */
  method Matching(values: Values, m: Matcher) returns (r: seq<Fp>)
    requires forall v :: v in values ==> Increasing(values[v])
    requires forall v, w, x :: v in values && w in values && x in values[v] && x in values[w] ==> v == w
    ensures Increasing(r) && forall x :: x in r <==> exists v :: v in values && m.Match(v) && x in values[v]
  {
    r := [];
    var left := values.Keys;
    while left != {}
      invariant left <= values.Keys && Increasing(r)
      invariant forall x :: x in r <==> exists v :: v in values && v !in left && m.Match(v) && x in values[v]
      decreases |left|
    {
      var value :| value in left;
      if m.Match(value) {
        r := Merge(r, values[value]);
      }
      left := left - {value};
    }
  }

  /** The series has the label and the matcher accepts its value. */
  predicate Passes(metric: Metric, m: Matcher) {
    m.name in metric && m.Match(metric[m.name])
  }

  predicate PassesAll(metric: Metric, ms: seq<Matcher>) {
    forall k :: 0 <= k < |ms| ==> Passes(metric, ms[k])
  }

  lemma MatchingSeries(idx: Idx, live: Live, m: Matcher, r: seq<Fp>)
    requires Agrees(idx, live)
    requires forall x :: x in r <==> exists v :: v in ValuesOf(idx, m.name) && m.Match(v) && x in ValuesOf(idx, m.name)[v]
    ensures forall x :: x in r <==> x in live && Passes(live[x], m)
  {
    var values := ValuesOf(idx, m.name);
    forall x ensures x in r <==> x in live && Passes(live[x], m) {
      if x in r {
        var v :| v in values && m.Match(v) && x in values[v];
        assert x in FpsAt(values, v);
        assert HasLabel(live, x, m.name, v);
      }
      if x in live && Passes(live[x], m) {
        assert HasLabel(live, x, m.name, live[x][m.name]);
        assert x in FpsAt(values, live[x][m.name]);
      }
    }
  }

  lemma ListsAreDisjoint(idx: Idx, live: Live, n: Bytes)
    requires Agrees(idx, live)
    ensures var values := ValuesOf(idx, n);
            && (forall v :: v in values ==> Increasing(values[v]))
            && (forall v, w, x :: v in values && w in values && x in values[v] && x in values[w] ==> v == w)
  {
    var values := ValuesOf(idx, n);
    forall v, w, x | v in values && w in values && x in values[v] && x in values[w] ensures v == w {
      assert x in FpsAt(values, v) && x in FpsAt(values, w);
      assert HasLabel(live, x, n, v) && HasLabel(live, x, n, w);
    }
  }

  class Index {
    var idx: Idx

    constructor ()
      ensures idx == map[] && Agrees(idx, map[])
    {
      idx := map[];
    }

    /** add. */
    method Add(metric: Metric, fp: Fp, ghost live: Live)
      requires Agrees(idx, live) && fp !in live
      modifies this
      ensures Agrees(idx, live[fp := metric])
    {
      var left := metric.Keys;
      assert live - {fp} == live && metric.Keys - left == {};
      PartlyEnds(idx, live, fp, metric);
      while left != {}
        invariant left <= metric.Keys && Agrees(idx, Partly(live, fp, metric, metric.Keys - left))
        decreases |left|
      {
        var name :| name in left;
        PartlyMore(live, fp, metric, metric.Keys - left, name);
        assert metric.Keys - (left - {name}) == metric.Keys - left + {name};
        idx := AddLabel(idx, fp, name, metric[name], Partly(live, fp, metric, metric.Keys - left));
        left := left - {name};
      }
      assert metric.Keys - left == metric.Keys;
    }

    /** delete, of a series that is in memory. */
    method Delete(metric: Metric, fp: Fp, ghost live: Live)
      requires Agrees(idx, live) && fp in live && live[fp] == metric
      modifies this
      ensures Agrees(idx, live - {fp})
    {
      var left := metric.Keys;
      PartlyEnds(idx, live, fp, metric);
      assert live[fp := metric] == live;
      while left != {}
        invariant left <= metric.Keys && Agrees(idx, Partly(live, fp, metric, left))
        decreases |left|
      {
        var name :| name in left;
        PartlyMore(live, fp, metric, left - {name}, name);
        assert left - {name} + {name} == left;
        idx := DeleteLabel(idx, fp, name, metric[name], Partly(live, fp, metric, left));
        left := left - {name};
      }
      PartlyEnds(idx, live, fp, metric);
    }

    /** lookup: the series that have every label asked for with an accepted value, in order;
        none when nothing is asked. */
    method Lookup(matchers: seq<Matcher>, ghost live: Live) returns (fps: seq<Fp>)
      requires Agrees(idx, live)
      ensures Increasing(fps)
      ensures forall fp :: fp in fps <==> matchers != [] && fp in live && PassesAll(live[fp], matchers)
    {
      if |matchers| == 0 {
        return [];
      }
      var intersection: Option<seq<Fp>> := None;
      for k := 0 to |matchers|
        invariant intersection.None? <==> k == 0
        invariant intersection.Some? ==> Increasing(intersection.value)
        invariant intersection.Some? ==> forall fp :: fp in intersection.value <==> fp in live && PassesAll(live[fp], matchers[..k])
      {
        var m := matchers[k];
        ListsAreDisjoint(idx, live, m.name);
        var toIntersect := Matching(ValuesOf(idx, m.name), m);
        MatchingSeries(idx, live, m, toIntersect);
        var both := IntersectWith(intersection, toIntersect);
        forall fp | fp in live ensures PassesAll(live[fp], matchers[..k + 1]) <==> PassesAll(live[fp], matchers[..k]) && Passes(live[fp], m) {
          PassesOneMore(live[fp], matchers, k);
        }
        if |both| == 0 {
          forall fp | fp in live ensures !PassesAll(live[fp], matchers) {
            PassesPrefix(live[fp], matchers, k + 1);
            assert fp !in both;
          }
          return [];
        }
        intersection := Some(both);
      }
      assert matchers[..|matchers|] == matchers;
      fps := intersection.value;
    }

    /** lookupLabelValues: the values that series in memory have for a label, each once, in the
        order of the map. */
    method LookupLabelValues(n: Bytes, ghost live: Live) returns (r: seq<Bytes>)
      requires Agrees(idx, live)
      ensures Distinct(r) && forall v :: v in r <==> exists fp :: HasLabel(live, fp, n, v)
    {
      r := [];
      var left := ValuesOf(idx, n).Keys;
      while left != {}
        invariant left <= ValuesOf(idx, n).Keys && Distinct(r)
        invariant forall v :: v in r <==> v in ValuesOf(idx, n) && v !in left
        decreases |left|
      {
        var v :| v in left;
        r := r + [v];
        left := left - {v};
      }
      forall v ensures v in ValuesOf(idx, n) <==> exists fp :: HasLabel(live, fp, n, v) {
        if v in ValuesOf(idx, n) {
          var fps := FpsAt(ValuesOf(idx, n), v);
          assert fps != [] && fps[0] in fps;
          assert HasLabel(live, fps[0], n, v);
        }
        if fp :| HasLabel(live, fp, n, v) {
          assert fp in FpsAt(ValuesOf(idx, n), v);
        }
      }
    }
  }

  lemma PassesOneMore(metric: Metric, ms: seq<Matcher>, k: nat)
    requires k < |ms|
    ensures PassesAll(metric, ms[..k + 1]) <==> PassesAll(metric, ms[..k]) && Passes(metric, ms[k])
  {
    assert ms[..k + 1] == ms[..k] + [ms[k]];
    if PassesAll(metric, ms[..k + 1]) {
      forall j | 0 <= j < k ensures Passes(metric, ms[..k][j]) {
        assert ms[..k + 1][j] == ms[j];
      }
      assert ms[..k + 1][k] == ms[k];
    }
  }

  lemma PassesPrefix(metric: Metric, ms: seq<Matcher>, k: nat)
    requires k <= |ms|
    ensures PassesAll(metric, ms) ==> PassesAll(metric, ms[..k])
  {
  }
}

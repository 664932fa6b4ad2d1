/** Label matchers, and how a query's matchers are told apart before an index lookup. */
module Matchers {
  import opened ByteStrings
  import opened SortedLists
  import opened Schema

  /** The kinds of matcher other than equality are an arbitrary test of the label value. */
  datatype Kind = Equal | Other(accepts: Bytes -> bool)

  datatype Matcher = Matcher(name: Bytes, kind: Kind, value: Bytes)
  {
    predicate Match(v: Bytes) {
      match kind
      case Equal => v == value
      case Other(accepts) => accepts(v)
    }

    /** A matcher that accepts the empty value also accepts series without the label. */
    predicate IsFilter() {
      Match([])
    }
  }

  /** The value of a label, empty when the label is missing. */
  function ValueOf(metric: Metric, name: Bytes): Bytes {
    if name in metric then metric[name] else []
  }

  predicate MatchesAll(metric: Metric, ms: seq<Matcher>) {
    forall k :: 0 <= k < |ms| ==> ms[k].Match(ValueOf(metric, ms[k].name))
  }

  function Filters(ms: seq<Matcher>): (r: seq<Matcher>)
    ensures forall k :: 0 <= k < |r| ==> r[k].IsFilter()
  {
    if ms == [] then [] else Filters(ms[..|ms| - 1]) + (if ms[|ms| - 1].IsFilter() then [ms[|ms| - 1]] else [])
  }

  function NonFilters(ms: seq<Matcher>): (r: seq<Matcher>)
    ensures forall k :: 0 <= k < |r| ==> !r[k].IsFilter()
  {
    if ms == [] then [] else NonFilters(ms[..|ms| - 1]) + (if ms[|ms| - 1].IsFilter() then [] else [ms[|ms| - 1]])
  }

  /** SplitFiltersAndMatchers. */
  method SplitFiltersAndMatchers(all: seq<Matcher>) returns (filters: seq<Matcher>, matchers: seq<Matcher>)
    ensures filters == Filters(all) && matchers == NonFilters(all)
  {
    filters, matchers := [], [];
    for n := 0 to |all|
      invariant filters == Filters(all[..n]) && matchers == NonFilters(all[..n])
    {
      assert all[..n + 1][..n] == all[..n];
      if all[n].Match([]) {
        filters := filters + [all[n]];
      } else {
        matchers := matchers + [all[n]];
      }
    }
    assert all[..|all|] == all;
  }

  /** The filters are the matchers that accept the empty value, in their order. */
  lemma {:induction false} FiltersSelect(all: seq<Matcher>) returns (ks: seq<nat>)
    ensures Selects(all, (m: Matcher) => m.Match([]), ks) && Filters(all) == Picked(all, ks)
  {
    if all == [] {
      ks := [];
    } else {
      var n := |all| - 1;
      ks := FiltersSelect(all[..n]);
      SelectsNext(all, (m: Matcher) => m.Match([]), ks);
      ks := if all[n].Match([]) then ks + [n] else ks;
    }
  }

  /** The others are those that do not, in their order. */
  lemma {:induction false} NonFiltersSelect(all: seq<Matcher>) returns (ks: seq<nat>)
    ensures Selects(all, (m: Matcher) => !m.Match([]), ks) && NonFilters(all) == Picked(all, ks)
  {
    if all == [] {
      ks := [];
    } else {
      var n := |all| - 1;
      ks := NonFiltersSelect(all[..n]);
      SelectsNext(all, (m: Matcher) => !m.Match([]), ks);
      ks := if !all[n].Match([]) then ks + [n] else ks;
    }
  }

  /** Splitting loses no condition. */
  lemma {:induction false} SplitKeepsMeaning(metric: Metric, all: seq<Matcher>)
    ensures MatchesAll(metric, all) <==> MatchesAll(metric, Filters(all)) && MatchesAll(metric, NonFilters(all))
  {
    if all != [] {
      var front, last := all[..|all| - 1], all[|all| - 1];
      SplitKeepsMeaning(metric, front);
      assert all == front + [last];
      MatchesAllAppend(metric, front, last);
      MatchesAllAppend(metric, Filters(front), last);
      MatchesAllAppend(metric, NonFilters(front), last);
      assert Filters(all) == Filters(front) + (if last.IsFilter() then [last] else []);
      assert NonFilters(all) == NonFilters(front) + (if last.IsFilter() then [] else [last]);
      assert Filters(front) + [] == Filters(front) && NonFilters(front) + [] == NonFilters(front);
    }
  }

  lemma MatchesAllAppend(metric: Metric, ms: seq<Matcher>, m: Matcher)
    ensures MatchesAll(metric, ms + [m]) <==> MatchesAll(metric, ms) && m.Match(ValueOf(metric, m.name))
  {
    if MatchesAll(metric, ms + [m]) {
      assert forall k :: 0 <= k < |ms| ==> (ms + [m])[k] == ms[k];
      assert (ms + [m])[|ms|] == m;
    }
  }

  datatype Extracted =
    | Name(name: Bytes, rest: seq<Matcher>)
    | ErrNotEquality
    | ErrNoName
    | Panicked

  /** The position of the first matcher on the metric name, or the length. */
  function FirstName(ms: seq<Matcher>): (i: nat)
    ensures i <= |ms|
    ensures forall k :: 0 <= k < i ==> ms[k].name != METRIC_NAME
    ensures i < |ms| ==> ms[i].name == METRIC_NAME
  {
    if ms == [] || ms[0].name == METRIC_NAME then 0 else 1 + FirstName(ms[1..])
  }

  function Extract(ms: seq<Matcher>): Extracted {
    if ms == [] then Panicked
    else
      var i := FirstName(ms);
      if i == |ms| then ErrNoName
      else if ms[i].kind != Equal then ErrNotEquality
      else Name(ms[i].value, ms[..i] + ms[i + 1..])
  }

  /** ExtractMetricNameFromMatchers. An empty list makes it allocate a slice of length -1. */
  method ExtractMetricNameFromMatchers(ms: seq<Matcher>) returns (r: Extracted)
    ensures r == Extract(ms)
  {
    if |ms| - 1 < 0 {
      return Panicked;
    }
    for i := 0 to |ms|
      invariant i <= FirstName(ms)
    {
      if ms[i].name != METRIC_NAME {
        continue;
      }
      if !ms[i].kind.Equal? {
        return ErrNotEquality;
      }
      return Name(ms[i].value, ms[..i] + ms[i + 1..]);
    }
    return ErrNoName;
  }

  /** Taking the name out loses no condition. */
  lemma ExtractKeepsMeaning(metric: Metric, ms: seq<Matcher>)
    requires Extract(ms).Name?
    ensures MatchesAll(metric, ms) <==>
            ValueOf(metric, METRIC_NAME) == Extract(ms).name && MatchesAll(metric, Extract(ms).rest)
  {
    var i := FirstName(ms);
    var rest := Extract(ms).rest;
    if MatchesAll(metric, ms) {
      assert ms[i].Match(ValueOf(metric, METRIC_NAME));
      forall k | 0 <= k < |rest| ensures rest[k].Match(ValueOf(metric, rest[k].name)) {
        assert rest[k] == if k < i then ms[k] else ms[k + 1];
      }
    }
    if ValueOf(metric, METRIC_NAME) == Extract(ms).name && MatchesAll(metric, rest) {
      forall k | 0 <= k < |ms| ensures ms[k].Match(ValueOf(metric, ms[k].name)) {
        if k != i {
          assert ms[k] == if k < i then rest[k] else rest[k - 1];
        }
      }
    }
  }
}

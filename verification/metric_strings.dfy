/** Turning a metric into a string in a reproducible and unique way. */
module MetricStrings {
  import opened ByteStrings
  import opened Delimited
  import opened SortedLists
  import opened Schema

  const SEPARATOR: Byte := 255

  /** No label name or value contains the separator. */
  ghost predicate Clean(m: Metric) {
    forall n :: n in m ==> Free(n, SEPARATOR) && Free(m[n], SEPARATOR)
  }

  /** No label name contains it; values may. */
  ghost predicate CleanNames(m: Metric) {
    forall n :: n in m ==> Free(n, SEPARATOR)
  }

  function Part(n: Bytes, v: Bytes): Bytes {
    n + [SEPARATOR] + v
  }

  lemma PartSplits(n: Bytes, v: Bytes)
    requires Free(n, SEPARATOR) && Free(v, SEPARATOR)
    ensures Split(Part(n, v), SEPARATOR) == [n, v]
  {
    SplitAtDelimiter(n, SEPARATOR, v);
    SplitFree(v, SEPARATOR);
  }

  ghost predicate IsPart(m: Metric, p: Bytes) {
    exists n :: n in m && p == Part(n, m[n])
  }

  /** The parts of a metric in byte order. */
  ghost predicate ArePartsOf(m: Metric, parts: seq<Bytes>) {
    Sorted(Less, parts) && forall p :: p in parts <==> IsPart(m, p)
  }

  lemma {:induction false} Position(s: seq<Bytes>, x: Bytes) returns (i: nat)
    requires Sorted(Less, s) && x !in s
    ensures i <= |s| && (forall k :: 0 <= k < i ==> Less(s[k], x)) && (i < |s| ==> Less(x, s[i]))
  {
    if s == [] || Less(x, s[0]) {
      i := 0;
    } else {
      LessTrichotomy(x, s[0]);
      i := Position(s[1..], x);
      i := i + 1;
      assert forall k :: 1 <= k < i ==> s[k] == s[1..][k - 1];
    }
  }

  lemma {:induction false} PartsExist(m: Metric)
    requires CleanNames(m)
    ensures exists parts :: ArePartsOf(m, parts)
    decreases |m|
  {
    if m == map[] {
      assert ArePartsOf(m, []);
    } else {
      var n :| n in m;
      var rest := m - {n};
      PartsExist(rest);
      var parts :| ArePartsOf(rest, parts);
      var p := Part(n, m[n]);
      forall k | k in rest ensures Part(k, rest[k]) != p {
        if Part(k, rest[k]) == p {
          FirstPart(k, rest[k], n, m[n], SEPARATOR);
        }
      }
      var i := Position(parts, p);
      LessIsStrictOrder();
      InsertStrict(Less, parts, i, p);
      forall q ensures IsPart(m, q) <==> IsPart(rest, q) || q == p {
        if IsPart(m, q) {
          var k :| k in m && q == Part(k, m[k]);
          assert k == n || (k in rest && rest[k] == m[k]);
        }
        if IsPart(rest, q) {
          var k :| k in rest && q == Part(k, rest[k]);
          assert k in m && m[k] == rest[k];
        }
      }
      assert ArePartsOf(m, parts[..i] + [p] + parts[i..]);
    }
  }

  ghost function PartsOf(m: Metric): (parts: seq<Bytes>)
    requires CleanNames(m)
    ensures ArePartsOf(m, parts)
  {
    PartsExist(m);
    var parts :| ArePartsOf(m, parts);
    parts
  }

  function Joined(parts: seq<Bytes>): Bytes {
    if parts == [] then [] else Join(parts, SEPARATOR)
  }

  ghost function UniqueString(m: Metric): Bytes
    requires CleanNames(m)
  {
    Joined(PartsOf(m))
  }

  /** metricToUniqueString: whatever order the labels are visited in, the same string. */
  method MetricToUniqueString(m: Metric) returns (s: Bytes)
    requires CleanNames(m)
    ensures s == UniqueString(m)
  {
    var parts: seq<Bytes> := [];
    var left := m.Keys;
    while left != {}
      invariant left <= m.Keys && Distinct(parts)
      invariant forall p :: p in parts <==> exists n :: n in m && n !in left && p == Part(n, m[n])
      decreases |left|
    {
      var ln :| ln in left;
      forall n | n in m && n != ln ensures Part(n, m[n]) != Part(ln, m[ln]) {
        if Part(n, m[n]) == Part(ln, m[ln]) {
          FirstPart(n, m[n], ln, m[ln], SEPARATOR);
        }
      }
      assert Part(ln, m[ln]) !in parts;
      parts := parts + [Part(ln, m[ln])];
      left := left - {ln};
    }
    LessIsStrictOrder();
    var sorted := Sort(Less, parts);
    PermutationIsDistinct(parts, sorted);
    StrictlySorted(sorted);
    assert ArePartsOf(m, sorted);
    SortedIsUnique(Less, sorted, PartsOf(m));
    s := Joined(sorted);
  }

  // -------------------------------------------------- different metrics, different strings

  lemma {:induction false} SplitConcat(a: Bytes, b: Bytes)
    ensures Split(a + [SEPARATOR] + b, SEPARATOR) == Split(a, SEPARATOR) + Split(b, SEPARATOR)
  {
    var s := a + [SEPARATOR] + b;
    if a == [] {
      assert s[1..] == b;
    } else {
      assert s[1..] == a[1..] + [SEPARATOR] + b;
      SplitConcat(a[1..], b);
    }
  }

  /** Lists of parts of two fields each are told apart by their joins. */
  lemma {:induction false} JoinInjective(ps: seq<Bytes>, qs: seq<Bytes>)
    requires ps != [] && qs != [] && Join(ps, SEPARATOR) == Join(qs, SEPARATOR)
    requires forall k :: 0 <= k < |ps| ==> |Split(ps[k], SEPARATOR)| == 2
    requires forall k :: 0 <= k < |qs| ==> |Split(qs[k], SEPARATOR)| == 2
    ensures ps == qs
  {
    var s := Join(ps, SEPARATOR);
    JoinSplit(ps[0], SEPARATOR);
    JoinSplit(qs[0], SEPARATOR);
    FirstFields(ps);
    FirstFields(qs);
    assert Split(s, SEPARATOR)[..2] == Split(ps[0], SEPARATOR);
    assert Split(s, SEPARATOR)[..2] == Split(qs[0], SEPARATOR);
    if |ps| > 1 && |qs| > 1 {
      assert ps[0] + [SEPARATOR] == qs[0] + [SEPARATOR];
      assert s == ps[0] + [SEPARATOR] + Join(ps[1..], SEPARATOR);
      assert s[|ps[0]| + 1..] == Join(ps[1..], SEPARATOR);
      assert s[|qs[0]| + 1..] == Join(qs[1..], SEPARATOR);
      JoinInjective(ps[1..], qs[1..]);
    }
    assert ps == [ps[0]] + ps[1..] && qs == [qs[0]] + qs[1..];
  }

  lemma FirstFields(ps: seq<Bytes>)
    requires ps != [] && |Split(ps[0], SEPARATOR)| == 2
    ensures var fields := Split(Join(ps, SEPARATOR), SEPARATOR);
            |fields| >= 2 && fields[..2] == Split(ps[0], SEPARATOR) && (|fields| == 2 <==> |ps| == 1)
  {
    if |ps| > 1 {
      SplitConcat(ps[0], Join(ps[1..], SEPARATOR));
    }
  }

  lemma PartsAreFields(m: Metric, parts: seq<Bytes>)
    requires Clean(m) && ArePartsOf(m, parts)
    ensures forall k :: 0 <= k < |parts| ==> |Split(parts[k], SEPARATOR)| == 2
  {
    forall k | 0 <= k < |parts| ensures |Split(parts[k], SEPARATOR)| == 2 {
      assert parts[k] in parts;
      var n :| n in m && parts[k] == Part(n, m[n]);
      PartSplits(n, m[n]);
    }
  }

  lemma SameParts(m: Metric, m': Metric)
    requires Clean(m) && Clean(m') && forall p :: IsPart(m, p) ==> IsPart(m', p)
    ensures forall n :: n in m ==> n in m' && m'[n] == m[n]
  {
    forall n | n in m ensures n in m' && m'[n] == m[n] {
      assert IsPart(m, Part(n, m[n]));
      var n' :| n' in m' && Part(n, m[n]) == Part(n', m'[n']);
      PartSplits(n, m[n]);
      PartSplits(n', m'[n']);
      assert [n, m[n]][0] == n && [n, m[n]][1] == m[n];
    }
  }

  /** Metrics without the separator have the same string only when they are the same. */
  lemma UniqueStringInjective(m: Metric, m': Metric)
    requires Clean(m) && Clean(m') && UniqueString(m) == UniqueString(m')
    ensures m == m'
  {
    var ps, qs := PartsOf(m), PartsOf(m');
    PartsAreFields(m, ps);
    PartsAreFields(m', qs);
    if ps != [] {
      FirstFields(ps);
    }
    if qs != [] {
      FirstFields(qs);
    }
    if ps != [] && qs != [] {
      JoinInjective(ps, qs);
    }
    assert ps == qs;
    SameParts(m, m');
    SameParts(m', m);
  }

  // -------------------------------------------------- when two strings are equal

  /** The fields of a list of parts, one after the other. */
  function Fields(parts: seq<Bytes>): seq<Bytes> {
    if parts == [] then [] else Split(parts[0], SEPARATOR) + Fields(parts[1..])
  }

  lemma {:induction false} FieldsOfJoin(parts: seq<Bytes>)
    requires parts != []
    ensures Split(Join(parts, SEPARATOR), SEPARATOR) == Fields(parts)
  {
    if |parts| == 1 {
      assert Fields(parts[1..]) == [];
    } else {
      FieldsOfJoin(parts[1..]);
      SplitConcat(parts[0], Join(parts[1..], SEPARATOR));
    }
  }

  /** Part lists of metrics join to one string exactly when they have the same fields. */
  lemma SameFields(ps: seq<Bytes>, qs: seq<Bytes>)
    requires forall p :: p in ps || p in qs ==> !Free(p, SEPARATOR)
    ensures Joined(ps) == Joined(qs) <==> Fields(ps) == Fields(qs)
  {
    JoinedFields(ps);
    JoinedFields(qs);
    JoinSplit(Joined(ps), SEPARATOR);
    JoinSplit(Joined(qs), SEPARATOR);
  }

  lemma JoinedFields(ps: seq<Bytes>)
    requires forall p :: p in ps ==> !Free(p, SEPARATOR)
    ensures ps == [] ==> Fields(ps) == [] && Joined(ps) == []
    ensures ps != [] ==> Fields(ps) == Split(Joined(ps), SEPARATOR) && Joined(ps) != []
  {
    if ps != [] {
      FieldsOfJoin(ps);
      assert ps[0] in ps;
      assert ps[0] <= Join(ps, SEPARATOR);
    }
  }

  /** Two metrics have one string if and only if the fields of their sorted parts are the same. */
  lemma SameStringIff(m: Metric, m': Metric)
    requires CleanNames(m) && CleanNames(m')
    ensures UniqueString(m) == UniqueString(m') <==> Fields(PartsOf(m)) == Fields(PartsOf(m'))
  {
    forall p | p in PartsOf(m) || p in PartsOf(m') ensures !Free(p, SEPARATOR) {
      if IsPart(m, p) {
        var n :| n in m && p == Part(n, m[n]);
        assert p[|n|] == SEPARATOR;
      } else {
        var n :| n in m' && p == Part(n, m'[n]);
        assert p[|n|] == SEPARATOR;
      }
    }
    SameFields(PartsOf(m), PartsOf(m'));
  }

  lemma PartsAre(m: Metric, parts: seq<Bytes>)
    requires CleanNames(m) && ArePartsOf(m, parts)
    ensures PartsOf(m) == parts
  {
    LessIsStrictOrder();
    SortedIsUnique(Less, PartsOf(m), parts);
  }

  /** With the separator in a value, two different metrics have the same string: one label whose
      value looks like its value, the separator and another label. */
  lemma SeparatorConfuses(a: Bytes, b: Bytes, x: Bytes, y: Bytes)
    requires Free(a, SEPARATOR) && Free(b, SEPARATOR) && a != b && Less(Part(a, x), Part(b, y))
    ensures var m, m' := map[a := x + [SEPARATOR] + Part(b, y)], map[a := x, b := y];
            CleanNames(m) && CleanNames(m') && m != m' && UniqueString(m) == UniqueString(m')
  {
    var m, m' := map[a := x + [SEPARATOR] + Part(b, y)], map[a := x, b := y];
    assert b !in m && b in m';
    var p, q, r := Part(a, m[a]), Part(a, x), Part(b, y);
    var ps, qs := [p], [q, r];
    assert ArePartsOf(m, ps);
    assert ArePartsOf(m', qs) by {
      forall t ensures t in qs <==> IsPart(m', t) {
        assert a in m' && m'[a] == x && b in m' && m'[b] == y;
      }
    }
    PartsAre(m, ps);
    PartsAre(m', qs);
    JoinPair(q, r, SEPARATOR);
    assert p == q + [SEPARATOR] + r;
  }

  // -------------------------------------------------- which metrics share their string

  /** Another metric has the string of this one. */
  ghost predicate Confusable(m: Metric)
    requires CleanNames(m)
  {
    exists m' :: CleanNames(m') && m' != m && UniqueString(m') == UniqueString(m)
  }

  /** The value of the label `a` reads as a value, the separator, and the part of another label that
      comes later. */
  ghost predicate ReadsAsTwo(a: Bytes, v: Bytes) {
    exists x, b, y :: v == x + [SEPARATOR] + Part(b, y) && Free(b, SEPARATOR) && b != a && Less(Part(a, x), Part(b, y))
  }

  /** The first part of a metric and its label. */
  lemma FirstLabel(m: Metric) returns (a: Bytes, rest: seq<Bytes>)
    requires CleanNames(m) && m != map[]
    ensures a in m && PartsOf(m) == [Part(a, m[a])] + rest && |PartsOf(m)| == |m|
    ensures rest == [] ==> UniqueString(m) == Part(a, m[a])
    ensures rest != [] ==> UniqueString(m) == Part(a, m[a] + [SEPARATOR] + Join(rest, SEPARATOR))
  {
    var ps := PartsOf(m);
    CountParts(m, ps);
    assert ps[0] in ps;
    a :| a in m && ps[0] == Part(a, m[a]);
    rest := ps[1..];
    if rest != [] {
      RegroupPart(a, m[a], [SEPARATOR] + Join(rest, SEPARATOR));
      Regroup(m[a], Join(rest, SEPARATOR));
    }
  }

  lemma Regroup(v: Bytes, more: Bytes)
    ensures v + ([SEPARATOR] + more) == v + [SEPARATOR] + more
  {
  }

  lemma {:induction false} CountParts(m: Metric, parts: seq<Bytes>)
    requires CleanNames(m) && ArePartsOf(m, parts)
    ensures |parts| == |m|
    decreases |parts|
  {
    if parts == [] {
      forall n | n in m ensures IsPart(m, Part(n, m[n])) {
      }
    } else {
      assert parts[0] in parts;
      var n :| n in m && parts[0] == Part(n, m[n]);
      WithoutFirst(m, parts, n);
      CountParts(m - {n}, parts[1..]);
      assert |m| == |m - {n}| + 1 by {
        assert m.Keys == (m - {n}).Keys + {n};
        assert |m.Keys| == |m| && |(m - {n}).Keys| == |m - {n}|;
      }
    }
  }

  lemma WithoutFirst(m: Metric, parts: seq<Bytes>, n: Bytes)
    requires CleanNames(m) && ArePartsOf(m, parts) && parts != [] && n in m && parts[0] == Part(n, m[n])
    ensures CleanNames(m - {n}) && ArePartsOf(m - {n}, parts[1..])
  {
    var rest := m - {n};
    forall p ensures p in parts[1..] <==> IsPart(rest, p) {
      if p in parts[1..] {
        assert p in parts && Less(parts[0], p);
        LessIrreflexive(p);
        var k :| k in m && p == Part(k, m[k]);
        assert k != n;
        assert k in rest && rest[k] == m[k];
      }
      if IsPart(rest, p) {
        var k :| k in rest && p == Part(k, rest[k]);
        assert k in m && IsPart(m, p) && p in parts;
        if p == parts[0] {
          FirstPart(k, m[k], n, m[n], SEPARATOR);
        }
      }
    }
  }

  /** A metric with two labels or more shares its string with one that has the first only. */
  lemma TwoLabelsConfuse(m: Metric)
    requires CleanNames(m) && |m| >= 2
    ensures Confusable(m)
  {
    var a, rest := FirstLabel(m);
    var v := m[a] + [SEPARATOR] + Join(rest, SEPARATOR);
    var m' := map[a := v];
    assert IsPart(m', Part(a, v)) by {
      assert a in m' && m'[a] == v;
    }
    assert ArePartsOf(m', [Part(a, v)]);
    PartsAre(m', [Part(a, v)]);
    assert |m'| == 1;
    assert UniqueString(m') == UniqueString(m);
  }

  /** What a metric with a single label shares its string with has the same first label. */
  lemma OneLabelConfused(m: Metric, m': Metric)
    requires CleanNames(m) && CleanNames(m') && |m| == 1 && m' != m && UniqueString(m') == UniqueString(m)
    ensures exists a :: m.Keys == {a} && ReadsAsTwo(a, m[a])
  {
    var a, none := FirstLabel(m);
    OneKey(m, a);
    if m' == map[] {
      PartsAre(m', []);
      assert false;
    }
    var b, rest := FirstLabel(m');
    if rest == [] {
      FirstPart(a, m[a], b, m'[b], SEPARATOR);
      OneKey(m', b);
      assert false;
    }
    FirstPart(a, m[a], b, m'[b] + [SEPARATOR] + Join(rest, SEPARATOR), SEPARATOR);
    SecondLabel(m', b, rest);
  }

  lemma OneKey(m: Metric, a: Bytes)
    requires |m| == 1 && a in m
    ensures m == map[a := m[a]]
  {
    assert {a} <= m.Keys && |m.Keys| == |m|;
    assert |m.Keys - {a}| == 0;
  }

  /** The rest of a string begins with the part of the second label. */
  lemma SecondLabel(m: Metric, a: Bytes, rest: seq<Bytes>)
    requires CleanNames(m) && a in m && rest != [] && PartsOf(m) == [Part(a, m[a])] + rest
    ensures ReadsAsTwo(a, m[a] + [SEPARATOR] + Join(rest, SEPARATOR))
  {
    var ps := PartsOf(m);
    assert ps[1] in ps && ps[1] == rest[0];
    var b :| b in m && ps[1] == Part(b, m[b]);
    assert Less(ps[0], ps[1]);
    LessIrreflexive(ps[0]);
    var more := JoinBegins(rest);
    LessAndMore(ps[0], rest[0], more);
    RegroupPart(b, m[b], more);
  }

  lemma JoinBegins(rest: seq<Bytes>) returns (more: Bytes)
    requires rest != []
    ensures Join(rest, SEPARATOR) == rest[0] + more
  {
    more := if |rest| == 1 then [] else [SEPARATOR] + Join(rest[1..], SEPARATOR);
  }

  lemma RegroupPart(b: Bytes, v: Bytes, more: Bytes)
    ensures Part(b, v) + more == Part(b, v + more)
  {
  }

  lemma {:induction false} LessAndMore(p: Bytes, q: Bytes, more: Bytes)
    requires Less(p, q)
    ensures Less(p, q + more)
  {
    if p != [] && p[0] == q[0] {
      LessAndMore(p[1..], q[1..], more);
      assert (q + more)[1..] == q[1..] + more;
    }
  }

  /** Another metric has the string of a metric if and only if it has two labels or more, or a
      single one whose value reads as a value and another label. */
  lemma ConfusableIff(m: Metric)
    requires CleanNames(m)
    ensures Confusable(m) <==> |m| >= 2 || exists a :: m.Keys == {a} && ReadsAsTwo(a, m[a])
  {
    if |m| >= 2 {
      TwoLabelsConfuse(m);
    } else if a :| m.Keys == {a} && ReadsAsTwo(a, m[a]) {
      var x, b, y :| m[a] == x + [SEPARATOR] + Part(b, y) && Free(b, SEPARATOR) && b != a && Less(Part(a, x), Part(b, y));
      SeparatorConfuses(a, b, x, y);
      assert m == map[a := x + [SEPARATOR] + Part(b, y)];
    } else if Confusable(m) {
      var m' :| CleanNames(m') && m' != m && UniqueString(m') == UniqueString(m);
      if m == map[] {
        PartsAre(m, []);
        var a, rest := FirstLabel(m');
        assert false;
      }
      OneLabelConfused(m, m');
    }
  }
}

/** Lists kept in the order of a key, and the loops that combine them: sorting,
    dropping repeats, merging and intersecting. The same loops serve chunks ordered
    by external key, samples by timestamp and fingerprints by value. */
module SortedLists {

  /** Always true; names a triple of elements to compare. */
  predicate Compared<T>(x: T, y: T, z: T) {
    true
  }

  /** A strict order in which elements with the same key are incomparable. */
  ghost predicate StrictOrder<T(!new)>(less: (T, T) -> bool) {
    forall x, y, z {:trigger Compared(x, y, z)} :: Compared(x, y, z) ==>
      && !less(x, x)
      && (less(x, y) && less(y, z) ==> less(x, z))
      && (less(x, z) ==> less(x, y) || less(y, z))
  }

  /** Two elements have the same key. */
  predicate Same<T>(less: (T, T) -> bool, x: T, y: T) {
    !less(x, y) && !less(y, x)
  }

  lemma Transitive<T(!new)>(less: (T, T) -> bool, x: T, y: T, z: T)
    requires StrictOrder(less) && less(x, y) && less(y, z)
    ensures less(x, z) && !less(z, x)
  {
    assert Compared(x, y, z);
    assert Compared(x, z, x);
  }

  lemma SameKey<T(!new)>(less: (T, T) -> bool, x: T, y: T, z: T)
    requires StrictOrder(less) && Same(less, x, y)
    ensures less(x, z) == less(y, z) && less(z, x) == less(z, y)
  {
    assert Compared(x, y, z);
    assert Compared(y, x, z);
    assert Compared(z, y, x);
    assert Compared(z, x, y);
  }

  lemma Asymmetric<T(!new)>(less: (T, T) -> bool, x: T, y: T)
    requires StrictOrder(less)
    ensures !less(x, x) && !(less(x, y) && less(y, x))
  {
    assert Compared(x, y, x);
  }

  /** In order and without two elements of one key. */
  ghost predicate Sorted<T>(less: (T, T) -> bool, s: seq<T>) {
    forall i, j :: 0 <= i < j < |s| ==> less(s[i], s[j])
  }

  /** In order, possibly with several elements of one key. */
  ghost predicate WeaklySorted<T>(less: (T, T) -> bool, s: seq<T>) {
    forall i, j :: 0 <= i < j < |s| ==> !less(s[j], s[i])
  }

  /** Some element of the list has the key of `x`. */
  ghost predicate Has<T>(less: (T, T) -> bool, s: seq<T>, x: T) {
    exists k :: 0 <= k < |s| && Same(less, s[k], x)
  }

  lemma SortedAppend<T>(less: (T, T) -> bool, s: seq<T>, x: T)
    requires Sorted(less, s) && forall c :: c in s ==> less(c, x)
    ensures Sorted(less, s + [x])
  {
  }

  /** A library sort: some permutation in order. */
  method Sort<T(!new)>(less: (T, T) -> bool, cs: seq<T>) returns (r: seq<T>)
    requires StrictOrder(less)
    ensures WeaklySorted(less, r) && multiset(r) == multiset(cs)
    ensures forall c :: c in r <==> c in cs
  {
    r := [];
    for n := 0 to |cs|
      invariant WeaklySorted(less, r) && multiset(r) == multiset(cs[..n])
    {
      var i := |r|;
      while i > 0 && less(cs[n], r[i - 1])
        invariant 0 <= i <= |r|
        invariant forall k :: i <= k < |r| ==> less(cs[n], r[k])
      {
        i := i - 1;
      }
      r := Inserted(less, r, cs[n], i);
      assert cs[..n + 1] == cs[..n] + [cs[n]];
    }
    assert cs[..|cs|] == cs;
    assert forall c :: c in r <==> c in multiset(r);
    assert forall c :: c in cs <==> c in multiset(cs);
  }

  function Inserted<T(!new)>(less: (T, T) -> bool, r: seq<T>, c: T, i: nat): (q: seq<T>)
    requires StrictOrder(less) && WeaklySorted(less, r) && i <= |r|
    requires i > 0 ==> !less(c, r[i - 1])
    requires forall k :: i <= k < |r| ==> less(c, r[k])
    ensures WeaklySorted(less, q) && multiset(q) == multiset(r) + multiset{c}
  {
    InsertedIsSorted(less, r, c, i);
    assert r == r[..i] + r[i..];
    r[..i] + [c] + r[i..]
  }

  lemma InsertedIsSorted<T(!new)>(less: (T, T) -> bool, r: seq<T>, c: T, i: nat)
    requires StrictOrder(less) && WeaklySorted(less, r) && i <= |r|
    requires i > 0 ==> !less(c, r[i - 1])
    requires forall k :: i <= k < |r| ==> less(c, r[k])
    ensures WeaklySorted(less, r[..i] + [c] + r[i..])
  {
    forall k | 0 <= k < i ensures !less(c, r[k]) {
      assert Compared(c, r[i - 1], r[k]);
    }
    forall k | i <= k < |r| ensures !less(r[k], c) {
      Asymmetric(less, c, r[k]);
    }
  }

  /** unique: drops the repeats from a list in order. */
  method Unique<T(!new)>(less: (T, T) -> bool, cs: seq<T>) returns (result: seq<T>)
    requires StrictOrder(less) && WeaklySorted(less, cs)
    ensures Sorted(less, result)
    ensures forall c :: c in result ==> c in cs
    ensures forall c :: c in cs ==> Has(less, result, c)
  {
    if |cs| == 0 {
      return [];
    }
    Asymmetric(less, cs[0], cs[0]);
    result := [cs[0]];
    var i, j := 0, 1;
    while j < |cs|
      invariant 1 <= j <= |cs| && i == |result| - 1
      invariant Sorted(less, result)
      invariant forall c :: c in result ==> c in cs
      invariant Same(less, result[i], cs[j - 1])
      invariant forall x :: 0 <= x < j ==> Has(less, result, cs[x])
    {
      if Same(less, result[i], cs[j]) {
        j := j + 1;
      } else {
        SameKey(less, result[i], cs[j - 1], cs[j]);
        assert less(result[i], cs[j]);
        forall c | c in result ensures less(c, cs[j]) {
          var k :| 0 <= k < |result| && result[k] == c;
          if k < i {
            Transitive(less, result[k], result[i], cs[j]);
          }
        }
        SortedAppend(less, result, cs[j]);
        HasAppend(less, result, cs[j]);
        result := result + [cs[j]];
        i, j := i + 1, j + 1;
        Asymmetric(less, cs[j - 1], cs[j - 1]);
      }
    }
  }

  lemma HasAppend<T(!new)>(less: (T, T) -> bool, s: seq<T>, x: T)
    requires StrictOrder(less)
    ensures forall c :: Has(less, s + [x], c) <==> Has(less, s, c) || Same(less, x, c)
    ensures Has(less, s + [x], x)
  {
    forall c ensures Has(less, s + [x], c) <==> Has(less, s, c) || Same(less, x, c) {
      if Has(less, s, c) {
        var k :| 0 <= k < |s| && Same(less, s[k], c);
        assert (s + [x])[k] == s[k];
      } else if Same(less, x, c) {
        assert (s + [x])[|s|] == x;
      }
    }
    Asymmetric(less, x, x);
  }

  /** What precedes one element of a sorted list precedes every later one. */
  lemma BeforeRest<T(!new)>(less: (T, T) -> bool, c: T, s: seq<T>, j: nat)
    requires StrictOrder(less) && Sorted(less, s) && j < |s| && !less(s[j], c)
    ensures forall y :: j < y < |s| ==> less(c, s[y])
    ensures less(c, s[j]) ==> forall y :: j <= y < |s| ==> less(c, s[y])
  {
    forall y | j < y < |s| ensures less(c, s[y]) {
      assert Compared(s[j], c, s[y]);
    }
  }

  /** An element strictly between two neighbours of a list has none of its keys. */
  lemma NotThere<T(!new)>(less: (T, T) -> bool, s: seq<T>, i: nat, c: T)
    requires i <= |s|
    requires forall x :: 0 <= x < i ==> less(s[x], c)
    requires forall y :: i <= y < |s| ==> less(c, s[y])
    ensures !Has(less, s, c)
  {
  }

  /** Every element of `s` precedes `t[i..]`. */
  ghost predicate Precedes<T>(less: (T, T) -> bool, s: seq<T>, t: seq<T>, i: nat) {
    forall c, y :: c in s && i <= y < |t| ==> less(c, t[y])
  }

  /** The state of a merge after `i` elements of `a` and `j` of `b`. */
  ghost predicate Merging<T(!new)>(less: (T, T) -> bool, a: seq<T>, i: nat, b: seq<T>, j: nat, r: seq<T>)
    requires i <= |a| && j <= |b|
  {
    && Sorted(less, r) && Precedes(less, r, a, i) && Precedes(less, r, b, j)
    && forall c :: c in r <==> c in a[..i] || (c in b[..j] && !Has(less, a, c))
  }

  lemma TakeFirst<T(!new)>(less: (T, T) -> bool, a: seq<T>, i: nat, b: seq<T>, j: nat, r: seq<T>)
    requires StrictOrder(less) && Sorted(less, a) && Sorted(less, b)
    requires i < |a| && j <= |b| && Merging(less, a, i, b, j, r)
    requires j < |b| ==> less(a[i], b[j])
    ensures Merging(less, a, i + 1, b, j, r + [a[i]])
  {
    SortedAppend(less, r, a[i]);
    assert a[..i + 1] == a[..i] + [a[i]];
    if j < |b| {
      Asymmetric(less, a[i], b[j]);
      BeforeRest(less, a[i], b, j);
    }
  }

  lemma TakeSecond<T(!new)>(less: (T, T) -> bool, a: seq<T>, i: nat, b: seq<T>, j: nat, r: seq<T>)
    requires StrictOrder(less) && Sorted(less, a) && Sorted(less, b)
    requires i <= |a| && j < |b| && Merging(less, a, i, b, j, r)
    requires i < |a| ==> less(b[j], a[i])
    ensures Merging(less, a, i, b, j + 1, r + [b[j]])
  {
    SortedAppend(less, r, b[j]);
    assert b[..j + 1] == b[..j] + [b[j]];
    if i < |a| {
      Asymmetric(less, a[i], b[j]);
      BeforeRest(less, b[j], a, i);
    }
    forall x | 0 <= x < i ensures less(a[x], b[j]) {
      assert a[x] in a[..i];
    }
    NotThere(less, a, i, b[j]);
  }

  lemma TakeBoth<T(!new)>(less: (T, T) -> bool, a: seq<T>, i: nat, b: seq<T>, j: nat, r: seq<T>)
    requires StrictOrder(less) && Sorted(less, a) && Sorted(less, b)
    requires i < |a| && j < |b| && Merging(less, a, i, b, j, r) && Same(less, a[i], b[j])
    ensures Merging(less, a, i + 1, b, j + 1, r + [a[i]])
  {
    SortedAppend(less, r, a[i]);
    assert a[..i + 1] == a[..i] + [a[i]];
    assert b[..j + 1] == b[..j] + [b[j]];
    BeforeRest(less, a[i], b, j);
    assert Has(less, a, b[j]);
  }

  /** merge: the union of two sorted lists by key, the first list winning on a tie. */
  method Merge<T(!new)>(less: (T, T) -> bool, a: seq<T>, b: seq<T>) returns (result: seq<T>)
    requires StrictOrder(less) && Sorted(less, a) && Sorted(less, b)
    ensures Sorted(less, result)
    ensures forall c :: c in result <==> c in a || (c in b && !Has(less, a, c))
  {
    result := [];
    var i, j := 0, 0;
    while i < |a| && j < |b|
      invariant 0 <= i <= |a| && 0 <= j <= |b| && Merging(less, a, i, b, j, result)
      decreases |a| + |b| - i - j
    {
      if less(a[i], b[j]) {
        TakeFirst(less, a, i, b, j, result);
        result := result + [a[i]];
        i := i + 1;
      } else if less(b[j], a[i]) {
        TakeSecond(less, a, i, b, j, result);
        result := result + [b[j]];
        j := j + 1;
      } else {
        TakeBoth(less, a, i, b, j, result);
        result := result + [a[i]];
        i, j := i + 1, j + 1;
      }
    }
    while i < |a|
      invariant 0 <= i <= |a| && (i < |a| ==> j == |b|) && Merging(less, a, i, b, j, result)
    {
      TakeFirst(less, a, i, b, j, result);
      result := result + [a[i]];
      i := i + 1;
    }
    while j < |b|
      invariant 0 <= j <= |b| && Merging(less, a, i, b, j, result)
    {
      TakeSecond(less, a, i, b, j, result);
      result := result + [b[j]];
      j := j + 1;
    }
    assert a[..i] == a && b[..j] == b;
  }

  /** The state of an intersection that has passed `left[..i]` and `right[..j]`. */
  ghost predicate Intersecting<T(!new)>(less: (T, T) -> bool, left: seq<T>, i: nat, right: seq<T>, j: nat, r: seq<T>)
    requires i <= |left| && j <= |right|
  {
    && Sorted(less, r)
    && (forall c :: c in r <==> c in left && Has(less, right[..j], c))
    && (forall x, y :: 0 <= x < i && j <= y < |right| ==> less(left[x], right[y]))
    && (forall x, y :: 0 <= x < j && i < y < |left| ==> less(right[x], left[y]))
    && (forall x :: 0 <= x < j && i < |left| ==> !less(left[i], right[x]))
  }

  lemma AdvanceLeft<T(!new)>(less: (T, T) -> bool, left: seq<T>, i: nat, right: seq<T>, j: nat, r: seq<T>)
    requires StrictOrder(less) && Sorted(less, left) && Sorted(less, right)
    requires i < |left| && j < |right| && Intersecting(less, left, i, right, j, r)
    requires less(left[i], right[j])
    ensures Intersecting(less, left, i + 1, right, j, r)
  {
    Asymmetric(less, left[i], right[j]);
    BeforeRest(less, left[i], right, j);
    forall x | 0 <= x < j && i + 1 < |left| ensures !less(left[i + 1], right[x]) {
      Asymmetric(less, left[i + 1], right[x]);
    }
  }

  lemma AdvanceRight<T(!new)>(less: (T, T) -> bool, left: seq<T>, i: nat, right: seq<T>, j: nat, r: seq<T>)
    requires StrictOrder(less) && Sorted(less, left) && Sorted(less, right)
    requires i < |left| && j < |right| && Intersecting(less, left, i, right, j, r)
    requires !less(left[i], right[j])
    ensures Intersecting(less, left, i, right, j + 1, if less(right[j], left[i]) then r else r + [left[i]])
  {
    assert right[..j + 1] == right[..j] + [right[j]];
    HasAppend(less, right[..j], right[j]);
    BeforeRest(less, right[j], left, i);
    forall x | 0 <= x < |left| && Same(less, right[j], left[x])
      ensures x == i
    {
    }
    if Same(less, left[i], right[j]) {
      forall c | c in r ensures less(c, left[i]) {
        var x :| 0 <= x < |left| && left[x] == c;
        var k :| 0 <= k < j && Same(less, right[..j][k], c);
        if x == i {
          SameKey(less, left[i], right[j], right[k]);
        }
      }
      SortedAppend(less, r, left[i]);
    }
  }

  /** The two-list case of nWayIntersect. */
  method Intersect<T(!new)>(less: (T, T) -> bool, left: seq<T>, right: seq<T>) returns (result: seq<T>)
    requires StrictOrder(less) && Sorted(less, left) && Sorted(less, right)
    ensures Sorted(less, result)
    ensures forall c :: c in result <==> c in left && Has(less, right, c)
  {
    result := [];
    var i, j := 0, 0;
    while i < |left| && j < |right|
      invariant 0 <= i <= |left| && 0 <= j <= |right| && Intersecting(less, left, i, right, j, result)
      decreases |left| + |right| - i - j
    {
      ghost var before := result;
      if Same(less, left[i], right[j]) {
        result := result + [left[i]];
      }
      if less(left[i], right[j]) {
        AdvanceLeft(less, left, i, right, j, before);
        i := i + 1;
      } else {
        AdvanceRight(less, left, i, right, j, before);
        j := j + 1;
      }
    }
    forall c | c in left ensures Has(less, right, c) <==> Has(less, right[..j], c) {
      if Has(less, right, c) {
        var k :| 0 <= k < |right| && Same(less, right[k], c);
        var x :| 0 <= x < |left| && left[x] == c;
        assert k < j;
        assert right[..j][k] == right[k];
      }
    }
  }

  /** The key of `x` is in every one of the lists. */
  ghost predicate InAll<T>(less: (T, T) -> bool, sets: seq<seq<T>>, x: T) {
    forall s :: 0 <= s < |sets| ==> Has(less, sets[s], x)
  }

  /** nWayIntersect: the elements of the first list whose keys are in every list. */
  method NWayIntersect<T(!new)>(less: (T, T) -> bool, sets: seq<seq<T>>) returns (result: seq<T>)
    requires StrictOrder(less) && forall s :: 0 <= s < |sets| ==> Sorted(less, sets[s])
    ensures Sorted(less, result)
    ensures sets == [] ==> result == []
    ensures sets != [] ==> forall c :: c in result <==> c in sets[0] && InAll(less, sets, c)
    decreases |sets|
  {
    var l := |sets|;
    if l == 0 {
      result := [];
    } else if l == 1 {
      result := sets[0];
      HasMember(less, sets[0]);
    } else if l == 2 {
      result := Intersect(less, sets[0], sets[1]);
      HasMember(less, sets[0]);
    } else {
      var split := l / 2;
      var left := NWayIntersect(less, sets[..split]);
      var right := NWayIntersect(less, sets[split..]);
      result := NWayIntersect(less, [left, right]);
      HasMember(less, left);
      forall c | c in left ensures InAll(less, [left, right], c) <==> InAll(less, sets, c) {
        IntersectionHas(less, sets[split..], right, c);
        InAllSplits(less, sets, split, c);
        assert [left, right][1] == right && [left, right][0] == left;
      }
      forall c | c in sets[0] && InAll(less, sets, c) ensures c in left {
        InAllSplits(less, sets, split, c);
      }
    }
  }

  lemma HasMember<T(!new)>(less: (T, T) -> bool, s: seq<T>)
    requires StrictOrder(less)
    ensures forall c :: c in s ==> Has(less, s, c)
  {
    forall c | c in s ensures Has(less, s, c) {
      Asymmetric(less, c, c);
    }
  }

  lemma InAllSplits<T>(less: (T, T) -> bool, sets: seq<seq<T>>, split: nat, c: T)
    requires split <= |sets|
    ensures InAll(less, sets, c) <==> InAll(less, sets[..split], c) && InAll(less, sets[split..], c)
  {
    assert sets == sets[..split] + sets[split..];
    if InAll(less, sets[..split], c) && InAll(less, sets[split..], c) {
      forall s | 0 <= s < |sets| ensures Has(less, sets[s], c) {
        if s < split {
          assert sets[..split][s] == sets[s];
        } else {
          assert sets[split..][s - split] == sets[s];
        }
      }
    }
  }

  /** The keys of an intersection are the keys that are in every list. */
  lemma IntersectionHas<T(!new)>(less: (T, T) -> bool, sets: seq<seq<T>>, result: seq<T>, x: T)
    requires StrictOrder(less) && sets != []
    requires forall c :: c in result <==> c in sets[0] && InAll(less, sets, c)
    ensures Has(less, result, x) <==> InAll(less, sets, x)
  {
    if Has(less, result, x) {
      var k :| 0 <= k < |result| && Same(less, result[k], x);
      assert result[k] in result;
      SameInAll(less, sets, result[k], x);
    }
    if InAll(less, sets, x) {
      assert Has(less, sets[0], x);
      var k :| 0 <= k < |sets[0]| && Same(less, sets[0][k], x);
      SameInAll(less, sets, sets[0][k], x);
      assert sets[0][k] in result;
    }
  }

  lemma SameInAll<T(!new)>(less: (T, T) -> bool, sets: seq<seq<T>>, x: T, y: T)
    requires StrictOrder(less) && Same(less, x, y)
    ensures InAll(less, sets, x) <==> InAll(less, sets, y)
  {
    forall s | 0 <= s < |sets| ensures Has(less, sets[s], x) <==> Has(less, sets[s], y) {
      forall k | 0 <= k < |sets[s]| ensures Same(less, sets[s][k], x) <==> Same(less, sets[s][k], y) {
        SameKey(less, x, y, sets[s][k]);
      }
    }
  }

  /** A sorted list is determined by the elements in it. */
  lemma {:induction false} SortedIsUnique<T(!new)>(less: (T, T) -> bool, s: seq<T>, t: seq<T>)
    requires StrictOrder(less) && Sorted(less, s) && Sorted(less, t)
    requires forall c :: c in s <==> c in t
    ensures s == t
  {
    assert (s != [] ==> s[0] in s) && (t != [] ==> t[0] in t);
    if s != [] {
      SameFirst(less, s, t);
      assert s == [s[0]] + s[1..] && t == [t[0]] + t[1..];
      FirstOnlyOnce(less, s);
      FirstOnlyOnce(less, t);
      forall c ensures c in s[1..] <==> c in t[1..] {
        assert c in s <==> c == s[0] || c in s[1..];
        assert c in t <==> c == t[0] || c in t[1..];
      }
      SortedIsUnique(less, s[1..], t[1..]);
    }
  }

  lemma FirstOnlyOnce<T(!new)>(less: (T, T) -> bool, s: seq<T>)
    requires StrictOrder(less) && Sorted(less, s) && s != []
    ensures s[0] !in s[1..]
  {
    Asymmetric(less, s[0], s[0]);
  }

  lemma SameFirst<T(!new)>(less: (T, T) -> bool, s: seq<T>, t: seq<T>)
    requires StrictOrder(less) && Sorted(less, s) && Sorted(less, t)
    requires s != [] && t != [] && s[0] in t && t[0] in s
    ensures s[0] == t[0]
  {
    var k :| 0 <= k < |t| && t[k] == s[0];
    var m :| 0 <= m < |s| && s[m] == t[0];
    if k != 0 && m != 0 {
      Asymmetric(less, s[0], t[0]);
    }
  }

  /** Inserting an element of a new key where it belongs keeps a list sorted. */
  lemma InsertStrict<T(!new)>(less: (T, T) -> bool, s: seq<T>, i: nat, x: T)
    requires StrictOrder(less) && Sorted(less, s) && i <= |s|
    requires forall k :: 0 <= k < i ==> less(s[k], x)
    requires i < |s| ==> less(x, s[i])
    ensures Sorted(less, s[..i] + [x] + s[i..])
    ensures forall c :: c in s[..i] + [x] + s[i..] <==> c in s || c == x
    ensures !Has(less, s, x)
  {
    if i < |s| {
      Asymmetric(less, x, s[i]);
      BeforeRest(less, x, s, i);
    }
    NotThere(less, s, i, x);
    assert s == s[..i] + s[i..];
  }

  /** Along a sorted list, not being below a bound is monotone. */
  lemma NotBelowIsMonotone<T(!new)>(less: (T, T) -> bool, s: seq<T>, x: T, k: nat, m: nat)
    requires StrictOrder(less) && Sorted(less, s) && k <= m < |s| && !less(s[k], x)
    ensures !less(s[m], x)
  {
    if k < m && less(s[m], x) {
      Transitive(less, s[k], s[m], x);
    }
  }

  ghost predicate Distinct<T>(s: seq<T>) {
    forall i, j :: 0 <= i < j < |s| ==> s[i] != s[j]
  }

  /** The positions, in increasing order, of exactly those elements that a test keeps. */
  ghost predicate Selects<T>(s: seq<T>, keep: T -> bool, ks: seq<nat>) {
    && (forall i, j :: 0 <= i < j < |ks| ==> ks[i] < ks[j])
    && (forall i :: 0 <= i < |ks| ==> ks[i] < |s| && keep(s[ks[i]]))
    && (forall k: nat :: k < |s| && keep(s[k]) ==> k in ks)
  }

  /** The elements at the positions. */
  function Picked<T>(s: seq<T>, ks: seq<nat>): (r: seq<T>)
    requires forall i :: 0 <= i < |ks| ==> ks[i] < |s|
    ensures |r| == |ks| && forall i :: 0 <= i < |ks| ==> r[i] == s[ks[i]]
  {
    seq(|ks|, i requires 0 <= i < |ks| => s[ks[i]])
  }

  /** One element more at the end, kept or not. */
  lemma SelectsNext<T>(s: seq<T>, keep: T -> bool, ks: seq<nat>)
    requires s != [] && Selects(s[..|s| - 1], keep, ks)
    ensures var n := |s| - 1;
            var ks' := if keep(s[n]) then ks + [n] else ks;
            && Selects(s, keep, ks')
            && Picked(s, ks') == Picked(s[..n], ks) + if keep(s[n]) then [s[n]] else []
  {
    var n := |s| - 1;
    var front := s[..n];
    assert forall i :: 0 <= i < |ks| ==> ks[i] < n && front[ks[i]] == s[ks[i]];
    if keep(s[n]) {
      SelectsOneMore(front, s[n], keep, ks);
      assert s == front + [s[n]];
    } else {
      forall k: nat | k < |s| && keep(s[k]) ensures k in ks {
        assert k < n && front[k] == s[k];
      }
    }
  }

  lemma SelectsOneMore<T>(s: seq<T>, x: T, keep: T -> bool, ks: seq<nat>)
    requires Selects(s, keep, ks) && keep(x)
    ensures Selects(s + [x], keep, ks + [|s|]) && Picked(s + [x], ks + [|s|]) == Picked(s, ks) + [x]
  {
    var s', ks' := s + [x], ks + [|s|];
    assert ks'[|ks|] == |s| && s'[|s|] == x;
    forall k: nat | k < |s'| && keep(s'[k]) ensures k in ks' {
      if k < |s| {
        assert s'[k] == s[k] && k in ks;
      }
    }
    forall i | 0 <= i < |ks'| ensures ks'[i] < |s'| && keep(s'[ks'[i]]) {
      if i < |ks| {
        assert ks'[i] == ks[i] && s'[ks[i]] == s[ks[i]];
      }
    }
  }

  lemma {:induction false} DistinctCounts<T>(s: seq<T>, x: T)
    requires Distinct(s)
    ensures multiset(s)[x] <= 1
  {
    if s != [] {
      DistinctCounts(s[1..], x);
      assert s == [s[0]] + s[1..];
      assert s[0] !in multiset(s[1..]);
    }
  }

  /** A permutation of a list without repeats has none. */
  lemma PermutationIsDistinct<T>(s: seq<T>, r: seq<T>)
    requires Distinct(s) && multiset(r) == multiset(s)
    ensures Distinct(r)
  {
    forall i, j | 0 <= i < j < |r| ensures r[i] != r[j] {
      if r[i] == r[j] {
        assert r == r[..j] + [r[j]] + r[j + 1..];
        assert multiset(r) == multiset(r[..j]) + multiset{r[j]} + multiset(r[j + 1..]);
        assert r[i] == r[..j][i];
        assert r[i] in multiset(r[..j]);
        DistinctCounts(s, r[j]);
      }
    }
  }

  /** The order in which the results of goroutines come off a channel: any order. */
  method Arrivals<T(!new)>(s: seq<T>) returns (r: seq<T>)
    ensures multiset(r) == multiset(s) && forall x :: x in r <==> x in s
  {
    r := [];
    var rest := s;
    while rest != []
      invariant multiset(r) + multiset(rest) == multiset(s)
      decreases |rest|
    {
      var k :| 0 <= k < |rest|;
      assert rest == rest[..k] + [rest[k]] + rest[k + 1..];
      r, rest := r + [rest[k]], rest[..k] + rest[k + 1..];
    }
    assert forall x :: x in r <==> x in multiset(r);
    assert forall x :: x in s <==> x in multiset(s);
  }
}

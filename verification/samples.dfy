/** Sample pairs, and the merge of two lists of them. */
module Samples {
  import opened SortedLists

  datatype Sample = Sample(timestamp: int, value: real)

  predicate Earlier(a: Sample, b: Sample) {
    a.timestamp < b.timestamp
  }

  /** Some sample of the list is at the time. */
  ghost predicate Covers(s: seq<Sample>, t: int) {
    exists k :: 0 <= k < |s| && s[k].timestamp == t
  }

  /** What a merge of two lists gives: the earlier head each time, the first list's on a tie. */
  function Merged(a: seq<Sample>, b: seq<Sample>): seq<Sample>
    decreases |a| + |b|
  {
    if a == [] then b
    else if b == [] then a
    else if a[0].timestamp < b[0].timestamp then [a[0]] + Merged(a[1..], b)
    else if a[0].timestamp > b[0].timestamp then [b[0]] + Merged(a, b[1..])
    else [a[0]] + Merged(a[1..], b[1..])
  }

  /** The merge after `i` samples of the one list and `j` of the other. */
  ghost predicate Merging(a: seq<Sample>, i: nat, b: seq<Sample>, j: nat, result: seq<Sample>) {
    i <= |a| && j <= |b| && result + Merged(a[i..], b[j..]) == Merged(a, b)
  }

  lemma TakeFirst(a: seq<Sample>, i: nat, b: seq<Sample>, j: nat, result: seq<Sample>)
    requires Merging(a, i, b, j, result) && i < |a| && (j == |b| || a[i].timestamp < b[j].timestamp)
    ensures Merging(a, i + 1, b, j, result + [a[i]])
  {
    assert a[i..] == [a[i]] + a[i + 1..];
    assert result + ([a[i]] + Merged(a[i + 1..], b[j..])) == result + [a[i]] + Merged(a[i + 1..], b[j..]);
  }

  lemma TakeSecond(a: seq<Sample>, i: nat, b: seq<Sample>, j: nat, result: seq<Sample>)
    requires Merging(a, i, b, j, result) && j < |b| && (i == |a| || a[i].timestamp > b[j].timestamp)
    ensures Merging(a, i, b, j + 1, result + [b[j]])
  {
    assert b[j..] == [b[j]] + b[j + 1..];
    assert result + ([b[j]] + Merged(a[i..], b[j + 1..])) == result + [b[j]] + Merged(a[i..], b[j + 1..]);
  }

  lemma TakeBoth(a: seq<Sample>, i: nat, b: seq<Sample>, j: nat, result: seq<Sample>)
    requires Merging(a, i, b, j, result) && i < |a| && j < |b| && a[i].timestamp == b[j].timestamp
    ensures Merging(a, i + 1, b, j + 1, result + [a[i]])
  {
    assert a[i..] == [a[i]] + a[i + 1..] && b[j..] == [b[j]] + b[j + 1..];
    assert result + ([a[i]] + Merged(a[i + 1..], b[j + 1..])) == result + [a[i]] + Merged(a[i + 1..], b[j + 1..]);
  }

  /** MergeSamples. */
  method MergeSamples(a: seq<Sample>, b: seq<Sample>) returns (result: seq<Sample>)
    ensures result == Merged(a, b)
  {
    result := [];
    var i, j := 0, 0;
    assert a[0..] == a && b[0..] == b;
    while i < |a| && j < |b|
      invariant Merging(a, i, b, j, result)
      decreases |a| + |b| - i - j
    {
      if a[i].timestamp < b[j].timestamp {
        TakeFirst(a, i, b, j, result);
        result := result + [a[i]];
        i := i + 1;
      } else if a[i].timestamp > b[j].timestamp {
        TakeSecond(a, i, b, j, result);
        result := result + [b[j]];
        j := j + 1;
      } else {
        TakeBoth(a, i, b, j, result);
        result := result + [a[i]];
        i, j := i + 1, j + 1;
      }
    }
    while i < |a|
      invariant Merging(a, i, b, j, result) && (i < |a| ==> j == |b|)
    {
      TakeFirst(a, i, b, j, result);
      result := result + [a[i]];
      i := i + 1;
    }
    while j < |b|
      invariant Merging(a, i, b, j, result)
    {
      TakeSecond(a, i, b, j, result);
      result := result + [b[j]];
      j := j + 1;
    }
  }

  /** Whatever the lists are, a merge loses no time and makes up no sample. */
  lemma {:induction false} MergeCovers(a: seq<Sample>, b: seq<Sample>)
    ensures forall t :: Covers(Merged(a, b), t) <==> Covers(a, t) || Covers(b, t)
    ensures forall x :: x in Merged(a, b) ==> x in a || x in b
    decreases |a| + |b|
  {
    if a != [] && b != [] {
      var i := if a[0].timestamp <= b[0].timestamp then 1 else 0;
      var j := if a[0].timestamp >= b[0].timestamp then 1 else 0;
      var head := if i == 1 then a[0] else b[0];
      MergeCovers(a[i..], b[j..]);
      assert a[0..] == a && b[0..] == b;
      assert Merged(a, b) == [head] + Merged(a[i..], b[j..]);
      CoversHead(head, Merged(a[i..], b[j..]));
      if i == 1 {
        CoversHead(a[0], a[1..]);
        assert a == [a[0]] + a[1..];
      }
      if j == 1 {
        CoversHead(b[0], b[1..]);
        assert b == [b[0]] + b[1..];
      }
    }
  }

  lemma CoversHead(x: Sample, s: seq<Sample>)
    ensures forall t :: Covers([x] + s, t) <==> x.timestamp == t || Covers(s, t)
  {
    forall t ensures Covers([x] + s, t) <==> x.timestamp == t || Covers(s, t) {
      if x.timestamp == t {
        assert ([x] + s)[0].timestamp == t;
      } else if Covers(s, t) {
        var k :| 0 <= k < |s| && s[k].timestamp == t;
        assert ([x] + s)[k + 1].timestamp == t;
      }
    }
  }

  /** Lists in order merge into a list in order with one sample a time, the first list's where
      both have one. */
  lemma {:induction false} MergeIsSorted(a: seq<Sample>, b: seq<Sample>)
    requires Sorted(Earlier, a) && Sorted(Earlier, b)
    ensures Sorted(Earlier, Merged(a, b))
    ensures forall x :: x in Merged(a, b) <==> x in a || (x in b && !Covers(a, x.timestamp))
    decreases |a| + |b|
  {
    if a != [] && b != [] {
      var i := if a[0].timestamp <= b[0].timestamp then 1 else 0;
      var j := if a[0].timestamp >= b[0].timestamp then 1 else 0;
      var head := if i == 1 then a[0] else b[0];
      MergeIsSorted(a[i..], b[j..]);
      assert a[0..] == a && b[0..] == b;
      var tail := Merged(a[i..], b[j..]);
      assert Merged(a, b) == [head] + tail;
      forall x | x in tail ensures head.timestamp < x.timestamp {
        LaterThanHead(a, b, i, j, x);
      }
      MergedMembers(a, b, i, j, tail);
    }
  }

  lemma LaterThanHead(a: seq<Sample>, b: seq<Sample>, i: nat, j: nat, x: Sample)
    requires Sorted(Earlier, a) && Sorted(Earlier, b) && a != [] && b != []
    requires i == (if a[0].timestamp <= b[0].timestamp then 1 else 0)
    requires j == (if a[0].timestamp >= b[0].timestamp then 1 else 0)
    requires x in a[i..] || x in b[j..]
    ensures (if i == 1 then a[0] else b[0]).timestamp < x.timestamp
  {
    if x in a[i..] {
      var k :| i <= k < |a| && a[k] == x;
      assert k > 0 ==> Earlier(a[0], a[k]);
    } else {
      var k :| j <= k < |b| && b[k] == x;
      assert k > 0 ==> Earlier(b[0], b[k]);
    }
  }

  lemma MergedMembers(a: seq<Sample>, b: seq<Sample>, i: nat, j: nat, tail: seq<Sample>)
    requires Sorted(Earlier, a) && Sorted(Earlier, b) && a != [] && b != []
    requires i == (if a[0].timestamp <= b[0].timestamp then 1 else 0)
    requires j == (if a[0].timestamp >= b[0].timestamp then 1 else 0)
    requires forall x :: x in tail <==> x in a[i..] || (x in b[j..] && !Covers(a[i..], x.timestamp))
    ensures forall x :: x in [if i == 1 then a[0] else b[0]] + tail <==> x in a || (x in b && !Covers(a, x.timestamp))
  {
    assert a == [a[0]] + a[1..] && b == [b[0]] + b[1..] && a[0..] == a && b[0..] == b;
    CoversHead(a[0], a[1..]);
    forall x | x in b[j..] && i == 1 ensures x.timestamp != a[0].timestamp {
      LaterThanHead(a, b, i, j, x);
    }
    forall k | 0 <= k < |a| && i == 0 ensures a[k].timestamp > b[0].timestamp {
      assert k > 0 ==> Earlier(a[0], a[k]);
    }
  }
}

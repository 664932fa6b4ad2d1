/** Splitting and joining byte strings on one delimiter byte: `strings.Split`
    and `strings.Join`, and the laws that make them inverse to each other. */
module Delimited {
  import opened ByteStrings

  /** `strings.Split(s, d)` for a one-byte separator. */
  function Split(s: Bytes, d: Byte): (r: seq<Bytes>)
    ensures |r| >= 1
  {
    if s == [] then [[]]
    else
      var rest := Split(s[1..], d);
      if s[0] == d then [[]] + rest else [[s[0]] + rest[0]] + rest[1..]
  }

  /** `strings.Join(parts, d)`. */
  function Join(parts: seq<Bytes>, d: Byte): Bytes
    requires |parts| >= 1
  {
    if |parts| == 1 then parts[0] else parts[0] + [d] + Join(parts[1..], d)
  }

  lemma JoinPair(a: Bytes, b: Bytes, d: Byte)
    ensures Join([a, b], d) == a + [d] + b
  {
    var parts: seq<Bytes> := [a, b];
    assert parts[1..] == [b];
    assert Join(parts[1..], d) == b;
  }

  predicate AllFree(parts: seq<Bytes>, d: Byte) {
    forall k :: 0 <= k < |parts| ==> Free(parts[k], d)
  }

  lemma {:induction false} SplitFree(s: Bytes, d: Byte)
    requires Free(s, d)
    ensures Split(s, d) == [s]
  {
    if s != [] {
      SplitFree(s[1..], d);
      assert [s[0]] + s[1..] == s;
    }
  }

  /** The first delimiter cuts off the first part. */
  lemma {:induction false} SplitAtDelimiter(a: Bytes, d: Byte, b: Bytes)
    requires Free(a, d)
    ensures Split(a + [d] + b, d) == [a] + Split(b, d)
  {
    var s := a + [d] + b;
    if a == [] {
      assert s[1..] == b;
    } else {
      assert s[1..] == a[1..] + [d] + b;
      SplitAtDelimiter(a[1..], d, b);
      assert [a[0]] + a[1..] == a;
      assert Split(s, d) == [[s[0]] + Split(s[1..], d)[0]] + Split(s[1..], d)[1..];
    }
  }

  lemma {:induction false} SplitJoin(parts: seq<Bytes>, d: Byte)
    requires |parts| >= 1 && AllFree(parts, d)
    ensures Split(Join(parts, d), d) == parts
  {
    if |parts| == 1 {
      SplitFree(parts[0], d);
    } else {
      SplitAtDelimiter(parts[0], d, Join(parts[1..], d));
      SplitJoin(parts[1..], d);
      assert parts == [parts[0]] + parts[1..];
    }
  }

  lemma {:induction false} JoinSplit(s: Bytes, d: Byte)
    ensures Join(Split(s, d), d) == s
    ensures AllFree(Split(s, d), d)
  {
    if s != [] {
      JoinSplit(s[1..], d);
      var rest := Split(s[1..], d);
      if s[0] == d {
        assert Split(s, d)[1..] == rest;
      } else {
        assert Split(s, d)[1..] == rest[1..];
      }
    }
  }

  /** Joining parts keeps out every byte that is in no part and is not the delimiter. */
  lemma {:induction false} JoinFree(parts: seq<Bytes>, d: Byte, x: Byte)
    requires |parts| >= 1 && AllFree(parts, x) && x != d
    ensures Free(Join(parts, d), x)
  {
    if |parts| > 1 {
      JoinFree(parts[1..], d, x);
    }
  }

  /** A splitting is longer than one part exactly when the delimiter occurs. */
  lemma {:induction false} SplitLength(s: Bytes, d: Byte)
    ensures |Split(s, d)| == 1 <==> Free(s, d)
  {
    if s != [] {
      SplitLength(s[1..], d);
      assert s == [s[0]] + s[1..];
    }
  }

  /** Only delimiter-free text before the first delimiter and the rest after it count:
      the number of parts adds up. */
  lemma {:induction false} SplitConcatLength(a: Bytes, d: Byte, b: Bytes)
    ensures |Split(a + [d] + b, d)| == |Split(a, d)| + |Split(b, d)|
  {
    var s := a + [d] + b;
    if a == [] {
      assert s[1..] == b;
    } else {
      assert s[1..] == a[1..] + [d] + b;
      SplitConcatLength(a[1..], d, b);
    }
  }

  /** Text up to the first delimiter is determined by the whole. */
  lemma FirstPart(a: Bytes, x: Bytes, b: Bytes, y: Bytes, d: Byte)
    requires Free(a, d) && Free(b, d) && a + [d] + x == b + [d] + y
    ensures a == b && x == y
  {
    SplitAtDelimiter(a, d, x);
    SplitAtDelimiter(b, d, y);
    assert Split(a + [d] + x, d)[0] == a && Split(b + [d] + y, d)[0] == b;
    assert (a + [d] + x)[|a| + 1..] == x && (b + [d] + y)[|b| + 1..] == y;
  }

  /** Text after the last delimiter is determined by the whole. */
  lemma LastPart(a: Bytes, x: Bytes, b: Bytes, y: Bytes, d: Byte)
    requires Free(x, d) && Free(y, d) && a + [d] + x == b + [d] + y
    ensures a == b && x == y
  {
    var s, t := a + [d] + x, b + [d] + y;
    assert s[|a|] == d && t[|b|] == d;
    assert forall k :: 0 <= k < |x| ==> s[|a| + 1 + k] == x[k];
    assert forall k :: 0 <= k < |y| ==> t[|b| + 1 + k] == y[k];
    assert s[..|a|] == a && t[..|b|] == b;
    assert s[|a| + 1..] == x && t[|b| + 1..] == y;
  }
}

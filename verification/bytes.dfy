/** Byte strings and their lexicographic order.

    Go strings and byte slices are both sequences of bytes; `bytes.Compare` and
    the comparison operators on Go strings are the order defined here. */
module ByteStrings {
  import opened SortedLists

  type Byte = b: int | 0 <= b < 256

  type Bytes = seq<Byte>

  datatype Option<+T> = None | Some(value: T)

  const NUL: Byte := 0
  const SLASH: Byte := 47
  const ZERO: Byte := 48
  const NINE: Byte := 57
  const COLON: Byte := 58

  /** True when `d` does not occur in `s`. */
  predicate Free(s: Bytes, d: Byte) {
    d !in s
  }

  /** `bytes.Compare(a, b) < 0`. */
  predicate Less(a: Bytes, b: Bytes) {
    b != [] && (a == [] || a[0] < b[0] || (a[0] == b[0] && Less(a[1..], b[1..])))
  }

  lemma {:induction false} LessIrreflexive(a: Bytes)
    ensures !Less(a, a)
  {
    if a != [] {
      LessIrreflexive(a[1..]);
    }
  }

  lemma {:induction false} LessTransitive(a: Bytes, b: Bytes, c: Bytes)
    requires Less(a, b) && Less(b, c)
    ensures Less(a, c)
  {
    if a != [] && a[0] == b[0] && b[0] == c[0] {
      LessTransitive(a[1..], b[1..], c[1..]);
    }
  }

  lemma {:induction false} LessTrichotomy(a: Bytes, b: Bytes)
    ensures Less(a, b) || a == b || Less(b, a)
    ensures !(Less(a, b) && Less(b, a))
  {
    if a != [] && b != [] && a[0] == b[0] {
      LessTrichotomy(a[1..], b[1..]);
      assert a == [a[0]] + a[1..] && b == [b[0]] + b[1..];
    }
  }

  lemma LessOrder(x: Bytes, y: Bytes, z: Bytes)
    ensures !Less(x, x) && (Less(x, y) && Less(y, z) ==> Less(x, z))
    ensures Less(x, z) ==> Less(x, y) || Less(y, z)
  {
    LessIrreflexive(x);
    LessTrichotomy(x, y);
    if Less(x, y) && Less(y, z) {
      LessTransitive(x, y, z);
    }
    if Less(x, z) && Less(y, x) {
      LessTransitive(y, x, z);
    }
  }

  lemma LessIsStrictOrder()
    ensures StrictOrder(Less)
  {
    forall x, y, z | Compared(x, y, z)
      ensures !Less(x, x) && (Less(x, y) && Less(y, z) ==> Less(x, z)) && (Less(x, z) ==> Less(x, y) || Less(y, z))
    {
      LessOrder(x, y, z);
    }
  }

  lemma StrictlySorted(s: seq<Bytes>)
    requires WeaklySorted(Less, s) && Distinct(s)
    ensures Sorted(Less, s)
  {
    forall i, j | 0 <= i < j < |s| ensures Less(s[i], s[j]) {
      LessTrichotomy(s[i], s[j]);
    }
  }

  /** A byte string never sorts before one of its prefixes. */
  lemma {:induction false} PrefixNotGreater(p: Bytes, s: Bytes)
    requires p <= s
    ensures !Less(s, p)
  {
    if p != [] {
      PrefixNotGreater(p[1..], s[1..]);
    }
  }

  /** The strings with a given prefix form one contiguous run of the order. */
  lemma {:induction false} PrefixRunIsContiguous(p: Bytes, lo: Bytes, x: Bytes)
    requires !Less(lo, p) && !(p <= lo)
    requires Less(lo, x)
    ensures !(p <= x)
  {
    if p <= x && p != [] {
      assert lo != [];
      if lo[0] == p[0] {
        assert p == [p[0]] + p[1..] && lo == [lo[0]] + lo[1..];
        PrefixRunIsContiguous(p[1..], lo[1..], x[1..]);
      }
    }
  }

  /** Equal leading parts can be dropped from a comparison. */
  lemma {:induction false} LessCommonPrefix(p: Bytes, a: Bytes, b: Bytes)
    ensures Less(p + a, p + b) == Less(a, b)
  {
    if p == [] {
      assert p + a == a && p + b == b;
    } else {
      assert (p + a)[1..] == p[1..] + a && (p + b)[1..] == p[1..] + b;
      LessCommonPrefix(p[1..], a, b);
    }
  }

  /** Strings of one length order the same way whatever follows them. */
  lemma {:induction false} LessExtends(a: Bytes, b: Bytes, x: Bytes, y: Bytes)
    requires |a| == |b| && Less(a, b)
    ensures Less(a + x, b + y)
  {
    assert (a + x)[1..] == a[1..] + x && (b + y)[1..] == b[1..] + y;
    if a[0] == b[0] {
      LessExtends(a[1..], b[1..], x, y);
    }
  }
}

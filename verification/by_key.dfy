/** Chunks in the order of their external keys. */
module ByKey {
  import opened ByteStrings
  import opened ExternalKeys
  import opened SortedLists

  /** A chunk whose key identifies it. */
  type Ref = r: ChunkRef | r.InRange()
    witness ChunkRef([], 0, 0, 0, Some(0))

  /** ByKey.Less. */
  predicate Before(a: Ref, b: Ref) {
    Less(Key(a), Key(b))
  }

  lemma BeforeIsStrictOrder()
    ensures StrictOrder(Before)
  {
    forall x: Ref, y: Ref, z: Ref | Compared(x, y, z)
      ensures !Before(x, x) && (Before(x, y) && Before(y, z) ==> Before(x, z))
      ensures Before(x, z) ==> Before(x, y) || Before(y, z)
    {
      LessOrder(Key(x), Key(y), Key(z));
    }
  }

  /** Chunks with one key are one chunk, so a list has a key just when it has the chunk. */
  lemma SameIsEqual(a: Ref, b: Ref)
    ensures Same(Before, a, b) <==> a == b
  {
    LessTrichotomy(Key(a), Key(b));
    if Key(a) == Key(b) {
      KeyInjective(a, b);
    }
  }

  lemma HasIsIn(s: seq<Ref>, c: Ref)
    ensures Has(Before, s, c) <==> c in s
  {
    forall k | 0 <= k < |s| ensures Same(Before, s[k], c) <==> s[k] == c {
      SameIsEqual(s[k], c);
    }
  }

  /** In key order and without repeats. */
  ghost predicate InOrder(s: seq<Ref>) {
    Sorted(Before, s)
  }

  lemma InOrderIsByKey(s: seq<Ref>)
    requires InOrder(s)
    ensures forall i, j :: 0 <= i < j < |s| ==> Less(Key(s[i]), Key(s[j]))
  {
  }

  lemma InOrderIsDistinct(s: seq<Ref>)
    requires InOrder(s)
    ensures Distinct(s)
  {
    BeforeIsStrictOrder();
    forall i, j | 0 <= i < j < |s| ensures s[i] != s[j] {
      Asymmetric(Before, s[i], s[j]);
    }
  }

  /** `sort.Sort` followed by unique: the same chunks in order, once each. */
  method SortUnique(cs: seq<Ref>) returns (r: seq<Ref>)
    ensures InOrder(r) && forall c :: c in r <==> c in cs
  {
    BeforeIsStrictOrder();
    var sorted := Sort(Before, cs);
    r := Unique(Before, sorted);
    forall c: Ref ensures c in r <==> c in cs {
      HasIsIn(r, c);
    }
  }

  /** Some list has the chunk; every list has the chunk. */
  ghost predicate InSome(lists: seq<seq<Ref>>, c: ChunkRef) {
    exists l :: l in lists && c in l
  }

  ghost predicate InEvery(lists: seq<seq<Ref>>, c: ChunkRef) {
    forall l :: l in lists ==> c in l
  }

  ghost predicate AllInOrder(lists: seq<seq<Ref>>) {
    forall l :: l in lists ==> InOrder(l)
  }

  /** merge of one more list. */
  method Union(a: seq<Ref>, b: seq<Ref>) returns (r: seq<Ref>)
    requires InOrder(a) && InOrder(b)
    ensures InOrder(r) && forall c :: c in r <==> c in a || c in b
  {
    BeforeIsStrictOrder();
    r := Merge(Before, a, b);
    forall c: Ref ensures c in r <==> c in a || c in b {
      HasIsIn(a, c);
    }
  }

  /** Merging lists as they arrive, in whatever order: their union. */
  method MergeArrivals(lists: seq<seq<Ref>>) returns (r: seq<Ref>)
    requires AllInOrder(lists)
    ensures InOrder(r) && forall c :: c in r <==> InSome(lists, c)
  {
    var arrived := Arrivals(lists);
    r := [];
    for n := 0 to |arrived|
      invariant InOrder(r) && forall c :: c in r <==> InSome(arrived[..n], c)
    {
      assert arrived[..n + 1] == arrived[..n] + [arrived[n]];
      assert arrived[n] in lists;
      r := Union(r, arrived[n]);
    }
    assert arrived[..|arrived|] == arrived;
  }

  /** nWayIntersect of the lists as they arrive, in whatever order: their intersection, and
      nothing for no lists at all. */
  method IntersectArrivals(lists: seq<seq<Ref>>) returns (r: seq<Ref>)
    requires AllInOrder(lists)
    ensures InOrder(r)
    ensures forall c :: c in r <==> lists != [] && InEvery(lists, c)
  {
    var sets := Arrivals(lists);
    BeforeIsStrictOrder();
    forall s | 0 <= s < |sets| ensures Sorted(Before, sets[s]) {
      assert sets[s] in lists && InOrder(sets[s]);
    }
    r := NWayIntersect(Before, sets);
    forall c: Ref ensures c in r <==> lists != [] && InEvery(lists, c) {
      forall s | 0 <= s < |sets| ensures Has(Before, sets[s], c) <==> c in sets[s] {
        HasIsIn(sets[s], c);
      }
      EveryByIndex(sets, c);
      assert InEvery(sets, c) <==> InEvery(lists, c);
    }
    assert lists != [] ==> lists[0] in sets;
    assert sets != [] ==> sets[0] in lists;
  }

  lemma EveryByIndex(lists: seq<seq<Ref>>, c: ChunkRef)
    ensures InEvery(lists, c) <==> forall s :: 0 <= s < |lists| ==> c in lists[s]
  {
    if InEvery(lists, c) {
      forall s | 0 <= s < |lists| ensures c in lists[s] {
        assert lists[s] in lists;
      }
    }
  }
}

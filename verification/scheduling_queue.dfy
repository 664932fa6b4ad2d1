/** The rule scheduler's queue: a binary heap on the scheduled time with a map from each key to
    its place in the heap, so that an item can be replaced by key. */
module SchedulingQueue {
  import opened ByteStrings

  datatype Key = Key(name: Bytes)

  datatype Item = Item(key: Key, scheduled: int, payload: int)

  // -------------------------------------------------- heaps

  function Parent(i: nat): nat
    requires i > 0
  {
    (i - 1) / 2
  }

  /** The item is no earlier than its parent. */
  predicate InOrder(items: seq<Item>, i: nat)
    requires i < |items|
  {
    i == 0 || items[Parent(i)].scheduled <= items[i].scheduled
  }

  /** The first `n` items form a heap. */
  ghost predicate Heap(items: seq<Item>, n: nat)
    requires n <= |items|
  {
    forall k :: 0 <= k < n ==> InOrder(items, k)
  }

  /** A heap but for the item at `i`, whose place could be empty: its children are no earlier
      than its parent. */
  ghost predicate Hole(items: seq<Item>, n: nat, i: nat)
    requires n <= |items|
  {
    && (forall k :: 0 < k < n && k != i && Parent(k) != i ==> InOrder(items, k))
    && (forall k :: 0 < k < n && 0 < i < n && Parent(k) == i ==> items[Parent(i)].scheduled <= items[k].scheduled)
  }

  /** The children of the item at `i` are no earlier than it. */
  ghost predicate ChildrenInOrder(items: seq<Item>, n: nat, i: nat)
    requires n <= |items|
  {
    forall k :: 0 < k < n && Parent(k) == i ==> InOrder(items, k)
  }

  lemma {:induction false} FirstIsEarliest(items: seq<Item>, k: nat)
    requires Heap(items, |items|) && k < |items|
    ensures items[0].scheduled <= items[k].scheduled
  {
    if k > 0 {
      assert InOrder(items, k);
      FirstIsEarliest(items, Parent(k));
    }
  }

  function Swapped(items: seq<Item>, i: nat, j: nat): seq<Item>
    requires i < |items| && j < |items|
  {
    items[i := items[j]][j := items[i]]
  }

  /** Moving the hole up to its parent. */
  lemma HoleUp(items: seq<Item>, n: nat, j: nat)
    requires 0 < j < n <= |items| && Hole(items, n, j) && ChildrenInOrder(items, n, j)
    requires items[j].scheduled < items[Parent(j)].scheduled
    ensures var after := Swapped(items, Parent(j), j);
            Hole(after, n, Parent(j)) && ChildrenInOrder(after, n, Parent(j))
  {
    var i, after := Parent(j), Swapped(items, Parent(j), j);
    forall k | 0 < k < n && Parent(k) == i ensures InOrder(after, k) {
      if k != j {
        assert InOrder(items, k);
      }
    }
    forall k | 0 < k < n && k != i && Parent(k) != i ensures InOrder(after, k) {
      assert Parent(k) == j || InOrder(items, k);
    }
    forall k | 0 < k < n && 0 < i && Parent(k) == i ensures after[Parent(i)].scheduled <= after[k].scheduled {
      assert InOrder(items, i);
      assert k == j || InOrder(items, k);
    }
  }

  /** Moving the hole down to its earlier child. */
  lemma HoleDown(items: seq<Item>, n: nat, i: nat, j: nat)
    requires 0 < j < n <= |items| && Parent(j) == i && Hole(items, n, i)
    requires items[j].scheduled < items[i].scheduled
    requires forall k :: 0 < k < n && Parent(k) == i ==> items[j].scheduled <= items[k].scheduled
    ensures Hole(Swapped(items, i, j), n, j) && InOrder(Swapped(items, i, j), j) && InOrder(Swapped(items, i, j), i)
  {
    var after := Swapped(items, i, j);
    forall k | 0 < k < n && k != j && Parent(k) != j ensures InOrder(after, k) {
      if k != i && Parent(k) != i {
        assert InOrder(items, k);
      }
    }
    forall k | 0 < k < n && Parent(k) == j ensures after[i].scheduled <= after[k].scheduled {
      assert InOrder(items, k);
    }
  }

  // -------------------------------------------------- places

  /** Each key's place is that of the item with the key, and every item's key has its place. */
  ghost predicate Places(items: seq<Item>, hit: map<Key, nat>) {
    && (forall i :: 0 <= i < |items| ==> items[i].key in hit && hit[items[i].key] == i)
    && (forall k :: k in hit ==> hit[k] < |items| && items[hit[k]].key == k)
  }

  /** The queued items by key. */
  ghost function ByKey(items: seq<Item>, hit: map<Key, nat>): map<Key, Item>
    requires Places(items, hit)
  {
    map k | k in hit :: items[hit[k]]
  }

  class QueueState {
    var items: seq<Item>
    var hit: map<Key, nat>

    ghost predicate Placed()
      reads this
    {
      Places(items, hit)
    }

    ghost predicate Valid()
      reads this
    {
      Placed() && Heap(items, |items|)
    }

    ghost function Queued(): map<Key, Item>
      requires Placed()
      reads this
    {
      ByKey(items, hit)
    }

    constructor ()
      ensures Valid() && Queued() == map[]
    {
      items, hit := [], map[];
    }

    /** Swap. */
    method Swap(i: nat, j: nat)
      requires Placed() && i < |items| && j < |items|
      modifies this
      ensures Placed() && items == Swapped(old(items), i, j) && Queued() == old(Queued())
    {
      hit := hit[items[i].key := j];
      hit := hit[items[j].key := i];
      items := Swapped(items, i, j);
    }

    /** The heap's up: moves an item towards the root until it is in order. */
    method Up(start: nat)
      requires Placed() && start < |items| && Hole(items, |items|, start) && ChildrenInOrder(items, |items|, start)
      modifies this
      ensures Valid() && Queued() == old(Queued())
    {
      var j: nat := start;
      while j > 0 && items[j].scheduled < items[Parent(j)].scheduled
        invariant Placed() && |items| == |old(items)| && j < |items| && Queued() == old(Queued())
        invariant Hole(items, |items|, j) && ChildrenInOrder(items, |items|, j)
        decreases j
      {
        HoleUp(items, |items|, j);
        Swap(Parent(j), j);
        j := Parent(j);
      }
      forall k | 0 <= k < |items| ensures InOrder(items, k) {
      }
    }

    /** The heap's down: moves an item away from the root, among the first `n`, while a child is
        earlier; tells whether it moved. */
    method Down(start: nat, n: nat) returns (moved: bool)
      requires Placed() && start < n <= |items| && Hole(items, n, start)
      modifies this
      ensures Placed() && |items| == |old(items)| && Queued() == old(Queued())
      ensures forall k :: n <= k < |items| ==> items[k] == old(items)[k]
      ensures moved || start == 0 ==> Heap(items, n)
      ensures !moved ==> items == old(items) && ChildrenInOrder(items, n, start)
    {
      var i: nat := start;
      var j: nat, found := EarlierChild(i, n);
      while found
        invariant Placed() && |items| == |old(items)| && start <= i < n && Queued() == old(Queued())
        invariant forall k :: n <= k < |items| ==> items[k] == old(items)[k]
        invariant i == start ==> items == old(items)
        invariant Hole(items, n, i) && (i != start || start == 0 ==> InOrder(items, i))
        invariant found ==> 0 < j < n && Parent(j) == i && items[j].scheduled < items[i].scheduled
        invariant found ==> forall k :: 0 < k < n && Parent(k) == i ==> items[j].scheduled <= items[k].scheduled
        invariant !found ==> ChildrenInOrder(items, n, i)
        decreases n - i, found
      {
        HoleDown(items, n, i, j);
        Swap(i, j);
        i := j;
        j, found := EarlierChild(i, n);
      }
      if i > start || start == 0 {
        Settles(items, n, i);
      }
      moved := i > start;
    }

    /** The earlier child of an item, if it is earlier than the item. */
    method EarlierChild(i: nat, n: nat) returns (j: nat, found: bool)
      requires i < n <= |items|
      ensures found ==> 0 < j < n && Parent(j) == i && items[j].scheduled < items[i].scheduled
      ensures found ==> forall k :: 0 < k < n && Parent(k) == i ==> items[j].scheduled <= items[k].scheduled
      ensures !found ==> ChildrenInOrder(items, n, i)
    {
      j := 2 * i + 1;
      if j >= n {
        return j, false;
      }
      if j + 1 < n && items[j + 1].scheduled < items[j].scheduled {
        j := j + 1;
      }
      found := items[j].scheduled < items[i].scheduled;
    }

    /** The heap's Push: appends and moves up. */
    method HeapPush(x: Item)
      requires Valid() && x.key !in Queued()
      modifies this
      ensures Valid() && Queued() == old(Queued())[x.key := x]
    {
      var n := |items|;
      ghost var before := Queued();
      hit := hit[x.key := n];
      items := items + [x];
      assert Queued() == before[x.key := x];
      forall k | 0 < k < n ensures InOrder(items, k) {
        assert InOrder(old(items), k);
      }
      Up(n);
    }

    /** The heap's Fix: restores the order around one item. */
    method HeapFix(i: nat)
      requires Placed() && i < |items| && Hole(items, |items|, i)
      modifies this
      ensures Valid() && Queued() == old(Queued())
    {
      var moved := Down(i, |items|);
      if !moved {
        Up(i);
      }
    }

    /** The heap's Pop: swaps the first item to the end, restores the order, takes it off. */
    method HeapPop() returns (x: Item)
      requires Valid() && items != []
      modifies this
      ensures Valid() && x == old(items)[0] && Queued() == old(Queued()) - {x.key}
    {
      var n := |items| - 1;
      Swap(0, n);
      if n > 0 {
        forall k | 0 < k < n && Parent(k) != 0 ensures InOrder(items, k) {
          assert InOrder(old(items), k);
        }
        var _ := Down(0, n);
      }
      x := items[n];
      RemoveLast();
    }

    /** Pop. */
    method RemoveLast()
      requires Placed() && items != [] && Heap(items, |items| - 1)
      modifies this
      ensures Valid() && Queued() == old(Queued()) - {old(items)[|old(items)| - 1].key}
    {
      var n := |items| - 1;
      hit := hit - {items[n].key};
      items := items[..n];
      forall k | 0 <= k < n ensures InOrder(items, k) {
        assert InOrder(old(items), k);
      }
    }

    /** Enqueue: the item replaces any queued item with its key. */
    method Enqueue(op: Item)
      requires Valid()
      modifies this
      ensures Valid() && Queued() == old(Queued())[op.key := op]
    {
      if op.key in hit {
        var i := hit[op.key];
        ghost var before := Queued();
        items := items[i := op];
        assert Queued() == before[op.key := op];
        HoleAt(old(items), op, i);
        HeapFix(i);
      } else {
        HeapPush(op);
      }
    }

    /** Dequeue, of a queue that is not empty: an earliest item. */
    method Dequeue() returns (item: Item)
      requires Valid() && items != []
      modifies this
      ensures Valid() && item.key in old(Queued()) && old(Queued())[item.key] == item == old(items)[0]
      ensures Queued() == old(Queued()) - {item.key}
      ensures forall k :: k in old(Queued()) ==> item.scheduled <= old(Queued())[k].scheduled
    {
      EarliestFirst();
      item := HeapPop();
    }

    /** Front, of a queue that is not empty. */
    method Front() returns (item: Item)
      requires Valid() && items != []
      ensures item.key in Queued() && Queued()[item.key] == item == items[0]
      ensures forall k :: k in Queued() ==> item.scheduled <= Queued()[k].scheduled
    {
      EarliestFirst();
      item := items[0];
    }

    lemma NotEmpty()
      requires Valid()
      ensures Queued() != map[] <==> items != []
    {
      if items != [] {
        assert items[0].key in Queued();
      } else {
        assert hit == map[];
      }
    }

    lemma EarliestFirst()
      requires Valid() && items != []
      ensures items[0].key in Queued() && Queued()[items[0].key] == items[0]
      ensures forall k :: k in Queued() ==> items[0].scheduled <= Queued()[k].scheduled
    {
      forall k | k in Queued() ensures items[0].scheduled <= Queued()[k].scheduled {
        FirstIsEarliest(items, hit[k]);
      }
    }
  }

  /** A hole whose item is in order with its parent and children is none. */
  lemma Settles(items: seq<Item>, n: nat, i: nat)
    requires i < n <= |items| && Hole(items, n, i) && ChildrenInOrder(items, n, i) && InOrder(items, i)
    ensures Heap(items, n)
  {
  }

  /** Any item put in place of one of a heap leaves at most a hole. */
  lemma HoleAt(items: seq<Item>, op: Item, i: nat)
    requires Heap(items, |items|) && i < |items|
    ensures Hole(items[i := op], |items|, i)
  {
    var after := items[i := op];
    forall k | 0 < k < |items| && k != i && Parent(k) != i ensures InOrder(after, k) {
      assert InOrder(items, k);
    }
    forall k | 0 < k < |items| && 0 < i && Parent(k) == i ensures after[Parent(i)].scheduled <= after[k].scheduled {
      assert InOrder(items, k) && InOrder(items, i);
    }
  }
}

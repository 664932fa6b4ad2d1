/** The hash ring: how the replicas of a key are found by walking the tokens clockwise, how
    the ring description is changed, and how ownership is counted. */
module Ring {
  import opened ByteStrings
  import opened SortedLists
  import opened Sums
  import Storage

  const MAX_UINT32: int := 0xffff_ffff

  type Token = t: int | 0 <= t <= MAX_UINT32

  /** The name an ingester registers under. */
  datatype Id = Id(name: Bytes)

  datatype IngesterState = ACTIVE | LEAVING | PENDING | JOINING

  datatype Ingester = Ingester(addr: Bytes, timestamp: int, state: IngesterState)

  datatype TokenDesc = TokenDesc(token: Token, owner: Id)

  datatype Operation = Read | Write

  type Ingesters = map<Id, Ingester>

  ghost predicate SortedTokens(tokens: seq<TokenDesc>) {
    forall i, j :: 0 <= i < j < |tokens| ==> tokens[i].token <= tokens[j].token
  }

  /** Every token belongs to a registered ingester. */
  ghost predicate Registered(ingesters: Ingesters, tokens: seq<TokenDesc>) {
    forall k :: 0 <= k < |tokens| ==> tokens[k].owner in ingesters
  }

  ghost predicate OwnsNothing(tokens: seq<TokenDesc>, id: Id) {
    forall k :: 0 <= k < |tokens| ==> tokens[k].owner != id
  }

  // -------------------------------------------------- the walk

  /** The owners of the tokens, clockwise from position `start` once around. */
  function Walk(tokens: seq<TokenDesc>, start: nat): (w: seq<Id>)
    requires start <= |tokens|
    ensures |w| == |tokens|
  {
    Owners(tokens[start..]) + Owners(tokens[..start])
  }

  lemma WalkAt(tokens: seq<TokenDesc>, start: nat, k: nat)
    requires start <= |tokens| && k < |tokens|
    ensures Walk(tokens, start)[k] == tokens[if start + k < |tokens| then start + k else start + k - |tokens|].owner
  {
  }

  function Owners(tokens: seq<TokenDesc>): (w: seq<Id>)
    ensures |w| == |tokens|
    ensures forall k :: 0 <= k < |tokens| ==> w[k] == tokens[k].owner
  {
    seq(|tokens|, k requires 0 <= k < |tokens| => tokens[k].owner)
  }

  /** The first occurrences in a walk, leaving out what has been seen already. */
  function FirstSeen(w: seq<Id>, seen: set<Id>): seq<Id> {
    if w == [] then []
    else if w[0] in seen then FirstSeen(w[1..], seen)
    else [w[0]] + FirstSeen(w[1..], seen + {w[0]})
  }

  /** Writes go to ACTIVE ingesters; reads also to LEAVING ones. */
  predicate Eligible(ingesters: Ingesters, op: Operation, id: Id) {
    id in ingesters
    && (ingesters[id].state == ACTIVE || (op == Read && ingesters[id].state == LEAVING))
  }

  /** The first `n` eligible ingesters of a list. */
  function FirstEligible(ingesters: Ingesters, op: Operation, ids: seq<Id>, n: int): seq<Id> {
    if ids == [] || n <= 0 then []
    else if Eligible(ingesters, op, ids[0]) then [ids[0]] + FirstEligible(ingesters, op, ids[1..], n - 1)
    else FirstEligible(ingesters, op, ids[1..], n)
  }

  /** Where the walk for a key begins: the first token greater than the key, or the first of
      all when there is none. */
  ghost predicate StartsAt(tokens: seq<TokenDesc>, key: Token, start: nat) {
    && start < |tokens|
    && ((tokens[start].token > key && forall k :: 0 <= k < start ==> tokens[k].token <= key)
        || (start == 0 && forall k :: 0 <= k < |tokens| ==> tokens[k].token <= key))
  }

  /** The replicas of a key: the first `n` distinct eligible ingesters clockwise. */
  function Replicas(ingesters: Ingesters, tokens: seq<TokenDesc>, start: nat, n: int, op: Operation): seq<Id>
    requires start <= |tokens|
  {
    FirstEligible(ingesters, op, FirstSeen(Walk(tokens, start), {}), n)
  }

  /** search. */
  method Search(tokens: seq<TokenDesc>, key: Token) returns (i: nat)
    requires SortedTokens(tokens) && tokens != []
    ensures StartsAt(tokens, key, i)
  {
    var f := (x: int) requires 0 <= x < |tokens| => tokens[x].token > key;
    i := Storage.Search(|tokens|, f);
    assert i < |tokens| ==> f(i);
    forall k | 0 <= k < i ensures tokens[k].token <= key {
      assert !f(k);
    }
    if i >= |tokens| {
      i := 0;
    }
  }

  /** What the rest of a walk still yields: the next `n` eligible ingesters not seen yet. */
  function Remaining(ingesters: Ingesters, op: Operation, walk: seq<Id>, seen: set<Id>, n: int): seq<Id> {
    FirstEligible(ingesters, op, FirstSeen(walk, seen), n)
  }

  /** After `k` steps of a walk: what has been found and what remains make the replicas. */
  ghost predicate Walking(ingesters: Ingesters, op: Operation, walk: seq<Id>, want: nat, k: nat, seen: set<Id>, found: seq<Id>)
    requires k <= |walk|
  {
    Remaining(ingesters, op, walk, {}, want) == found + Remaining(ingesters, op, walk[k..], seen, want - |found|)
  }

  lemma WalkStep(ingesters: Ingesters, op: Operation, walk: seq<Id>, want: nat, k: nat, seen: set<Id>, found: seq<Id>)
    requires k < |walk| && |found| < want && Walking(ingesters, op, walk, want, k, seen, found)
    ensures var id := walk[k];
            if id in seen then Walking(ingesters, op, walk, want, k + 1, seen, found)
            else if !Eligible(ingesters, op, id) then Walking(ingesters, op, walk, want, k + 1, seen + {id}, found)
            else Walking(ingesters, op, walk, want, k + 1, seen + {id}, found + [id])
  {
    assert walk[k..][0] == walk[k] && walk[k..][1..] == walk[k + 1..];
    var tail := FirstSeen(walk[k + 1..], seen + {walk[k]});
    assert ([walk[k]] + tail)[1..] == tail;
    var later := Remaining(ingesters, op, walk[k + 1..], seen + {walk[k]}, want - |found| - 1);
    assert found + ([walk[k]] + later) == found + [walk[k]] + later;
  }

  lemma WalkEnds(ingesters: Ingesters, op: Operation, walk: seq<Id>, want: nat, k: nat, seen: set<Id>, found: seq<Id>)
    requires k <= |walk| && Walking(ingesters, op, walk, want, k, seen, found) && (k == |walk| || |found| >= want)
    ensures found == Remaining(ingesters, op, walk, {}, want)
  {
    if k == |walk| {
      assert walk[k..] == [];
    }
  }

  /** getInternal: the loop widens its bound by one for every ingester it must skip; None for
      an empty ring. */
  method GetInternal(ingesters: Ingesters, tokens: seq<TokenDesc>, key: Token, want: nat, op: Operation)
    returns (r: Option<seq<Id>>, ghost start: nat)
    requires SortedTokens(tokens) && Registered(ingesters, tokens)
    ensures r.None? <==> tokens == []
    ensures r.Some? ==> StartsAt(tokens, key, start) && r.value == Replicas(ingesters, tokens, start, want, op)
    ensures r.Some? ==> FirstClockwise(ingesters, tokens, start, want, op, r.value)
  {
    start := 0;
    if |tokens| == 0 {
      return None, 0;
    }
    var found: seq<Id> := [];
    var distinctHosts: set<Id> := {};
    var i := Search(tokens, key);
    start := i;
    ghost var walk := Walk(tokens, start);
    var n, iterations := want, 0;
    assert walk[0..] == walk && Walking(ingesters, op, walk, want, 0, {}, []);
    while |distinctHosts| < n && iterations < |tokens|
      invariant 0 <= iterations <= |tokens| && 0 <= i <= |tokens|
      invariant i == start + iterations || i == start + iterations - |tokens|
      invariant |distinctHosts| - n == |found| - want && |found| <= want
      invariant Walking(ingesters, op, walk, want, iterations, distinctHosts, found)
    {
      WalkStep(ingesters, op, walk, want, iterations, distinctHosts, found);
      WalkAt(tokens, start, iterations);
      i := Wrap(i, |tokens|);
      var owner := tokens[i].owner;
      iterations := iterations + 1;
      i := i + 1;
      if owner in distinctHosts {
        continue;
      }
      distinctHosts := distinctHosts + {owner};
      if !Eligible(ingesters, op, owner) {
        n := n + 1;
        continue;
      }
      found := found + [owner];
    }
    WalkEnds(ingesters, op, walk, want, iterations, distinctHosts, found);
    ReplicasAreFirst(ingesters, tokens, start, want, op);
    r := Some(found);
  }

  /** An index taken around the ring. */
  function Wrap(i: nat, n: nat): (r: nat)
    requires i <= n && n > 0
    ensures r == if i == n then 0 else i
  {
    i % n
  }

  function Max(a: int, b: int): int {
    if a > b then a else b
  }

  // -------------------------------------------------- what the replicas are

  lemma {:induction false} FirstSeenIsDistinct(w: seq<Id>, seen: set<Id>)
    ensures Distinct(FirstSeen(w, seen))
    ensures forall x :: x in FirstSeen(w, seen) <==> x in w && x !in seen
  {
    if w != [] {
      assert w == [w[0]] + w[1..];
      FirstSeenIsDistinct(w[1..], if w[0] in seen then seen else seen + {w[0]});
    }
  }

  lemma {:induction false} FirstEligibleMembers(ingesters: Ingesters, op: Operation, ids: seq<Id>, n: int)
    requires Distinct(ids)
    ensures var r := FirstEligible(ingesters, op, ids, n);
            && Distinct(r) && |r| <= Max(0, n)
            && (forall x :: x in r ==> x in ids && Eligible(ingesters, op, x))
            && (|r| < n ==> forall x :: x in ids && Eligible(ingesters, op, x) ==> x in r)
  {
    if ids != [] && n > 0 {
      assert ids == [ids[0]] + ids[1..];
      FirstEligibleMembers(ingesters, op, ids[1..], if Eligible(ingesters, op, ids[0]) then n - 1 else n);
    }
  }

  /** The replicas are distinct eligible owners, at most `n` of them, and all there are when
      they are fewer. */
  lemma ReplicasAreDistinct(ingesters: Ingesters, tokens: seq<TokenDesc>, start: nat, n: int, op: Operation)
    requires start <= |tokens|
    ensures var r := Replicas(ingesters, tokens, start, n, op);
            && Distinct(r) && |r| <= Max(0, n)
            && (forall x :: x in r ==> x in Owners(tokens) && Eligible(ingesters, op, x))
            && (|r| < n ==> forall x :: x in Owners(tokens) && Eligible(ingesters, op, x) ==> x in r)
  {
    WalkMembers(tokens, start);
    FirstSeenIsDistinct(Walk(tokens, start), {});
    FirstEligibleMembers(ingesters, op, FirstSeen(Walk(tokens, start), {}), n);
  }

  // -------------------------------------------------- the replicas in terms of tokens and states

  /** The owner of the token so many places clockwise from position `start`. */
  function OwnerAt(tokens: seq<TokenDesc>, start: nat, d: nat): Id
    requires start <= |tokens| && d < |tokens|
  {
    tokens[if start + d < |tokens| then start + d else start + d - |tokens|].owner
  }

  /** Going clockwise once around, a token of `x` comes before any of `y`. */
  ghost predicate MetBefore(tokens: seq<TokenDesc>, start: nat, x: Id, y: Id)
    requires start <= |tokens|
  {
    exists d: nat :: d < |tokens| && OwnerAt(tokens, start, d) == x && forall e: nat :: e <= d ==> OwnerAt(tokens, start, e) != y
  }

  /** The states of ingesters that samples are written to, and read from. */
  predicate Takes(op: Operation, state: IngesterState) {
    match op
    case Write => state == ACTIVE
    case Read => state == ACTIVE || state == LEAVING
  }

  ghost predicate IsCandidate(ingesters: Ingesters, tokens: seq<TokenDesc>, op: Operation, x: Id) {
    (exists k :: 0 <= k < |tokens| && tokens[k].owner == x) && x in ingesters && Takes(op, ingesters[x].state)
  }

  /** Owners of tokens in a state that the operation takes, in the order in which they are met
      clockwise, each once; one that is left out comes after `n` others. */
  ghost predicate FirstClockwise(ingesters: Ingesters, tokens: seq<TokenDesc>, start: nat, n: nat, op: Operation, r: seq<Id>)
    requires start <= |tokens|
  {
    && |r| <= n && Distinct(r)
    && (forall k :: 0 <= k < |r| ==> IsCandidate(ingesters, tokens, op, r[k]))
    && (forall j, k :: 0 <= j < k < |r| ==> MetBefore(tokens, start, r[j], r[k]))
    && (forall x :: IsCandidate(ingesters, tokens, op, x) && x !in r ==>
          |r| == n && forall k :: 0 <= k < |r| ==> MetBefore(tokens, start, r[k], x))
  }

  /** In a list, `x` occurs before any occurrence of `y`. */
  ghost predicate OccursBefore(w: seq<Id>, x: Id, y: Id) {
    exists d :: 0 <= d < |w| && w[d] == x && forall e :: 0 <= e <= d ==> w[e] != y
  }

  lemma MetAsItOccurs(tokens: seq<TokenDesc>, start: nat, x: Id, y: Id)
    requires start <= |tokens| && OccursBefore(Walk(tokens, start), x, y)
    ensures MetBefore(tokens, start, x, y)
  {
    var w := Walk(tokens, start);
    var d: nat :| d < |w| && w[d] == x && forall e :: 0 <= e <= d ==> w[e] != y;
    forall e: nat | e <= d ensures OwnerAt(tokens, start, e) == w[e] {
      WalkAt(tokens, start, e);
    }
  }

  lemma OccursLater(w: seq<Id>, x: Id, y: Id)
    requires w != [] && w[0] != y && OccursBefore(w[1..], x, y)
    ensures OccursBefore(w, x, y)
  {
    var d :| 0 <= d < |w[1..]| && w[1..][d] == x && forall e :: 0 <= e <= d ==> w[1..][e] != y;
    assert w[d + 1] == x;
    forall e | 0 <= e <= d + 1 ensures w[e] != y {
      if e > 0 {
        assert w[e] == w[1..][e - 1];
      }
    }
  }

  ghost predicate InOrderOf(w: seq<Id>, r: seq<Id>) {
    forall j, k :: 0 <= j < k < |r| ==> OccursBefore(w, r[j], r[k])
  }

  lemma FirstInOrder(w: seq<Id>, x: Id, r: seq<Id>)
    requires InOrderOf(w, r) && forall y :: y in r ==> OccursBefore(w, x, y)
    ensures InOrderOf(w, [x] + r)
  {
    var s := [x] + r;
    forall j, k | 0 <= j < k < |s| ensures OccursBefore(w, s[j], s[k]) {
      assert s[k] == r[k - 1] && s[k] in r;
      if j > 0 {
        assert s[j] == r[j - 1];
      }
    }
  }

  lemma LaterInOrder(w: seq<Id>, r: seq<Id>)
    requires w != [] && InOrderOf(w[1..], r) && w[0] !in r
    ensures InOrderOf(w, r)
  {
    forall j, k | 0 <= j < k < |r| ensures OccursBefore(w, r[j], r[k]) {
      assert r[k] in r;
      OccursLater(w, r[j], r[k]);
    }
  }

  /** First occurrences come in the order in which they occur. */
  lemma {:induction false} FirstSeenOrder(w: seq<Id>, seen: set<Id>)
    ensures InOrderOf(w, FirstSeen(w, seen))
  {
    if w != [] {
      var seen' := if w[0] in seen then seen else seen + {w[0]};
      var rest := FirstSeen(w[1..], seen');
      FirstSeenOrder(w[1..], seen');
      FirstSeenIsDistinct(w[1..], seen');
      LaterInOrder(w, rest);
      if w[0] !in seen {
        forall y | y in rest ensures OccursBefore(w, w[0], y) {
          assert w[0] != y;
        }
        FirstInOrder(w, w[0], rest);
      }
    }
  }

  lemma RestInOrder(w: seq<Id>, ids: seq<Id>)
    requires ids != [] && InOrderOf(w, ids)
    ensures InOrderOf(w, ids[1..]) && forall x :: x in ids[1..] ==> OccursBefore(w, ids[0], x)
  {
    var rest := ids[1..];
    forall j, k | 0 <= j < k < |rest| ensures OccursBefore(w, rest[j], rest[k]) {
      assert OccursBefore(w, ids[j + 1], ids[k + 1]);
    }
    forall x | x in rest ensures OccursBefore(w, ids[0], x) {
      var k :| 0 <= k < |rest| && rest[k] == x;
      assert OccursBefore(w, ids[0], ids[k + 1]);
    }
  }

  /** Every eligible element that is not taken comes after all that are. */
  ghost predicate OthersLater(ingesters: Ingesters, op: Operation, w: seq<Id>, ids: seq<Id>, r: seq<Id>) {
    forall x, y :: x in ids && Eligible(ingesters, op, x) && x !in r && y in r ==> OccursBefore(w, y, x)
  }

  lemma {:induction false} FirstEligibleOrder(ingesters: Ingesters, op: Operation, ids: seq<Id>, n: int, w: seq<Id>)
    requires Distinct(ids) && InOrderOf(w, ids)
    ensures var r := FirstEligible(ingesters, op, ids, n);
            (forall x :: x in r ==> x in ids) && InOrderOf(w, r) && OthersLater(ingesters, op, w, ids, r)
  {
    if ids != [] && n > 0 {
      var x, rest := ids[0], ids[1..];
      var taken := FirstEligible(ingesters, op, rest, if Eligible(ingesters, op, x) then n - 1 else n);
      RestInOrder(w, ids);
      FirstEligibleOrder(ingesters, op, rest, if Eligible(ingesters, op, x) then n - 1 else n, w);
      assert forall y :: y in ids <==> y == x || y in rest;
      if Eligible(ingesters, op, x) {
        FirstInOrder(w, x, taken);
      }
    }
  }

  /** What the replicas of a key are. */
  lemma ReplicasAreFirst(ingesters: Ingesters, tokens: seq<TokenDesc>, start: nat, n: nat, op: Operation)
    requires start <= |tokens|
    ensures FirstClockwise(ingesters, tokens, start, n, op, Replicas(ingesters, tokens, start, n, op))
  {
    var w := Walk(tokens, start);
    var ids, r := FirstSeen(w, {}), Replicas(ingesters, tokens, start, n, op);
    FirstSeenIsDistinct(w, {});
    FirstSeenOrder(w, {});
    FirstEligibleOrder(ingesters, op, ids, n, w);
    ReplicasAreDistinct(ingesters, tokens, start, n, op);
    WalkMembers(tokens, start);
    forall x ensures IsCandidate(ingesters, tokens, op, x) <==> x in ids && Eligible(ingesters, op, x) {
      CandidateIff(ingesters, tokens, op, x);
    }
    assert forall k :: 0 <= k < |r| ==> r[k] in r;
    forall j, k | 0 <= j < k < |r| ensures MetBefore(tokens, start, r[j], r[k]) {
      MetAsItOccurs(tokens, start, r[j], r[k]);
    }
    forall x, k | IsCandidate(ingesters, tokens, op, x) && x !in r && 0 <= k < |r| ensures MetBefore(tokens, start, r[k], x) {
      assert r[k] in r;
      MetAsItOccurs(tokens, start, r[k], x);
    }
  }

  lemma CandidateIff(ingesters: Ingesters, tokens: seq<TokenDesc>, op: Operation, x: Id)
    ensures IsCandidate(ingesters, tokens, op, x) <==> x in Owners(tokens) && Eligible(ingesters, op, x)
  {
    if exists k :: 0 <= k < |tokens| && tokens[k].owner == x {
      var k :| 0 <= k < |tokens| && tokens[k].owner == x;
      assert Owners(tokens)[k] == x;
    }
  }

  lemma WalkMembers(tokens: seq<TokenDesc>, start: nat)
    requires start <= |tokens|
    ensures forall x :: x in Walk(tokens, start) <==> x in Owners(tokens)
  {
    var w, n := Walk(tokens, start), |tokens|;
    forall x ensures x in w <==> x in Owners(tokens) {
      if x in Owners(tokens) {
        var k :| 0 <= k < n && tokens[k].owner == x;
        WalkAt(tokens, start, if k < start then n - start + k else k - start);
      }
      if x in w {
        var k :| 0 <= k < n && w[k] == x;
        WalkAt(tokens, start, k);
        assert x == Owners(tokens)[if start + k < n then start + k else start + k - n];
      }
    }
  }

  /** Reads and writes of a key go to the same ingesters exactly when none of the ingesters
      read from is LEAVING. */
  lemma ReadsMeetWrites(ingesters: Ingesters, tokens: seq<TokenDesc>, start: nat, n: int)
    requires start <= |tokens|
    ensures Replicas(ingesters, tokens, start, n, Read) == Replicas(ingesters, tokens, start, n, Write) <==>
            forall x :: x in Replicas(ingesters, tokens, start, n, Read) ==> x in ingesters && ingesters[x].state == ACTIVE
  {
    var ids := FirstSeen(Walk(tokens, start), {});
    FirstSeenIsDistinct(Walk(tokens, start), {});
    FirstEligibleMembers(ingesters, Write, ids, n);
    FirstEligibleMembers(ingesters, Read, ids, n);
    if forall x :: x in Replicas(ingesters, tokens, start, n, Read) ==> x in ingesters && ingesters[x].state == ACTIVE {
      ActiveReadsAreWrites(ingesters, ids, n);
    }
  }

  lemma {:induction false} ActiveReadsAreWrites(ingesters: Ingesters, ids: seq<Id>, n: int)
    requires forall x :: x in FirstEligible(ingesters, Read, ids, n) ==> x in ingesters && ingesters[x].state == ACTIVE
    ensures FirstEligible(ingesters, Read, ids, n) == FirstEligible(ingesters, Write, ids, n)
  {
    if ids != [] && n > 0 {
      var r := FirstEligible(ingesters, Read, ids, n);
      if Eligible(ingesters, Read, ids[0]) {
        assert r[0] in r;
        assert r == [ids[0]] + FirstEligible(ingesters, Read, ids[1..], n - 1);
        ActiveReadsAreWrites(ingesters, ids[1..], n - 1);
      } else {
        ActiveReadsAreWrites(ingesters, ids[1..], n);
      }
    }
  }

  /** The list is what the walk from the place of the key gives. */
  ghost predicate AreReplicas(ingesters: Ingesters, tokens: seq<TokenDesc>, key: Token, n: nat, op: Operation, r: seq<Id>) {
    exists start: nat :: StartsAt(tokens, key, start) && r == Replicas(ingesters, tokens, start, n, op)
  }

  /** BatchGet: the replicas of every key, in the order of the keys. */
  method BatchGet(ingesters: Ingesters, tokens: seq<TokenDesc>, keys: seq<Token>, n: nat, op: Operation)
    returns (r: Option<seq<seq<Id>>>)
    requires SortedTokens(tokens) && Registered(ingesters, tokens)
    ensures r.None? <==> tokens == [] && keys != []
    ensures r.Some? ==> |r.value| == |keys| && forall k :: 0 <= k < |keys| ==> AreReplicas(ingesters, tokens, keys[k], n, op, r.value[k])
  {
    var result: seq<seq<Id>> := [];
    for i := 0 to |keys|
      invariant |result| == i && (i > 0 ==> tokens != [])
      invariant forall k :: 0 <= k < i ==> AreReplicas(ingesters, tokens, keys[k], n, op, result[k])
    {
      ghost var start;
      var one: Option<seq<Id>>;
      one, start := GetInternal(ingesters, tokens, keys[i], n, op);
      if one.None? {
        return None;
      }
      result := result + [one.value];
    }
    r := Some(result);
  }

  // -------------------------------------------------- changing the ring

  predicate TokenBefore(a: TokenDesc, b: TokenDesc) {
    a.token < b.token
  }

  function WithoutOwner(tokens: seq<TokenDesc>, id: Id): seq<TokenDesc> {
    if tokens == [] then []
    else WithoutOwner(tokens[..|tokens| - 1], id)
         + (if tokens[|tokens| - 1].owner == id then [] else [tokens[|tokens| - 1]])
  }

  function Renamed(t: TokenDesc, from: Id, to: Id): TokenDesc {
    if t.owner == from then t.(owner := to) else t
  }

  function Claimed(tokens: seq<TokenDesc>, from: Id, to: Id): (r: seq<TokenDesc>)
    ensures |r| == |tokens|
    ensures forall k :: 0 <= k < |tokens| ==> r[k] == Renamed(tokens[k], from, to)
  {
    seq(|tokens|, k requires 0 <= k < |tokens| => Renamed(tokens[k], from, to))
  }

  function TokensOf(tokens: seq<TokenDesc>, id: Id): seq<Token> {
    if tokens == [] then []
    else TokensOf(tokens[..|tokens| - 1], id)
         + (if tokens[|tokens| - 1].owner == id then [tokens[|tokens| - 1].token] else [])
  }

  /** The ring description and the operations that change it. */
  class Desc {
    var ingesters: Ingesters
    var tokens: seq<TokenDesc>

    ghost predicate Valid()
      reads this
    {
      SortedTokens(tokens) && Registered(ingesters, tokens)
    }

    constructor ()
      ensures Valid() && ingesters == map[] && tokens == []
    {
      ingesters, tokens := map[], [];
    }

    /** AddIngester; `now` is the clock. Tokens of equal value may end up in any order. */
    method AddIngester(id: Id, addr: Bytes, more: seq<Token>, state: IngesterState, now: int)
      requires Valid()
      modifies this
      ensures Valid()
      ensures ingesters == old(ingesters)[id := Ingester(addr, now, state)]
      ensures multiset(tokens) == multiset(old(tokens) + seq(|more|, k requires 0 <= k < |more| => TokenDesc(more[k], id)))
    {
      ingesters := ingesters[id := Ingester(addr, now, state)];
      var all := tokens;
      for n := 0 to |more|
        invariant ingesters == old(ingesters)[id := Ingester(addr, now, state)]
        invariant all == old(tokens) + seq(n, k requires 0 <= k < n => TokenDesc(more[k], id))
      {
        all := all + [TokenDesc(more[n], id)];
      }
      assert StrictOrder(TokenBefore);
      tokens := Sort(TokenBefore, all);
      forall k | 0 <= k < |tokens| ensures tokens[k].owner in ingesters {
        assert tokens[k] in all;
      }
    }

    /** RemoveIngester. */
    method RemoveIngester(id: Id)
      requires Valid()
      modifies this
      ensures Valid()
      ensures ingesters == old(ingesters) - {id} && tokens == WithoutOwner(old(tokens), id)
    {
      ingesters := ingesters - {id};
      var output: seq<TokenDesc> := [];
      for i := 0 to |tokens|
        invariant tokens == old(tokens) && ingesters == old(ingesters) - {id}
        invariant output == WithoutOwner(tokens[..i], id)
      {
        assert tokens[..i + 1][..i] == tokens[..i];
        if tokens[i].owner != id {
          output := output + [tokens[i]];
        }
      }
      assert tokens[..|tokens|] == tokens;
      WithoutOwnerKeeps(tokens, id);
      tokens := output;
    }

    /** ClaimTokens: every token of one ingester goes to another. */
    method ClaimTokens(from: Id, to: Id) returns (result: seq<Token>)
      requires Valid()
      modifies this`tokens
      ensures tokens == Claimed(old(tokens), from, to) && result == TokensOf(old(tokens), from)
      ensures Valid() <==> to in ingesters || OwnsNothing(old(tokens), from)
    {
      result := [];
      for i := 0 to |tokens|
        invariant |tokens| == |old(tokens)|
        invariant forall k :: 0 <= k < i ==> tokens[k] == Renamed(old(tokens)[k], from, to)
        invariant forall k :: i <= k < |tokens| ==> tokens[k] == old(tokens)[k]
        invariant result == TokensOf(old(tokens)[..i], from)
      {
        assert old(tokens)[..i + 1][..i] == old(tokens)[..i];
        assert tokens[i] == old(tokens)[i];
        if tokens[i].owner == from {
          tokens := tokens[i := tokens[i].(owner := to)];
          result := result + [tokens[i].token];
        }
      }
      assert old(tokens)[..|tokens|] == old(tokens);
      ClaimKeepsValid(ingesters, old(tokens), from, to);
    }

    /** TokensFor: the tokens of one ingester, and all tokens. */
    method TokensFor(id: Id) returns (mine: seq<Token>, taken: seq<Token>)
      ensures mine == TokensOf(tokens, id)
      ensures |taken| == |tokens| && forall k :: 0 <= k < |tokens| ==> taken[k] == tokens[k].token
    {
      mine, taken := [], [];
      for i := 0 to |tokens|
        invariant mine == TokensOf(tokens[..i], id)
        invariant |taken| == i && forall k :: 0 <= k < i ==> taken[k] == tokens[k].token
      {
        assert tokens[..i + 1][..i] == tokens[..i];
        taken := taken + [tokens[i].token];
        if tokens[i].owner == id {
          mine := mine + [tokens[i].token];
        }
      }
      assert tokens[..|tokens|] == tokens;
    }
  }

  /** The tokens of an ingester are those it owns, in their order. */
  lemma {:induction false} TokensOfSelects(tokens: seq<TokenDesc>, id: Id) returns (ks: seq<nat>)
    ensures Selects(tokens, (t: TokenDesc) => t.owner == id, ks) && |TokensOf(tokens, id)| == |ks|
    ensures forall i :: 0 <= i < |ks| ==> TokensOf(tokens, id)[i] == tokens[ks[i]].token
  {
    if tokens == [] {
      ks := [];
    } else {
      var n := |tokens| - 1;
      ks := TokensOfSelects(tokens[..n], id);
      SelectsNext(tokens, (t: TokenDesc) => t.owner == id, ks);
      ks := if tokens[n].owner == id then ks + [n] else ks;
    }
  }

  /** Without an ingester, the tokens of all others are left, in their order. */
  lemma {:induction false} WithoutOwnerSelects(tokens: seq<TokenDesc>, id: Id) returns (ks: seq<nat>)
    ensures Selects(tokens, (t: TokenDesc) => t.owner != id, ks) && WithoutOwner(tokens, id) == Picked(tokens, ks)
  {
    if tokens == [] {
      ks := [];
    } else {
      var n := |tokens| - 1;
      ks := WithoutOwnerSelects(tokens[..n], id);
      SelectsNext(tokens, (t: TokenDesc) => t.owner != id, ks);
      ks := if tokens[n].owner != id then ks + [n] else ks;
    }
  }

  lemma {:induction false} WithoutOwnerKeeps(tokens: seq<TokenDesc>, id: Id)
    ensures forall t :: t in WithoutOwner(tokens, id) <==> t in tokens && t.owner != id
    ensures SortedTokens(tokens) ==> SortedTokens(WithoutOwner(tokens, id))
  {
    if tokens != [] {
      var front, last := tokens[..|tokens| - 1], tokens[|tokens| - 1];
      WithoutOwnerKeeps(front, id);
      assert tokens == front + [last];
    }
  }

  lemma ClaimKeepsValid(ingesters: Ingesters, tokens: seq<TokenDesc>, from: Id, to: Id)
    requires SortedTokens(tokens) && Registered(ingesters, tokens)
    ensures SortedTokens(Claimed(tokens, from, to))
    ensures Registered(ingesters, Claimed(tokens, from, to)) <==> to in ingesters || OwnsNothing(tokens, from)
  {
    if !OwnsNothing(tokens, from) {
      var k :| 0 <= k < |tokens| && tokens[k].owner == from;
      assert Claimed(tokens, from, to)[k].owner == to;
    }
  }

  // -------------------------------------------------- handing tokens over

  function Rename(x: Id, from: Id, to: Id): Id {
    if x == from then to else x
  }

  function RenameAll(w: seq<Id>, from: Id, to: Id): (r: seq<Id>)
    ensures |r| == |w| && forall k :: 0 <= k < |w| ==> r[k] == Rename(w[k], from, to)
  {
    seq(|w|, k requires 0 <= k < |w| => Rename(w[k], from, to))
  }

  function RenameSet(seen: set<Id>, from: Id, to: Id): set<Id> {
    set x | x in seen :: Rename(x, from, to)
  }

  lemma {:induction false} FirstSeenRenames(w: seq<Id>, seen: set<Id>, from: Id, to: Id)
    requires to !in w && to !in seen
    ensures FirstSeen(RenameAll(w, from, to), RenameSet(seen, from, to)) == RenameAll(FirstSeen(w, seen), from, to)
  {
    if w != [] {
      var id, rest := w[0], w[1..];
      assert RenameAll(w, from, to)[1..] == RenameAll(rest, from, to);
      assert Rename(id, from, to) in RenameSet(seen, from, to) <==> id in seen;
      if id in seen {
        FirstSeenRenames(rest, seen, from, to);
      } else {
        FirstSeenRenames(rest, seen + {id}, from, to);
        assert RenameSet(seen + {id}, from, to) == RenameSet(seen, from, to) + {Rename(id, from, to)};
        var tail := FirstSeen(rest, seen + {id});
        assert RenameAll([id] + tail, from, to) == [Rename(id, from, to)] + RenameAll(tail, from, to);
      }
    }
  }

  lemma {:induction false} NothingToRemove(tokens: seq<TokenDesc>, id: Id)
    requires OwnsNothing(tokens, id)
    ensures WithoutOwner(tokens, id) == tokens
  {
    if tokens != [] {
      NothingToRemove(tokens[..|tokens| - 1], id);
    }
  }

  /** Handing tokens over: when an ingester without tokens claims those of another, which is
      then removed, no token is lost or moved, and for every key the distinct ingesters along
      the walk are the same with the one renamed to the other. */
  lemma HandOver(tokens: seq<TokenDesc>, from: Id, to: Id, start: nat)
    requires from != to && OwnsNothing(tokens, to) && start <= |tokens|
    ensures var after := WithoutOwner(Claimed(tokens, from, to), from);
            && |after| == |tokens| && (forall k :: 0 <= k < |tokens| ==> after[k].token == tokens[k].token)
            && FirstSeen(Walk(after, start), {}) == RenameAll(FirstSeen(Walk(tokens, start), {}), from, to)
  {
    var claimed := Claimed(tokens, from, to);
    NothingToRemove(claimed, from);
    var w := Walk(tokens, start);
    WalkRenames(tokens, from, to, start);
    FirstSeenRenames(w, {}, from, to);
    assert RenameSet({}, from, to) == {};
  }

  lemma WalkRenames(tokens: seq<TokenDesc>, from: Id, to: Id, start: nat)
    requires start <= |tokens|
    ensures Walk(Claimed(tokens, from, to), start) == RenameAll(Walk(tokens, start), from, to)
    ensures OwnsNothing(tokens, to) ==> to !in Walk(tokens, start)
  {
    var n := |tokens|;
    var w, w' := Walk(tokens, start), Walk(Claimed(tokens, from, to), start);
    forall k | 0 <= k < n
      ensures w[k] == tokens[if k < n - start then start + k else k - (n - start)].owner
      ensures w'[k] == Rename(w[k], from, to)
    {
    }
  }

  // -------------------------------------------------- counting ownership

  /** The part of the ring between a token and the next. */
  function Width(tokens: seq<TokenDesc>, i: nat): int
    requires i < |tokens|
  {
    if i + 1 == |tokens| then (MAX_UINT32 - tokens[i].token) + tokens[0].token
    else tokens[i + 1].token - tokens[i].token
  }

  /** The widths of the first `n` tokens, of one ingester or of all. */
  function Owned(tokens: seq<TokenDesc>, n: nat, id: Option<Id>): int
    requires n <= |tokens|
  {
    if n == 0 then 0
    else Owned(tokens, n - 1, id)
         + (if id.None? || tokens[n - 1].owner == id.value then Width(tokens, n - 1) else 0)
  }

  lemma {:induction false} OwnedTelescopes(tokens: seq<TokenDesc>, n: nat)
    requires SortedTokens(tokens) && n <= |tokens| && tokens != []
    ensures Owned(tokens, n, None) == if n == |tokens| then MAX_UINT32 else tokens[n].token - tokens[0].token
  {
    if n > 0 {
      OwnedTelescopes(tokens, n - 1);
    }
  }

  lemma {:induction false} OwnedIsPart(tokens: seq<TokenDesc>, n: nat, id: Id)
    requires SortedTokens(tokens) && n <= |tokens|
    ensures 0 <= Owned(tokens, n, Some(id)) <= Owned(tokens, n, None)
  {
    if n > 0 {
      OwnedIsPart(tokens, n - 1, id);
      WidthIsPositive(tokens, n - 1);
    }
  }

  lemma WidthIsPositive(tokens: seq<TokenDesc>, i: nat)
    requires SortedTokens(tokens) && i < |tokens|
    ensures 0 <= Width(tokens, i) <= MAX_UINT32
  {
    if i > 0 {
      assert tokens[0].token <= tokens[i].token;
    }
  }

  function OwnersUpTo(tokens: seq<TokenDesc>, n: nat): set<Id>
    requires n <= |tokens|
  {
    if n == 0 then {} else OwnersUpTo(tokens, n - 1) + {tokens[n - 1].owner}
  }

  lemma {:induction false} OwnersUpToMembers(tokens: seq<TokenDesc>, n: nat)
    requires n <= |tokens|
    ensures forall id :: id in OwnersUpTo(tokens, n) <==> exists k :: 0 <= k < n && tokens[k].owner == id
  {
    if n > 0 {
      OwnersUpToMembers(tokens, n - 1);
    }
  }

  /** The counts after `n` tokens. */
  ghost predicate Counting(tokens: seq<TokenDesc>, n: nat, numTokens: map<Id, int>, owned: map<Id, int>)
    requires n <= |tokens|
  {
    && (forall id :: Owned(tokens, n, Some(id)) == if id in owned then owned[id] else 0)
    && owned.Keys == numTokens.Keys == OwnersUpTo(tokens, n)
    && SumOver(owned, owned.Keys) == Owned(tokens, n, None)
    && SumOver(numTokens, numTokens.Keys) == n
  }

  /** The map says of every ingester how many tokens it has. */
  ghost predicate CountsTokens(tokens: seq<TokenDesc>, numTokens: map<Id, int>) {
    forall id :: |TokensOf(tokens, id)| == if id in numTokens then numTokens[id] else 0
  }

  lemma CountsOneMore(tokens: seq<TokenDesc>, n: nat, numTokens: map<Id, int>)
    requires n < |tokens| && CountsTokens(tokens[..n], numTokens)
    ensures CountsTokens(tokens[..n + 1], Added(numTokens, tokens[n].owner, 1))
  {
    assert tokens[..n + 1][..n] == tokens[..n];
  }

  lemma CountOne(tokens: seq<TokenDesc>, n: nat, numTokens: map<Id, int>, owned: map<Id, int>)
    requires n < |tokens| && Counting(tokens, n, numTokens, owned)
    ensures var id := tokens[n].owner;
            Counting(tokens, n + 1, Added(numTokens, id, 1), Added(owned, id, Width(tokens, n)))
  {
    SumOverUpdate(owned, tokens[n].owner, Width(tokens, n));
    SumOverUpdate(numTokens, tokens[n].owner, 1);
  }

  /** Arithmetic on uint32 wraps around. */
  function Uint32(x: int): (r: int)
    ensures 0 <= x <= MAX_UINT32 ==> r == x
  {
    x % 0x1_0000_0000
  }

  /** The width as the code computes it. */
  function Diff(tokens: seq<TokenDesc>, i: nat): (d: int)
    requires SortedTokens(tokens) && i < |tokens|
    ensures d == Width(tokens, i)
  {
    WidthIsPositive(tokens, i);
    if i + 1 == |tokens| then Uint32(Uint32(MAX_UINT32 - tokens[i].token) + tokens[0].token)
    else Uint32(tokens[i + 1].token - tokens[i].token)
  }

  lemma NoOverflow(tokens: seq<TokenDesc>, n: nat, id: Id)
    requires n <= |tokens| && SortedTokens(tokens) && tokens != []
    ensures 0 <= Owned(tokens, n, Some(id)) <= MAX_UINT32
  {
    OwnedTelescopes(tokens, n);
    OwnedIsPart(tokens, n, id);
  }

  /** One token more, as the code counts it. */
  lemma CountInUint32(tokens: seq<TokenDesc>, n: nat, numTokens: map<Id, int>, owned: map<Id, int>)
    requires n < |tokens| && SortedTokens(tokens) && Counting(tokens, n, numTokens, owned)
    ensures var id := tokens[n].owner;
            Counting(tokens, n + 1, Added(numTokens, id, 1), owned[id := Uint32((if id in owned then owned[id] else 0) + Diff(tokens, n))])
  {
    var id := tokens[n].owner;
    CountOne(tokens, n, numTokens, owned);
    NoOverflow(tokens, n + 1, id);
    assert Owned(tokens, n + 1, Some(id)) == Added(owned, id, Diff(tokens, n))[id];
  }

  /** countTokens: tokens and width per ingester. The uint32 arithmetic never wraps, each
      ingester gets the widths of its own tokens, and the widths add up to the whole ring. */
  method CountTokens(tokens: seq<TokenDesc>) returns (numTokens: map<Id, int>, owned: map<Id, int>)
    requires SortedTokens(tokens)
    ensures owned.Keys == numTokens.Keys && forall id :: id in owned <==> !OwnsNothing(tokens, id)
    ensures forall id :: id in owned ==> 0 <= owned[id] <= MAX_UINT32 && owned[id] == Owned(tokens, |tokens|, Some(id))
    ensures SumOver(owned, owned.Keys) == if tokens == [] then 0 else MAX_UINT32
    ensures SumOver(numTokens, numTokens.Keys) == |tokens|
    ensures forall id :: id in numTokens ==> numTokens[id] == |TokensOf(tokens, id)|
  {
    owned, numTokens := map[], map[];
    for i := 0 to |tokens|
      invariant Counting(tokens, i, numTokens, owned)
      invariant CountsTokens(tokens[..i], numTokens)
    {
      CountsOneMore(tokens, i, numTokens);
      CountInUint32(tokens, i, numTokens, owned);
      var id, diff := tokens[i].owner, Diff(tokens, i);
      numTokens := Added(numTokens, id, 1);
      owned := owned[id := Uint32((if id in owned then owned[id] else 0) + diff)];
    }
    CountsAreRight(tokens, numTokens, owned);
    assert tokens[..|tokens|] == tokens;
  }

  lemma CountsAreRight(tokens: seq<TokenDesc>, numTokens: map<Id, int>, owned: map<Id, int>)
    requires SortedTokens(tokens) && Counting(tokens, |tokens|, numTokens, owned)
    ensures owned.Keys == numTokens.Keys && forall id :: id in owned <==> !OwnsNothing(tokens, id)
    ensures forall id :: id in owned ==> 0 <= owned[id] <= MAX_UINT32 && owned[id] == Owned(tokens, |tokens|, Some(id))
    ensures SumOver(owned, owned.Keys) == if tokens == [] then 0 else MAX_UINT32
  {
    OwnersUpToMembers(tokens, |tokens|);
    if tokens != [] {
      OwnedTelescopes(tokens, |tokens|);
    }
    forall id | id in owned ensures 0 <= owned[id] <= MAX_UINT32 {
      NoOverflow(tokens, |tokens|, id);
    }
  }
}

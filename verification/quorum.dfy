/** Majorities of replica sets, and when a majority of the replicas written to and a majority
    of the replicas read from are sure to share an ingester. */
module Quorum {
  import opened Ring
  import opened SortedLists

  /** How many of `n` replicas must succeed, and how many may fail. */
  function MinSuccess(n: nat): (m: nat)
    ensures 2 * m > n
  {
    n / 2 + 1
  }

  function MaxFailures(n: nat): int {
    n - MinSuccess(n)
  }

  function SetOf<T>(ids: seq<T>): set<T> {
    set x | x in ids
  }

  lemma {:induction false} DistinctSize<T>(ids: seq<T>)
    requires Distinct(ids)
    ensures |SetOf(ids)| == |ids|
  {
    if ids != [] {
      DistinctSize(ids[1..]);
      assert SetOf(ids) == {ids[0]} + SetOf(ids[1..]);
    }
  }

  lemma {:induction false} SubsetSize<T>(a: set<T>, b: set<T>)
    requires a <= b
    ensures |a| <= |b|
    ensures |a| == |b| ==> a == b
  {
    assert b == a + (b - a) && a !! (b - a);
  }

  lemma {:induction false} SubsetOfSize<T>(s: set<T>, k: nat)
    requires k <= |s|
    ensures exists t :: t <= s && |t| == k
  {
    if k == 0 {
      var none: set<T> := {};
      assert none <= s && |none| == 0;
    } else {
      var x :| x in s;
      SubsetOfSize(s - {x}, k - 1);
      var t :| t <= s - {x} && |t| == k - 1;
      assert t + {x} <= s && |t + {x}| == k;
    }
  }

  /** The numbers below `n`. */
  ghost function Below(n: nat): (r: set<nat>)
    ensures |r| == n && forall s: nat :: s in r <==> s < n
  {
    if n == 0 then {} else Below(n - 1) + {n - 1}
  }

  /** Enough of the replicas have answered. */
  ghost predicate IsQuorum(replicas: set<Id>, answered: set<Id>) {
    answered <= replicas && |answered| >= MinSuccess(|replicas|)
  }

  /** Every quorum of the one set shares an ingester with every quorum of the other. */
  ghost predicate QuorumsMeet(written: set<Id>, read: set<Id>) {
    forall w, r :: IsQuorum(written, w) && IsQuorum(read, r) ==> w * r != {}
  }

  /** How many of the shared replicas every quorum of `a` must take. */
  function Needed(a: set<Id>, b: set<Id>): nat {
    Max(0, MinSuccess(|a|) - |a - b|)
  }

  /** Quorums always meet exactly when together they need more of the shared replicas than
      there are, or when one of the sets is too small to have a quorum. */
  lemma QuorumsMeetIff(a: set<Id>, b: set<Id>)
    ensures QuorumsMeet(a, b) <==> a == {} || b == {} || Needed(a, b) + Needed(b, a) > |a * b|
  {
    if a == {} {
      forall w | IsQuorum(a, w) ensures false {
        SubsetSize(w, a);
      }
    } else if b == {} {
      forall r | IsQuorum(b, r) ensures false {
        SubsetSize(r, b);
      }
    } else if Needed(a, b) + Needed(b, a) > |a * b| {
      forall w, r | IsQuorum(a, w) && IsQuorum(b, r) ensures w * r != {} {
        TakesShared(a, b, w);
        TakesShared(b, a, r);
        assert a * b == b * a;
        if w * r == {} {
          assert (w * b) * (r * a) == {};
          assert |w * b + r * a| == |w * b| + |r * a|;
          SubsetSize(w * b + r * a, a * b);
        }
      }
    } else {
      DisjointQuorums(a, b);
    }
  }

  lemma TakesShared(a: set<Id>, b: set<Id>, w: set<Id>)
    requires IsQuorum(a, w)
    ensures |w * b| >= Needed(a, b)
  {
    assert w == w * b + (w - b);
    SubsetSize(w - b, a - b);
  }

  lemma DisjointQuorums(a: set<Id>, b: set<Id>)
    requires a != {} && b != {} && Needed(a, b) + Needed(b, a) <= |a * b|
    ensures !QuorumsMeet(a, b)
  {
    SubsetOfSize(a * b, Needed(a, b));
    var wShared :| wShared <= a * b && |wShared| == Needed(a, b);
    SubsetOfSize(a * b - wShared, Needed(b, a));
    var rShared :| rShared <= a * b - wShared && |rShared| == Needed(b, a);
    assert a * b == b * a;
    CompleteQuorum(a, b, wShared);
    CompleteQuorum(b, a, rShared);
    assert ((a - b) + wShared) * ((b - a) + rShared) == {};
  }

  lemma CompleteQuorum(a: set<Id>, b: set<Id>, shared: set<Id>)
    requires shared <= a * b && |shared| == Needed(a, b)
    ensures IsQuorum(a, (a - b) + shared)
  {
    assert (a - b) !! shared;
  }

  /** With the same replicas on both sides quorums meet. */
  lemma SameReplicasMeet(replicas: set<Id>)
    ensures QuorumsMeet(replicas, replicas)
  {
    forall w, r | IsQuorum(replicas, w) && IsQuorum(replicas, r) ensures w * r != {} {
      if w * r == {} {
        assert |w + r| == |w| + |r|;
        SubsetSize(w + r, replicas);
      }
    }
  }

  /** The ingesters of a list that are LEAVING. */
  ghost function Leaving(ingesters: Ingesters, ids: seq<Id>): set<Id> {
    set x | x in ids && x in ingesters && ingesters[x].state == LEAVING
  }

  /** The ACTIVE ingesters read from are among those written to. */
  lemma {:induction false} ActiveReadsAreWritten(ingesters: Ingesters, ids: seq<Id>, n: int, m: int)
    requires n <= m
    ensures forall x :: x in FirstEligible(ingesters, Read, ids, n) && Eligible(ingesters, Write, x) ==>
              x in FirstEligible(ingesters, Write, ids, m)
  {
    if ids != [] && n > 0 {
      ActiveReadsAreWritten(ingesters, ids[1..],
                            if Eligible(ingesters, Read, ids[0]) then n - 1 else n,
                            if Eligible(ingesters, Write, ids[0]) then m - 1 else m);
    }
  }

  /** The replicas read that are not written are exactly the LEAVING ones. */
  lemma ReadAgainstWrite(ingesters: Ingesters, tokens: seq<TokenDesc>, start: nat, n: nat)
    requires start <= |tokens|
    ensures var read, written := Replicas(ingesters, tokens, start, n, Read), Replicas(ingesters, tokens, start, n, Write);
            && |SetOf(read)| == |read| && |SetOf(written)| == |written|
            && SetOf(read) - SetOf(written) == Leaving(ingesters, read)
            && (|written| == n ==> |read| == n)
  {
    var read, written := Replicas(ingesters, tokens, start, n, Read), Replicas(ingesters, tokens, start, n, Write);
    ReplicasAreDistinct(ingesters, tokens, start, n, Read);
    ReplicasAreDistinct(ingesters, tokens, start, n, Write);
    DistinctSize(read);
    DistinctSize(written);
    if |read| < n {
      SubsetSize(SetOf(written), SetOf(read));
    }
    ActiveReadsAreWritten(ingesters, FirstSeen(Walk(tokens, start), {}), n, n);
    forall x ensures x in SetOf(read) - SetOf(written) <==> x in Leaving(ingesters, read) {
    }
  }

  /** With `w` replicas written and `r` read, `k` of them LEAVING: a quorum of each needs more of
      the shared replicas than there are. */
  predicate SizesMeet(w: nat, r: nat, k: nat) {
    w == 0 || r == 0 || Max(0, MinSuccess(w) - (w - (r - k))) + Max(0, MinSuccess(r) - k) > r - k
  }

  /** On every ring, an acknowledged write and a successful read of a key are sure to share an
      ingester exactly when the numbers of replicas say so. */
  lemma LeavingAndQuorums(ingesters: Ingesters, tokens: seq<TokenDesc>, start: nat, n: nat)
    requires start <= |tokens|
    ensures var read, written := Replicas(ingesters, tokens, start, n, Read), Replicas(ingesters, tokens, start, n, Write);
            QuorumsMeet(SetOf(written), SetOf(read)) <==> SizesMeet(|written|, |read|, |Leaving(ingesters, read)|)
  {
    var r := SetOf(Replicas(ingesters, tokens, start, n, Read));
    var w := SetOf(Replicas(ingesters, tokens, start, n, Write));
    ReadAgainstWrite(ingesters, tokens, start, n);
    QuorumsMeetIff(w, r);
    Parts(r, w);
    Parts(w, r);
    assert w * r == r * w;
  }

  /** With all `n` replicas written, exactly when none of those read is LEAVING, or just one of an
      even number. */
  lemma LeavingWithAllWritten(ingesters: Ingesters, tokens: seq<TokenDesc>, start: nat, n: nat)
    requires start <= |tokens| && n > 0 && |Replicas(ingesters, tokens, start, n, Write)| == n
    ensures var read, written := Replicas(ingesters, tokens, start, n, Read), Replicas(ingesters, tokens, start, n, Write);
            var k := |Leaving(ingesters, read)|;
            QuorumsMeet(SetOf(written), SetOf(read)) <==> k == 0 || (k == 1 && n % 2 == 0)
  {
    var read := Replicas(ingesters, tokens, start, n, Read);
    ReadAgainstWrite(ingesters, tokens, start, n);
    LeavingAndQuorums(ingesters, tokens, start, n);
    SubsetSize(Leaving(ingesters, read), SetOf(read));
    MeetArithmetic(n, |Leaving(ingesters, read)|);
  }

  /** With every replica written also read, as with no more ingesters than replicas wanted: exactly
      when a quorum of the `w` written ones leaves fewer than a read must take of them, or nothing
      is written. Three ingesters, one of them LEAVING, meet. */
  lemma LeavingWithFewWritten(ingesters: Ingesters, tokens: seq<TokenDesc>, start: nat, n: nat)
    requires start <= |tokens|
    requires var read, written := Replicas(ingesters, tokens, start, n, Read), Replicas(ingesters, tokens, start, n, Write);
             SetOf(written) <= SetOf(read)
    ensures var read, written := Replicas(ingesters, tokens, start, n, Read), Replicas(ingesters, tokens, start, n, Write);
            var w, k := |written|, |Leaving(ingesters, read)|;
            && |read| == w + k
            && (QuorumsMeet(SetOf(written), SetOf(read)) <==> w == 0 || MinSuccess(w) + Max(0, MinSuccess(w + k) - k) > w)
  {
    var read, written := Replicas(ingesters, tokens, start, n, Read), Replicas(ingesters, tokens, start, n, Write);
    ReadAgainstWrite(ingesters, tokens, start, n);
    LeavingAndQuorums(ingesters, tokens, start, n);
    Parts(SetOf(read), SetOf(written));
    assert SetOf(read) * SetOf(written) == SetOf(written);
  }

  lemma Parts(a: set<Id>, b: set<Id>)
    ensures |a| == |a - b| + |a * b|
  {
    assert a == (a - b) + a * b;
  }

  lemma MeetArithmetic(n: nat, k: nat)
    requires 0 < n && k <= n
    ensures SizesMeet(n, n, k) <==> k == 0 || (k == 1 && n % 2 == 0)
  {
  }

  /** Every key has the same number of replicas. */
  lemma ReplicaCountIsUniform(ingesters: Ingesters, tokens: seq<TokenDesc>, start: nat, start': nat, n: nat, op: Operation)
    requires start <= |tokens| && start' <= |tokens|
    ensures |Replicas(ingesters, tokens, start, n, op)| == |Replicas(ingesters, tokens, start', n, op)|
  {
    NoFewerReplicas(ingesters, tokens, start, start', n, op);
    NoFewerReplicas(ingesters, tokens, start', start, n, op);
  }

  lemma NoFewerReplicas(ingesters: Ingesters, tokens: seq<TokenDesc>, start: nat, start': nat, n: nat, op: Operation)
    requires start <= |tokens| && start' <= |tokens|
    ensures |Replicas(ingesters, tokens, start, n, op)| >= |Replicas(ingesters, tokens, start', n, op)|
  {
    var r, r' := Replicas(ingesters, tokens, start, n, op), Replicas(ingesters, tokens, start', n, op);
    ReplicasAreDistinct(ingesters, tokens, start, n, op);
    ReplicasAreDistinct(ingesters, tokens, start', n, op);
    if |r| < n {
      DistinctSize(r);
      DistinctSize(r');
      SubsetSize(SetOf(r'), SetOf(r));
    }
  }
}

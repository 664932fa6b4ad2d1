/** Writes and reads together: what the distributor acknowledges, a later query finds. */
module Distributor {
  import opened ByteStrings
  import opened SortedLists
  import opened Ring
  import opened Quorum
  import opened Samples
  import Push
  import PushRun
  import PushProgress
  import Query

  /** The batch is spread as one ring says: sample `s` goes to the replicas of its key. */
  ghost predicate FromRing(ingesters: Ingesters, tokens: seq<TokenDesc>, keys: seq<Token>, n: nat, replicas: seq<seq<Id>>) {
    |replicas| == |keys| && forall s :: 0 <= s < |keys| ==> AreReplicas(ingesters, tokens, keys[s], n, Write, replicas[s])
  }

  /** Replicas looked up in one ring are distinct, and as many for every sample. */
  lemma RingBatch(ingesters: Ingesters, tokens: seq<TokenDesc>, keys: seq<Token>, n: nat, b: PushRun.Batch)
    requires FromRing(ingesters, tokens, keys, n, b.replicas)
    ensures Push.AllDistinct(b.replicas) && PushProgress.Uniform(b)
  {
    forall s | 0 <= s < |keys| ensures Distinct(b.replicas[s]) {
      var start: nat :| StartsAt(tokens, keys[s], start) && b.replicas[s] == Replicas(ingesters, tokens, start, n, Write);
      ReplicasAreDistinct(ingesters, tokens, start, n, Write);
    }
    forall s, s' | 0 <= s < |keys| && 0 <= s' < |keys| ensures |b.replicas[s]| == |b.replicas[s']| {
      var start: nat :| StartsAt(tokens, keys[s], start) && b.replicas[s] == Replicas(ingesters, tokens, start, n, Write);
      var start': nat :| StartsAt(tokens, keys[s'], start') && b.replicas[s'] == Replicas(ingesters, tokens, start', n, Write);
      ReplicaCountIsUniform(ingesters, tokens, start, start', n, Write);
    }
  }

  /** Some run of a batch taken from a ring leaves Push waiting forever exactly when a replica
      of one of its samples is dead. */
  lemma PushHangsIff(ingesters: Ingesters, tokens: seq<TokenDesc>, keys: seq<Token>, n: nat, b: PushRun.Batch)
    requires keys != [] && FromRing(ingesters, tokens, keys, n, b.replicas)
    requires forall s :: 0 <= s < |keys| ==> !Push.Hopeless(b.replicas[s], b.live)
    ensures PushProgress.CanHang(b) <==> PushProgress.HasDeadReplica(b)
  {
    RingBatch(ingesters, tokens, keys, n, b);
    PushProgress.HangsIff(b);
  }

  /** The results the query loop received, in order. */
  function Received<M>(readers: seq<Id>, from: seq<nat>, answers: Id -> seq<Query.Stream<M>>): (r: seq<seq<Query.Stream<M>>>)
    ensures |r| == |from|
    ensures forall j :: 0 <= j < |from| && from[j] < |readers| ==> r[j] == answers(readers[from[j]])
  {
    seq(|from|, j requires 0 <= j < |from| => if from[j] < |readers| then answers(readers[from[j]]) else [])
  }

  /** The ingesters whose results were received. */
  lemma ReceivedQuorum(readers: seq<Id>, from: seq<nat>) returns (ids: set<Id>)
    requires Distinct(readers) && Distinct(from) && |from| == MinSuccess(|readers|)
    requires forall j :: 0 <= j < |from| ==> from[j] < |readers|
    ensures IsQuorum(SetOf(readers), ids)
    ensures forall id :: id in ids ==> exists j :: 0 <= j < |from| && readers[from[j]] == id
  {
    var heard := seq(|from|, j requires 0 <= j < |from| => readers[from[j]]);
    DistinctSize(heard);
    DistinctSize(readers);
    ids := SetOf(heard);
  }

  lemma {:induction false} FlattenCovers<M(!new)>(fp: M -> int, results: seq<seq<Query.Stream<M>>>, j: nat, f: int, t: int)
    requires j < |results| && Query.StreamCovers(fp, results[j], f, t)
    ensures Query.StreamCovers(fp, Query.Flatten(results), f, t)
  {
    var last := |results| - 1;
    var front := Query.Flatten(results[..last]);
    assert Query.Flatten(results) == front + results[last];
    if j == last {
      var k :| 0 <= k < |results[j]| && fp(results[j][k].metric) == f && Covers(results[j][k].values, t);
      assert (front + results[last])[|front| + k] == results[j][k];
    } else {
      FlattenCovers(fp, results[..last], j, f, t);
      var k :| 0 <= k < |front| && fp(front[k].metric) == f && Covers(front[k].values, t);
      assert (front + results[last])[k] == front[k];
    }
  }

  /** A run of Push that returned success. */
  ghost predicate Acknowledged(b: PushRun.Batch, states: seq<PushRun.State>, steps: seq<PushRun.Step>) {
    PushRun.IsRun(b, states, steps) && states[|steps|].outcome == Some(PushRun.Done)
  }

  /** A run of a query that returned the results of the ingesters at some positions. */
  ghost predicate Returned(readers: seq<Id>, states: seq<Query.State>, steps: seq<Query.Step>, from: seq<nat>) {
    readers != [] && Query.IsRun(|readers|, states, steps) && states[|steps|].outcome == Some(Query.Results(from))
  }

  /** Every ingester that took sample `s` and is asked for it gives its time under its fingerprint. */
  ghost predicate Kept<M(!new)>(b: PushRun.Batch, st: PushRun.State, s: nat, readers: seq<Id>,
                                fp: M -> int, answers: Id -> seq<Query.Stream<M>>, f: int, t: int) {
    forall id :: id in PushRun.Votes(b, st.tasks, true, s) && id in readers ==> Query.StreamCovers(fp, answers(id), f, t)
  }

  /** A sample that Push acknowledged, and a later query that returned results: if quorums of the
      two replica sets always meet, the sample's time is in the merged answer. */
  lemma QuorumRead<M(!new)>(b: PushRun.Batch, pushed: seq<PushRun.State>, pushSteps: seq<PushRun.Step>, s: nat,
                            readers: seq<Id>, queried: seq<Query.State>, querySteps: seq<Query.Step>, from: seq<nat>,
                            fp: M -> int, answers: Id -> seq<Query.Stream<M>>, answer: map<int, Query.Stream<M>>, f: int, t: int)
    requires PushRun.ValidBatch(b) && Acknowledged(b, pushed, pushSteps) && s < |b.replicas|
    requires Distinct(readers) && Returned(readers, queried, querySteps, from)
    requires QuorumsMeet(SetOf(b.replicas[s]), SetOf(readers))
    requires Kept(b, pushed[|pushSteps|], s, readers, fp, answers, f, t)
    requires Query.Combines(fp, Query.Flatten(Received(readers, from, answers)), answer)
    ensures f in answer && Covers(answer[f].values, t)
  {
    PushRun.SignalsAreRight(b, pushed, pushSteps, |pushSteps|);
    Query.ResultsAreAQuorum(|readers|, queried, querySteps, |querySteps|);
    var written := PushRun.Votes(b, pushed[|pushSteps|].tasks, true, s);
    var heard := ReceivedQuorum(readers, from);
    var id :| id in written * heard;
    var j :| 0 <= j < |from| && readers[from[j]] == id;
    var results := Received(readers, from, answers);
    assert results[j] == answers(id);
    FlattenCovers(fp, results, j, f, t);
    NamedIfCovered(fp, Query.Flatten(results), f, t);
  }

  lemma NamedIfCovered<M(!new)>(fp: M -> int, streams: seq<Query.Stream<M>>, f: int, t: int)
    requires Query.StreamCovers(fp, streams, f, t)
    ensures Query.StreamNamed(fp, streams, f)
  {
    var i :| 0 <= i < |streams| && fp(streams[i].metric) == f && Covers(streams[i].values, t);
    assert fp(streams[i].metric) == f;
  }

  /** The time of every acknowledged sample is in the merged answer of every later query of its key
      that returns results, if the numbers of replicas written, read and LEAVING make quorums meet. */
  lemma AcknowledgedIsRead<M(!new)>(ingesters: Ingesters, tokens: seq<TokenDesc>, start: nat, n: nat,
                                    b: PushRun.Batch, pushed: seq<PushRun.State>, pushSteps: seq<PushRun.Step>, s: nat,
                                    queried: seq<Query.State>, querySteps: seq<Query.Step>, from: seq<nat>,
                                    fp: M -> int, answers: Id -> seq<Query.Stream<M>>, answer: map<int, Query.Stream<M>>, f: int, t: int)
    requires start <= |tokens| && PushRun.ValidBatch(b) && Acknowledged(b, pushed, pushSteps)
    requires s < |b.replicas| && b.replicas[s] == Replicas(ingesters, tokens, start, n, Write)
    requires var readers := Replicas(ingesters, tokens, start, n, Read);
             && Returned(readers, queried, querySteps, from)
             && SizesMeet(|b.replicas[s]|, |readers|, |Leaving(ingesters, readers)|)
             && Kept(b, pushed[|pushSteps|], s, readers, fp, answers, f, t)
             && Query.Combines(fp, Query.Flatten(Received(readers, from, answers)), answer)
    ensures f in answer && Covers(answer[f].values, t)
  {
    var readers := Replicas(ingesters, tokens, start, n, Read);
    ReplicasAreDistinct(ingesters, tokens, start, n, Read);
    LeavingAndQuorums(ingesters, tokens, start, n);
    QuorumRead(b, pushed, pushSteps, s, readers, queried, querySteps, from, fp, answers, answer, f, t);
  }

  /** They do when none of the replicas read is LEAVING. */
  lemma NoneLeaving(ingesters: Ingesters, tokens: seq<TokenDesc>, start: nat, n: nat)
    requires start <= |tokens| && Leaving(ingesters, Replicas(ingesters, tokens, start, n, Read)) == {}
    ensures SizesMeet(|Replicas(ingesters, tokens, start, n, Write)|, |Replicas(ingesters, tokens, start, n, Read)|, 0)
  {
    var readers := Replicas(ingesters, tokens, start, n, Read);
    ReplicasAreDistinct(ingesters, tokens, start, n, Read);
    forall x | x in readers ensures x in ingesters && ingesters[x].state == ACTIVE {
      assert x !in Leaving(ingesters, readers);
    }
    ReadsMeetWrites(ingesters, tokens, start, n);
  }
}

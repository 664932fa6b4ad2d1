/** Acknowledged samples that a later query does not find: there are such runs of Push and of a query
    if and only if the numbers of replicas written, read and LEAVING do not make quorums meet. */
module Unread {
  import opened ByteStrings
  import opened SortedLists
  import opened Ring
  import opened Quorum
  import opened Samples
  import opened Distributor
  import PushRun
  import PushProgress
  import Query

  // -------------------------------------------------- a write that just these ingesters take

  lemma OneSampleBatch(written: seq<Id>)
    requires written != [] && Distinct(written)
    ensures PushRun.ValidBatch(PushRun.Batch([written], SetOf(written)))
  {
    DistinctSize(written);
    assert SetOf(written) * SetOf(written) == SetOf(written);
  }

  /** Push of one sample is acknowledged when exactly a given quorum of its replicas take it. */
  lemma AcknowledgedBy(written: seq<Id>, w: set<Id>) returns (states: seq<PushRun.State>, steps: seq<PushRun.Step>)
    requires written != [] && Distinct(written) && IsQuorum(SetOf(written), w)
    ensures var b := PushRun.Batch([written], SetOf(written));
            Acknowledged(b, states, steps) && PushRun.Votes(b, states[|steps|].tasks, true, 0) == w
  {
    var b := PushRun.Batch([written], SetOf(written));
    OneSampleBatch(written);
    var refusing := SetOf(written) - w;
    assert PushRun.IsRun(b, [PushProgress.Start(b)], []);
    var st := PushProgress.Finish(b, [PushProgress.Start(b)], [], refusing);
    states, steps :| PushRun.IsRun(b, states, steps) && states[|steps|] == st && PushRun.Completed(b, st) && PushProgress.Obeys(st.tasks, refusing);
    PushRun.RunKeeps(b, states, steps, |steps|);
    QuorumDecides(written, w, st);
  }

  lemma QuorumDecides(written: seq<Id>, w: set<Id>, st: PushRun.State)
    requires written != [] && Distinct(written) && IsQuorum(SetOf(written), w)
    requires var b := PushRun.Batch([written], SetOf(written));
             PushRun.Invariant(b, st) && PushRun.Completed(b, st) && PushProgress.Obeys(st.tasks, SetOf(written) - w)
    ensures PushRun.Votes(PushRun.Batch([written], SetOf(written)), st.tasks, true, 0) == w && st.outcome == Some(PushRun.Done)
  {
    var b, refusing := PushRun.Batch([written], SetOf(written)), SetOf(written) - w;
    OneSampleBatch(written);
    PushProgress.FinalVotes(b, st, 0, refusing);
    assert SetOf(written) * SetOf(written) - refusing == w;
    DistinctSize(written);
    assert b.replicas[0] == written;
    assert PushRun.Reaches(st.samples[0]);
    PushRun.CompletedOutcome(b, st);
  }

  // -------------------------------------------------- a query that hears just these ingesters

  /** The state of a query once it has received the results at some positions, and no others have
      answered. */
  function Heard(n: nat, from: seq<nat>): Query.State {
    Query.State(seq(n, k => if k in from then Query.Finished(true) else Query.Calling), 0, [], from,
                if |from| == MinSuccess(n) then Some(Query.Results(from)) else None)
  }

  lemma Extend(n: nat, states: seq<Query.State>, steps: seq<Query.Step>, step: Query.Step)
    requires Query.IsRun(n, states, steps) && Query.Enabled(n, states[|steps|], step)
    ensures Query.IsRun(n, states + [Query.Apply(n, states[|steps|], step)], steps + [step])
  {
  }

  /** One ingester answers, and its result is received. */
  lemma HearOne(n: nat, states: seq<Query.State>, steps: seq<Query.Step>, from: seq<nat>, k: nat)
    returns (states': seq<Query.State>, steps': seq<Query.Step>)
    requires Query.IsRun(n, states, steps) && states[|steps|] == Heard(n, from)
    requires k < n && k !in from && |from| < MinSuccess(n)
    ensures Query.IsRun(n, states', steps') && states'[|steps'|] == Heard(n, from + [k])
  {
    var st := Heard(n, from);
    var st1 := Query.Apply(n, st, Query.Reply(k, true));
    var st2 := Query.Apply(n, st1, Query.Buffer(k));
    var st3 := Query.Apply(n, st2, Query.ReceiveResult);
    Extend(n, states, steps, Query.Reply(k, true));
    Extend(n, states + [st1], steps + [Query.Reply(k, true)], Query.Buffer(k));
    Extend(n, states + [st1] + [st2], steps + [Query.Reply(k, true)] + [Query.Buffer(k)], Query.ReceiveResult);
    states' := states + [st1] + [st2] + [st3];
    steps' := steps + [Query.Reply(k, true)] + [Query.Buffer(k)] + [Query.ReceiveResult];
    assert st3.tasks == Heard(n, from + [k]).tasks;
    assert st3.buffered == [];
  }

  /** A query returns the results of any quorum of positions, in any order. */
  lemma {:induction false} HeardFrom(n: nat, from: seq<nat>) returns (states: seq<Query.State>, steps: seq<Query.Step>)
    requires Distinct(from) && |from| <= MinSuccess(n) && forall j :: 0 <= j < |from| ==> from[j] < n
    ensures Query.IsRun(n, states, steps) && states[|steps|] == Heard(n, from)
  {
    if from == [] {
      states, steps := [Heard(n, [])], [];
    } else {
      var front, k := from[..|from| - 1], from[|from| - 1];
      states, steps := HeardFrom(n, front);
      states, steps := HearOne(n, states, steps, front, k);
      assert from == front + [k];
    }
  }

  lemma {:induction false} Positions(readers: seq<Id>, r: set<Id>, m: nat) returns (from: seq<nat>)
    requires r <= SetOf(readers) && m <= |r|
    ensures |from| == m && Distinct(from)
    ensures forall j :: 0 <= j < m ==> from[j] < |readers| && readers[from[j]] in r
  {
    if m == 0 {
      from := [];
    } else {
      var id :| id in r;
      var k :| 0 <= k < |readers| && readers[k] == id;
      from := Positions(readers, r - {id}, m - 1);
      from := from + [k];
    }
  }

  // -------------------------------------------------- when a sample can go unread

  /** A run of Push and the position of a sample in its batch. */
  datatype WriteRun = WriteRun(b: PushRun.Batch, states: seq<PushRun.State>, steps: seq<PushRun.Step>, s: nat)

  /** A run of a query, whose results it returned, what the ingesters answer, and the answer made
      of it. */
  datatype ReadRun<M> = ReadRun(states: seq<Query.State>, steps: seq<Query.Step>, from: seq<nat>,
                                answers: Id -> seq<Query.Stream<M>>, answer: map<int, Query.Stream<M>>)

  /** The sample was acknowledged by its replicas, a later query of some readers returned results, the
      ingesters that took the sample have it; and the answer lacks its time. */
  ghost predicate Lost<M(!new)>(written: seq<Id>, readers: seq<Id>, fp: M -> int, f: int, t: int, w: WriteRun, r: ReadRun<M>) {
    && PushRun.ValidBatch(w.b) && Acknowledged(w.b, w.states, w.steps) && w.s < |w.b.replicas| && w.b.replicas[w.s] == written
    && Returned(readers, r.states, r.steps, r.from)
    && Kept(w.b, w.states[|w.steps|], w.s, readers, fp, r.answers, f, t)
    && Query.Combines(fp, Query.Flatten(Received(readers, r.from, r.answers)), r.answer)
    && !(f in r.answer && Covers(r.answer[f].values, t))
  }

  ghost predicate CanBeLost<M(!new)>(written: seq<Id>, readers: seq<Id>, fp: M -> int, f: int, t: int) {
    exists w: WriteRun, r: ReadRun<M> :: Lost(written, readers, fp, f, t, w, r)
  }

  lemma {:induction false} NothingFlattens<M>(results: seq<seq<Query.Stream<M>>>)
    requires forall j :: 0 <= j < |results| ==> results[j] == []
    ensures Query.Flatten(results) == []
  {
    if results != [] {
      NothingFlattens(results[..|results| - 1]);
    }
  }

  /** The ingesters of `w` answer with the sample, the others with nothing. */
  function Answers<M>(w: set<Id>, metric: M, t: int): Id -> seq<Query.Stream<M>> {
    (id: Id) => if id in w then [Query.Stream(metric, [Sample(t, 0.0)])] else []
  }

  /** A query that hears none of them gets an empty answer. */
  lemma HearsNothing<M(!new)>(readers: seq<Id>, from: seq<nat>, fp: M -> int, metric: M, t: int, w: set<Id>)
    requires forall j :: 0 <= j < |from| ==> from[j] < |readers| && readers[from[j]] !in w
    ensures Query.Combines(fp, Query.Flatten(Received(readers, from, Answers(w, metric, t))), map[])
  {
    var results := Received(readers, from, Answers(w, metric, t));
    forall j | 0 <= j < |from| ensures results[j] == [] {
    }
    NothingFlattens(results);
  }

  /** Disjoint quorums lose a sample: the one takes it, and the other is asked. */
  lemma DisjointLoses<M(!new)>(written: seq<Id>, readers: seq<Id>, fp: M -> int, metric: M, t: int, w: set<Id>, r: set<Id>)
    requires Distinct(written) && Distinct(readers) && w * r == {}
    requires IsQuorum(SetOf(written), w) && IsQuorum(SetOf(readers), r)
    ensures CanBeLost(written, readers, fp, fp(metric), t)
  {
    DistinctSize(readers);
    SubsetSize(w, SetOf(written));
    SubsetSize(r, SetOf(readers));
    OneSampleBatch(written);
    var b := PushRun.Batch([written], SetOf(written));
    var pushed, pushSteps := AcknowledgedBy(written, w);
    var from := Positions(readers, r, MinSuccess(|readers|));
    var queried, querySteps := HeardFrom(|readers|, from);
    forall id | id in r ensures id !in w {
      assert id in w ==> id in w * r;
    }
    HearsNothing(readers, from, fp, metric, t, w);
    Answering(fp, metric, t);
    assert Kept(b, pushed[|pushSteps|], 0, readers, fp, Answers(w, metric, t), fp(metric), t);
    assert Lost(written, readers, fp, fp(metric), t, WriteRun(b, pushed, pushSteps, 0),
                ReadRun(queried, querySteps, from, Answers(w, metric, t), map[]));
  }

  lemma Answering<M(!new)>(fp: M -> int, metric: M, t: int)
    ensures Query.StreamCovers(fp, [Query.Stream(metric, [Sample(t, 0.0)])], fp(metric), t)
  {
    var stream := Query.Stream(metric, [Sample(t, 0.0)]);
    assert [stream][0] == stream && stream.values[0].timestamp == t;
  }

  /** An acknowledged sample of a key can go unread if and only if the numbers of the key's replicas
      written, read and LEAVING do not make quorums meet. */
  lemma LostIff<M(!new)>(ingesters: Ingesters, tokens: seq<TokenDesc>, start: nat, n: nat, fp: M -> int, metric: M, t: int)
    requires start <= |tokens|
    ensures var read, written := Replicas(ingesters, tokens, start, n, Read), Replicas(ingesters, tokens, start, n, Write);
            CanBeLost(written, read, fp, fp(metric), t) <==> !SizesMeet(|written|, |read|, |Leaving(ingesters, read)|)
  {
    var readers, written := Replicas(ingesters, tokens, start, n, Read), Replicas(ingesters, tokens, start, n, Write);
    LeavingAndQuorums(ingesters, tokens, start, n);
    if !QuorumsMeet(SetOf(written), SetOf(readers)) {
      var w, r :| IsQuorum(SetOf(written), w) && IsQuorum(SetOf(readers), r) && w * r == {};
      ReplicasAreDistinct(ingesters, tokens, start, n, Read);
      ReplicasAreDistinct(ingesters, tokens, start, n, Write);
      DisjointLoses(written, readers, fp, metric, t, w, r);
    } else if CanBeLost(written, readers, fp, fp(metric), t) {
      var w: WriteRun, r: ReadRun<M> :| Lost(written, readers, fp, fp(metric), t, w, r);
      AcknowledgedIsRead(ingesters, tokens, start, n, w.b, w.states, w.steps, w.s, r.states, r.steps, r.from,
                         fp, r.answers, r.answer, fp(metric), t);
      assert false;
    }
  }
}

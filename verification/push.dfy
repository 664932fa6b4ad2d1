/** The setup of the distributor's write path: how a batch of samples is spread over the
    replicas of their keys. */
module Push {
  import opened SortedLists
  import opened Ring
  import opened Quorum

  /** The counters of one sample. */
  datatype Tracker = Tracker(minSuccess: int, maxFailures: int, succeeded: int, failed: int)

  // -------------------------------------------------- spreading the samples

  /** The live ones of a list of replicas. */
  function Live(replicas: seq<Id>, live: set<Id>): seq<Id> {
    if replicas == [] then []
    else Live(replicas[..|replicas| - 1], live)
         + (if replicas[|replicas| - 1] in live then [replicas[|replicas| - 1]] else [])
  }

  lemma {:induction false} LiveMembers(replicas: seq<Id>, live: set<Id>)
    requires Distinct(replicas)
    ensures Distinct(Live(replicas, live))
    ensures SetOf(Live(replicas, live)) == SetOf(replicas) * live
  {
    if replicas != [] {
      var front, last := replicas[..|replicas| - 1], replicas[|replicas| - 1];
      LiveMembers(front, live);
      assert last !in SetOf(front);
      assert SetOf(replicas) == SetOf(front) + {last};
      forall x ensures x in Live(replicas, live) <==> x in SetOf(replicas) * live {
        assert x in Live(front, live) <==> x in SetOf(Live(front, live));
      }
      assert last !in SetOf(Live(front, live));
    }
  }

  /** The first `n` samples, by position, that an ingester is sent. */
  function Work(replicas: seq<seq<Id>>, live: set<Id>, n: nat, id: Id): seq<nat>
    requires n <= |replicas|
  {
    if n == 0 then []
    else if id in live && id in replicas[n - 1] then Work(replicas, live, n - 1, id) + [n - 1]
    else Work(replicas, live, n - 1, id)
  }

  ghost predicate Increasing(w: seq<nat>) {
    forall j, k :: 0 <= j < k < |w| ==> w[j] < w[k]
  }

  lemma {:induction false} WorkMembers(replicas: seq<seq<Id>>, live: set<Id>, n: nat, id: Id)
    requires n <= |replicas|
    ensures forall s :: s in Work(replicas, live, n, id) <==> 0 <= s < n && id in live && id in replicas[s]
    ensures Increasing(Work(replicas, live, n, id))
  {
    if n > 0 {
      WorkMembers(replicas, live, n - 1, id);
      var w := Work(replicas, live, n - 1, id);
      assert forall k :: 0 <= k < |w| ==> w[k] in w;
    }
  }

  function At(m: map<Id, seq<nat>>, id: Id): seq<nat> {
    if id in m then m[id] else []
  }

  datatype Prepared = TooFewLive | Ready(samples: seq<Tracker>, byIngester: map<Id, seq<nat>>)

  function NewTracker(n: nat): Tracker {
    Tracker(MinSuccess(n), MaxFailures(n), 0, 0)
  }

  /** Too few replicas of the sample are live to reach a quorum. */
  ghost predicate Hopeless(replicas: seq<Id>, live: set<Id>) {
    |SetOf(replicas) * live| < MinSuccess(|replicas|)
  }

  /** The samples of each ingester when the first `n` samples are spread. */
  ghost predicate Spread(replicas: seq<seq<Id>>, live: set<Id>, n: nat, m: map<Id, seq<nat>>)
    requires n <= |replicas|
  {
    forall id :: At(m, id) == Work(replicas, live, n, id) && (id in m ==> m[id] != [])
  }

  /** Sends sample `i` to every ingester of a list. */
  method Assign(before: map<Id, seq<nat>>, ids: seq<Id>, i: nat) returns (m: map<Id, seq<nat>>)
    requires Distinct(ids) && forall id :: id in before ==> before[id] != []
    ensures forall id :: At(m, id) == if id in ids then At(before, id) + [i] else At(before, id)
    ensures forall id :: id in m ==> m[id] != []
  {
    m := before;
    for j := 0 to |ids|
      invariant forall id :: id in m ==> m[id] != []
      invariant forall id :: At(m, id) == if id in ids[..j] then At(before, id) + [i] else At(before, id)
    {
      assert ids[..j + 1] == ids[..j] + [ids[j]];
      assert ids[j] !in ids[..j];
      m := m[ids[j] := At(m, ids[j]) + [i]];
    }
    assert ids[..|ids|] == ids;
  }

  lemma LiveEnough(replicas: seq<Id>, live: set<Id>)
    requires Distinct(replicas)
    ensures Distinct(Live(replicas, live)) && SetOf(Live(replicas, live)) == SetOf(replicas) * live
    ensures |Live(replicas, live)| < MinSuccess(|replicas|) <==> Hopeless(replicas, live)
  {
    LiveMembers(replicas, live);
    DistinctSize(Live(replicas, live));
  }

  /** The setup of Push: the quorum of every sample counts dead replicas too, but only live ones
      are sent the sample. */
  method Prepare(replicas: seq<seq<Id>>, live: set<Id>) returns (r: Prepared)
    requires AllDistinct(replicas)
    ensures r.TooFewLive? <==> exists s :: 0 <= s < |replicas| && Hopeless(replicas[s], live)
    ensures r.Ready? ==> Fresh(replicas, |replicas|, r.samples) && Spread(replicas, live, |replicas|, r.byIngester)
  {
    var samples: seq<Tracker> := [];
    var byIngester: map<Id, seq<nat>> := map[];
    for i := 0 to |replicas|
      invariant Fresh(replicas, i, samples)
      invariant forall s :: 0 <= s < i ==> !Hopeless(replicas[s], live)
      invariant Spread(replicas, live, i, byIngester)
    {
      var n := |replicas[i]|;
      var minSuccess := n / 2 + 1;
      samples := samples + [Tracker(minSuccess, n - minSuccess, 0, 0)];
      var ok;
      ok, byIngester := SendToLive(replicas, live, i, byIngester);
      if !ok {
        return TooFewLive;
      }
    }
    r := Ready(samples, byIngester);
  }

  /** Gives one sample to its live replicas, unless there are too few. */
  method SendToLive(replicas: seq<seq<Id>>, live: set<Id>, i: nat, before: map<Id, seq<nat>>)
    returns (ok: bool, after: map<Id, seq<nat>>)
    requires i < |replicas| && Distinct(replicas[i]) && Spread(replicas, live, i, before)
    ensures ok <==> !Hopeless(replicas[i], live)
    ensures ok ==> Spread(replicas, live, i + 1, after)
  {
    var liveIngesters := FindLive(replicas[i], live);
    LiveEnough(replicas[i], live);
    if |liveIngesters| < MinSuccess(|replicas[i]|) {
      return false, before;
    }
    after := Assign(before, liveIngesters, i);
    SpreadNext(replicas, live, i, liveIngesters, before, after);
    ok := true;
  }

  ghost predicate AllDistinct(replicas: seq<seq<Id>>) {
    forall s :: 0 <= s < |replicas| ==> Distinct(replicas[s])
  }

  ghost predicate Fresh(replicas: seq<seq<Id>>, n: nat, samples: seq<Tracker>)
    requires n <= |replicas|
  {
    |samples| == n && forall s :: 0 <= s < n ==> samples[s] == NewTracker(|replicas[s]|)
  }

  lemma SpreadNext(replicas: seq<seq<Id>>, live: set<Id>, n: nat, all: seq<Id>, m: map<Id, seq<nat>>, m': map<Id, seq<nat>>)
    requires n < |replicas| && Spread(replicas, live, n, m) && SetOf(all) == SetOf(replicas[n]) * live
    requires forall id :: At(m', id) == if id in all then At(m, id) + [n] else At(m, id)
    requires forall id :: id in m' ==> m'[id] != []
    ensures Spread(replicas, live, n + 1, m')
  {
    forall id ensures At(m', id) == Work(replicas, live, n + 1, id) {
      assert id in all <==> id in SetOf(all);
    }
  }

  /** The replicas that have sent a heartbeat lately. */
  method FindLive(replicas: seq<Id>, live: set<Id>) returns (r: seq<Id>)
    ensures r == Live(replicas, live)
  {
    r := [];
    for k := 0 to |replicas|
      invariant r == Live(replicas[..k], live)
    {
      assert replicas[..k + 1][..k] == replicas[..k];
      if replicas[k] in live {
        r := r + [replicas[k]];
      }
    }
    assert replicas[..|replicas|] == replicas;
  }
}

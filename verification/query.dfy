/** The distributor's read path: the goroutines that query the ingesters and the loop that
    waits for a quorum of results or one error too many, as interleaved atomic steps; and the
    merge of the results. */
module Query {
  import opened ByteStrings
  import opened SortedLists
  import opened Quorum
  import opened Samples

  /** Where the goroutine of one ingester is: waiting for it, holding its answer, blocked in the
      send of an error, or gone. */
  datatype Task = Calling | Holding(ok: bool) | Sending | Finished(ok: bool)

  datatype Outcome = Results(from: seq<nat>) | Error

  /** The goroutines by position, the error count, the buffered results, the results the loop
      has received, and what the query returned. */
  datatype State = State(tasks: seq<Task>, numErrs: nat, buffered: seq<nat>, received: seq<nat>, outcome: Option<Outcome>)

  /** The start of a query of `n` ingesters, of which there is at least one: with none the quorum
      of one cannot be had and the query fails at once. */
  predicate Initial(n: nat, st: State) {
    && |st.tasks| == n && (forall k :: 0 <= k < n ==> st.tasks[k] == Calling)
    && st.numErrs == 0 && st.buffered == [] && st.received == [] && st.outcome == None
  }

  datatype Step =
    | Reply(k: nat, ok: bool)
    | Buffer(k: nat)
    | CountError(k: nat)
    | ReceiveResult
    | ReceiveError(k: nat)

  /** A result can be buffered while there is room for it; the loop receives while it has
      neither enough results nor an error. */
  predicate Enabled(n: nat, st: State, step: Step) {
    match step
    case Reply(k, _) => k < |st.tasks| && st.tasks[k] == Calling
    case Buffer(k) => k < |st.tasks| && st.tasks[k] == Holding(true) && |st.buffered| < n
    case CountError(k) => k < |st.tasks| && st.tasks[k] == Holding(false)
    case ReceiveResult => st.outcome.None? && st.buffered != []
    case ReceiveError(k) => k < |st.tasks| && st.tasks[k] == Sending && st.outcome.None?
  }

  function Apply(n: nat, st: State, step: Step): State
    requires Enabled(n, st, step)
  {
    match step
    case Reply(k, ok) => st.(tasks := st.tasks[k := Holding(ok)])
    case Buffer(k) => st.(tasks := st.tasks[k := Finished(true)], buffered := st.buffered + [k])
    case CountError(k) =>
      st.(numErrs := st.numErrs + 1,
          tasks := st.tasks[k := if st.numErrs + 1 == MaxFailures(n) + 1 then Sending else Finished(false)])
    case ReceiveResult =>
      var received := st.received + [st.buffered[0]];
      st.(buffered := st.buffered[1..], received := received,
          outcome := if |received| == MinSuccess(n) then Some(Results(received)) else None)
    case ReceiveError(k) => st.(tasks := st.tasks[k := Finished(false)], outcome := Some(Error))
  }

  ghost predicate IsRun(n: nat, states: seq<State>, steps: seq<Step>) {
    && |states| == |steps| + 1 && Initial(n, states[0])
    && forall k :: 0 <= k < |steps| ==> Enabled(n, states[k], steps[k]) && states[k + 1] == Apply(n, states[k], steps[k])
  }

  // -------------------------------------------------- what every step keeps

  /** The goroutines whose error has been counted. */
  ghost function Errors(st: State): set<nat> {
    set k: nat | k < |st.tasks| && (st.tasks[k] == Sending || st.tasks[k] == Finished(false))
  }

  /** The results that have been sent, in order: those received and those still buffered. */
  function Published(st: State): seq<nat> {
    st.received + st.buffered
  }

  /** What the counters and channels hold. */
  ghost predicate Accounted(n: nat, st: State) {
    && |st.tasks| == n && st.numErrs == |Errors(st)|
    && Distinct(Published(st))
    && (forall k: nat :: k in Published(st) <==> k < n && st.tasks[k] == Finished(true))
  }

  ghost predicate SomeSending(st: State) {
    exists k :: 0 <= k < |st.tasks| && st.tasks[k] == Sending
  }

  /** The error is sent once, when it is one too many, and the loop is there to receive it. */
  ghost predicate ErrorOnce(n: nat, st: State) {
    && (SomeSending(st) ==> st.outcome.None?)
    && (st.numErrs > MaxFailures(n) <==> st.outcome == Some(Error) || SomeSending(st))
    && (forall j, k :: 0 <= j < |st.tasks| && 0 <= k < |st.tasks| && st.tasks[j] == Sending && st.tasks[k] == Sending ==> j == k)
  }

  /** The loop returns as soon as it has enough results. */
  ghost predicate EnoughResults(n: nat, st: State) {
    && (st.outcome.None? ==> |st.received| < MinSuccess(n))
    && (st.outcome.Some? && st.outcome.value.Results? ==> st.outcome.value.from == st.received && |st.received| == MinSuccess(n))
  }

  ghost predicate Invariant(n: nat, st: State) {
    Accounted(n, st) && ErrorOnce(n, st) && EnoughResults(n, st)
  }

  lemma {:induction false} DistinctBelow(s: seq<nat>, keys: set<nat>)
    requires Distinct(s) && forall x :: x in s ==> x in keys
    ensures |s| <= |keys|
  {
    if s != [] {
      assert forall x :: x in s[1..] ==> x in s && x != s[0];
      DistinctBelow(s[1..], keys - {s[0]});
    }
  }

  /** Results and errors are of different goroutines. */
  lemma ResultsAndErrors(n: nat, st: State)
    requires Accounted(n, st)
    ensures |Published(st)| + st.numErrs <= n
  {
    DistinctBelow(Published(st), Below(n) - Errors(st));
    SubsetSize(Errors(st), Below(n));
    assert |Below(n) - Errors(st)| == n - |Errors(st)|;
  }

  lemma KeepsAccounts(n: nat, st: State, step: Step)
    requires Accounted(n, st) && Enabled(n, st, step)
    ensures Accounted(n, Apply(n, st, step))
  {
    var st' := Apply(n, st, step);
    match step
    case Reply(k, _) =>
      assert Errors(st') == Errors(st);
    case Buffer(k) =>
      assert Errors(st') == Errors(st);
      BufferKeepsAccounts(n, st, k);
    case CountError(k) => ErrorKeepsAccounts(n, st, k);
    case ReceiveResult =>
      assert Errors(st') == Errors(st);
      assert st.buffered == [st.buffered[0]] + st.buffered[1..];
      assert Published(st') == Published(st);
    case ReceiveError(k) =>
      assert Errors(st') == Errors(st);
  }

  lemma ErrorKeepsAccounts(n: nat, st: State, k: nat)
    requires Accounted(n, st) && Enabled(n, st, CountError(k))
    ensures Accounted(n, Apply(n, st, CountError(k)))
  {
    var st' := Apply(n, st, CountError(k));
    assert Errors(st') == Errors(st) + {k};
    assert Published(st') == Published(st);
  }

  lemma BufferKeepsAccounts(n: nat, st: State, k: nat)
    requires Accounted(n, st) && Enabled(n, st, Buffer(k))
    ensures var st' := Apply(n, st, Buffer(k));
            Distinct(Published(st')) && forall j: nat :: j in Published(st') <==> j < n && st'.tasks[j] == Finished(true)
  {
    var st' := Apply(n, st, Buffer(k));
    assert Published(st') == Published(st) + [k];
    assert k !in Published(st);
  }

  lemma KeepsErrorOnce(n: nat, st: State, step: Step)
    requires Invariant(n, st) && Enabled(n, st, step) && n > 0
    ensures ErrorOnce(n, Apply(n, st, step))
  {
    var st' := Apply(n, st, step);
    KeepsAccounts(n, st, step);
    ResultsAndErrors(n, st');
    match step
    case Reply(k, _) => SameSending(st, st', k);
    case Buffer(k) => SameSending(st, st', k);
    case CountError(k) =>
      if st'.tasks[k] == Sending {
        assert SomeSending(st');
      } else {
        SameSending(st, st', k);
      }
    case ReceiveResult =>
      assert SomeSending(st') <==> SomeSending(st);
    case ReceiveError(k) =>
      assert SomeSending(st);
      assert !SomeSending(st');
  }

  lemma SameSending(st: State, st': State, k: nat)
    requires k < |st.tasks| == |st'.tasks| && st'.tasks == st.tasks[k := st'.tasks[k]]
    requires st.tasks[k] != Sending && st'.tasks[k] != Sending
    ensures SomeSending(st') <==> SomeSending(st)
  {
    if SomeSending(st) {
      var j :| 0 <= j < |st.tasks| && st.tasks[j] == Sending;
      assert st'.tasks[j] == Sending;
    }
  }

  lemma StepKeeps(n: nat, st: State, step: Step)
    requires Invariant(n, st) && Enabled(n, st, step) && n > 0
    ensures Invariant(n, Apply(n, st, step))
  {
    KeepsAccounts(n, st, step);
    KeepsErrorOnce(n, st, step);
  }

  lemma {:induction false} RunKeeps(n: nat, states: seq<State>, steps: seq<Step>, k: nat)
    requires n > 0 && IsRun(n, states, steps) && k < |states|
    ensures Invariant(n, states[k])
  {
    if k == 0 {
      assert Errors(states[0]) == {};
    } else {
      RunKeeps(n, states, steps, k - 1);
      StepKeeps(n, states[k - 1], steps[k - 1]);
    }
  }

  // -------------------------------------------------- what every run does

  ghost predicate Completed(n: nat, st: State) {
    forall step :: !Enabled(n, st, step)
  }

  /** The goroutines whose ingester answered with an error, or with a result. */
  ghost function Answered(st: State, ok: bool): set<nat> {
    set k: nat | k < |st.tasks| && st.tasks[k] == Finished(ok)
  }

  /** In every interleaving a query that has come to rest has returned: the results of a quorum
      of distinct ingesters when enough of them answered, and otherwise one error; and none of
      its goroutines is left blocked. */
  lemma QueryReturns(n: nat, states: seq<State>, steps: seq<Step>)
    requires n > 0 && IsRun(n, states, steps) && Completed(n, states[|steps|])
    ensures var st := states[|steps|];
            && |st.tasks| == n && (forall k :: 0 <= k < n ==> st.tasks[k].Finished?)
            && st.outcome.Some? && (st.outcome == Some(Error) <==> |Answered(st, false)| > MaxFailures(n))
            && (st.outcome != Some(Error) ==>
                  var from := st.outcome.value.from;
                  |from| == MinSuccess(n) && Distinct(from) && forall k :: k in from ==> k in Answered(st, true))
  {
    var st := states[|steps|];
    RunKeeps(n, states, steps, |steps|);
    ResultsAndErrors(n, st);
    AtRest(n, st);
    assert Errors(st) == Answered(st, false);
    if st.outcome.None? {
      AllPublished(n, st);
    }
    assert forall k :: 0 <= k < |st.received| ==> st.received[k] == Published(st)[k];
    forall k | k in st.received ensures k in Answered(st, true) {
      assert k in Published(st);
    }
  }

  /** Whenever a query returns results, they are those of a quorum of distinct ingesters. */
  lemma ResultsAreAQuorum(n: nat, states: seq<State>, steps: seq<Step>, k: nat)
    requires n > 0 && IsRun(n, states, steps) && k < |states|
    requires states[k].outcome.Some? && states[k].outcome.value.Results?
    ensures var from := states[k].outcome.value.from;
            |from| == MinSuccess(n) && Distinct(from) && forall j :: 0 <= j < |from| ==> from[j] < n
  {
    RunKeeps(n, states, steps, k);
    var st := states[k];
    assert forall j :: 0 <= j < |st.received| ==> st.received[j] == Published(st)[j];
    assert forall j :: 0 <= j < |st.received| ==> st.received[j] in Published(st);
  }

  lemma AtRest(n: nat, st: State)
    requires n > 0 && Invariant(n, st) && Completed(n, st)
    ensures forall k :: 0 <= k < n ==> st.tasks[k].Finished?
    ensures st.outcome.None? ==> st.buffered == []
  {
    assert !Enabled(n, st, ReceiveResult);
    ResultsAndErrors(n, st);
    forall k: nat | k < n ensures st.tasks[k].Finished? {
      assert !Enabled(n, st, Reply(k, true));
      assert !Enabled(n, st, Buffer(k));
      assert !Enabled(n, st, CountError(k));
      assert !Enabled(n, st, ReceiveError(k));
      assert st.tasks[k] == Sending ==> SomeSending(st);
      if st.tasks[k] == Holding(true) {
        HasRoom(n, st, k);
      }
    }
  }

  /** The buffer always has room for one more result. */
  lemma HasRoom(n: nat, st: State, k: nat)
    requires Accounted(n, st) && k < n && st.tasks[k] == Holding(true)
    ensures |st.buffered| < n
  {
    DistinctBelow(Published(st), Below(n) - {k});
  }

  lemma AllPublished(n: nat, st: State)
    requires Accounted(n, st) && forall k :: 0 <= k < n ==> st.tasks[k].Finished?
    ensures |Published(st)| + st.numErrs == n
  {
    DistinctSize(Published(st));
    SplitTasks(n, st);
    assert |SetOf(Published(st)) + Errors(st)| == |SetOf(Published(st))| + |Errors(st)|;
  }

  lemma SplitTasks(n: nat, st: State)
    requires Accounted(n, st) && forall k :: 0 <= k < n ==> st.tasks[k].Finished?
    ensures SetOf(Published(st)) + Errors(st) == Below(n) && SetOf(Published(st)) !! Errors(st)
  {
    forall k: nat ensures k in SetOf(Published(st)) <==> k < n && st.tasks[k] == Finished(true) {
      assert k in SetOf(Published(st)) <==> k in Published(st);
    }
    forall k: nat ensures k in Errors(st) <==> k < n && st.tasks[k] == Finished(false) {
    }
  }

  // -------------------------------------------------- every query comes to rest

  function Rank(t: Task): nat {
    match t
    case Calling => 3
    case Holding(_) => 2
    case Sending => 1
    case Finished(_) => 0
  }

  function RankSum(tasks: seq<Task>): nat {
    if tasks == [] then 0 else Rank(tasks[0]) + RankSum(tasks[1..])
  }

  lemma {:induction false} RankSumUpdate(tasks: seq<Task>, k: nat, t: Task)
    requires k < |tasks|
    ensures RankSum(tasks[k := t]) == RankSum(tasks) - Rank(tasks[k]) + Rank(t)
  {
    if k == 0 {
      assert tasks[k := t][1..] == tasks[1..];
    } else {
      assert tasks[k := t][1..] == tasks[1..][k - 1 := t];
      RankSumUpdate(tasks[1..], k - 1, t);
    }
  }

  function StepsLeft(st: State): nat {
    RankSum(st.tasks) + |st.buffered|
  }

  lemma StepLowers(n: nat, st: State, step: Step)
    requires Enabled(n, st, step)
    ensures StepsLeft(Apply(n, st, step)) < StepsLeft(st)
  {
    if !step.ReceiveResult? {
      RankSumUpdate(st.tasks, step.k, Apply(n, st, step).tasks[step.k]);
    }
  }

  lemma {:induction false} RankSumOfCalling(tasks: seq<Task>)
    requires forall k :: 0 <= k < |tasks| ==> tasks[k] == Calling
    ensures RankSum(tasks) == 3 * |tasks|
  {
    if tasks != [] {
      RankSumOfCalling(tasks[1..]);
    }
  }

  /** Every query comes to rest: three steps for each ingester are all there can be. */
  lemma {:induction false} QueryIsFinite(n: nat, states: seq<State>, steps: seq<Step>, k: nat)
    requires IsRun(n, states, steps) && k < |states|
    ensures k + StepsLeft(states[k]) <= 3 * n
  {
    if k == 0 {
      RankSumOfCalling(states[0].tasks);
    } else {
      QueryIsFinite(n, states, steps, k - 1);
      StepLowers(n, states[k - 1], steps[k - 1]);
    }
  }

  // -------------------------------------------------- any ingesters may fail

  /** The goroutines have been answered with an error exactly where their ingester fails. */
  ghost predicate Follows(st: State, failing: set<nat>) {
    forall k :: 0 <= k < |st.tasks| ==>
      match st.tasks[k]
      case Calling => true
      case Holding(ok) => ok == (k !in failing)
      case Sending => k in failing
      case Finished(ok) => ok == (k !in failing)
  }

  /** A run in which ingesters answer so comes to rest, whatever its goroutines have done so far. */
  lemma {:induction false} Finish(n: nat, states: seq<State>, steps: seq<Step>, failing: set<nat>)
    returns (more: seq<State>, moreSteps: seq<Step>)
    requires n > 0 && IsRun(n, states, steps) && Follows(states[|steps|], failing)
    ensures IsRun(n, more, moreSteps) && Completed(n, more[|moreSteps|]) && Follows(more[|moreSteps|], failing)
    decreases StepsLeft(states[|steps|])
  {
    more, moreSteps := states, steps;
    var st := states[|steps|];
    if step :| Enabled(n, st, step) {
      var next := if step.Reply? then Reply(step.k, step.k !in failing) else step;
      StepLowers(n, st, next);
      more, moreSteps := Finish(n, states + [Apply(n, st, next)], steps + [next], failing);
    }
  }

  /** Whichever ingesters fail, some query comes to rest with their answers; and it returns an
      error exactly when they are more than it tolerates. */
  lemma AnyMayFail(n: nat, failing: set<nat>) returns (states: seq<State>, steps: seq<Step>)
    requires n > 0 && failing <= Below(n)
    ensures IsRun(n, states, steps) && Completed(n, states[|steps|])
    ensures Answered(states[|steps|], false) == failing && Answered(states[|steps|], true) == Below(n) - failing
    ensures states[|steps|].outcome == Some(Error) <==> |failing| > MaxFailures(n)
  {
    var start := State(seq(n, _ => Calling), 0, [], [], None);
    states, steps := Finish(n, [start], [], failing);
    QueryReturns(n, states, steps);
    var st := states[|steps|];
    forall k: nat ensures k in Answered(st, false) <==> k in failing {
      assert k in Below(n) <==> k < n;
    }
    assert Answered(st, true) == Below(n) - failing;
  }

  // -------------------------------------------------- merging the results

  datatype Stream<M> = Stream(metric: M, values: seq<Sample>)

  /** All streams of a list of results, one result after the other. */
  function Flatten<M>(results: seq<seq<Stream<M>>>): seq<Stream<M>> {
    if results == [] then [] else Flatten(results[..|results| - 1]) + results[|results| - 1]
  }

  /** Some stream with the fingerprint has a sample at the time. */
  ghost predicate StreamCovers<M(!new)>(fp: M -> int, streams: seq<Stream<M>>, f: int, t: int) {
    exists k :: 0 <= k < |streams| && fp(streams[k].metric) == f && Covers(streams[k].values, t)
  }

  ghost predicate StreamHas<M(!new)>(fp: M -> int, streams: seq<Stream<M>>, f: int, x: Sample) {
    exists k :: 0 <= k < |streams| && fp(streams[k].metric) == f && x in streams[k].values
  }

  ghost predicate StreamNamed<M(!new)>(fp: M -> int, streams: seq<Stream<M>>, f: int) {
    exists k :: 0 <= k < |streams| && fp(streams[k].metric) == f
  }

  /** The answer built from some streams: for every fingerprint, every time any of them has, and
      no sample that none of them has. */
  ghost predicate Combines<M(!new)>(fp: M -> int, streams: seq<Stream<M>>, answer: map<int, Stream<M>>) {
    && (forall f :: f in answer <==> StreamNamed(fp, streams, f))
    && (forall f, t :: f in answer ==> (Covers(answer[f].values, t) <==> StreamCovers(fp, streams, f, t)))
    && (forall f, x :: f in answer && x in answer[f].values ==> StreamHas(fp, streams, f, x))
    && (forall f :: f in answer ==> FirstNamed(fp, streams, f, answer[f].metric))
    && (forall f :: f in answer ==> answer[f].values == MergedUnder(fp, streams, f))
  }

  /** The metric of the first stream with the fingerprint. */
  ghost predicate FirstNamed<M(!new)>(fp: M -> int, streams: seq<Stream<M>>, f: int, metric: M) {
    exists k :: 0 <= k < |streams| && streams[k].metric == metric && fp(metric) == f && !StreamNamed(fp, streams[..k], f)
  }

  /** The samples of the streams with the fingerprint, merged one stream after the other. */
  ghost function MergedUnder<M>(fp: M -> int, streams: seq<Stream<M>>, f: int): seq<Sample> {
    if streams == [] then []
    else
      var front, last := MergedUnder(fp, streams[..|streams| - 1], f), streams[|streams| - 1];
      if fp(last.metric) == f then Merged(front, last.values) else front
  }

  /** The stream with the fingerprint has the sample, and no earlier one has its time. */
  ghost predicate FirstHas<M(!new)>(fp: M -> int, streams: seq<Stream<M>>, f: int, x: Sample) {
    exists k :: 0 <= k < |streams| && fp(streams[k].metric) == f && x in streams[k].values && !StreamCovers(fp, streams[..k], f, x.timestamp)
  }

  /** Results in order merge into one in order; and where several have a sample at one time, the one
      that arrived first counts. */
  lemma {:induction false} FirstResultCounts<M(!new)>(fp: M -> int, streams: seq<Stream<M>>, f: int)
    requires forall k :: 0 <= k < |streams| ==> Sorted(Earlier, streams[k].values)
    ensures Sorted(Earlier, MergedUnder(fp, streams, f))
    ensures forall x :: x in MergedUnder(fp, streams, f) <==> FirstHas(fp, streams, f, x)
    ensures forall t :: Covers(MergedUnder(fp, streams, f), t) <==> StreamCovers(fp, streams, f, t)
  {
    if streams != [] {
      var n := |streams| - 1;
      var front, last := streams[..n], streams[n];
      assert streams == front + [last];
      FirstResultCounts(fp, front, f);
      StreamsGrow(fp, front, last);
      FirstHasMore(fp, front, last, f);
      if fp(last.metric) == f {
        MergeIsSorted(MergedUnder(fp, front, f), last.values);
        MergeCovers(MergedUnder(fp, front, f), last.values);
      }
    }
  }

  lemma FirstHasMore<M(!new)>(fp: M -> int, front: seq<Stream<M>>, last: Stream<M>, f: int)
    ensures forall x :: FirstHas(fp, front + [last], f, x) <==>
              FirstHas(fp, front, f, x) || (fp(last.metric) == f && x in last.values && !StreamCovers(fp, front, f, x.timestamp))
  {
    var more := front + [last];
    assert more[|front|] == last && more[..|front|] == front;
    assert forall k :: 0 <= k < |front| ==> more[k] == front[k] && more[..k] == front[..k];
  }

  /** Merges one more stream into an answer. */
  method MergeStream<M(!new)>(fp: M -> int, before: map<int, Stream<M>>, ss: Stream<M>, ghost streams: seq<Stream<M>>)
    returns (answer: map<int, Stream<M>>)
    requires Combines(fp, streams, before)
    ensures Combines(fp, streams + [ss], answer)
  {
    var f := fp(ss.metric);
    var mss := if f in before then before[f] else Stream(ss.metric, []);
    var values := MergeSamples(mss.values, ss.values);
    MergeCovers(mss.values, ss.values);
    answer := before[f := mss.(values := values)];
    StreamsGrow(fp, streams, ss);
    NamesStay(fp, streams, ss);
    assert (streams + [ss])[..|streams|] == streams;
    if f !in before {
      NothingUnder(fp, streams, f);
    }
    forall g, t | g in answer ensures Covers(answer[g].values, t) <==> StreamCovers(fp, streams + [ss], g, t) {
      assert f !in before ==> !StreamCovers(fp, streams, f, t);
    }
  }

  lemma StreamsGrow<M(!new)>(fp: M -> int, streams: seq<Stream<M>>, ss: Stream<M>)
    ensures forall f, t :: StreamCovers(fp, streams + [ss], f, t) <==>
              StreamCovers(fp, streams, f, t) || (fp(ss.metric) == f && Covers(ss.values, t))
    ensures forall f, x :: StreamHas(fp, streams + [ss], f, x) <==>
              StreamHas(fp, streams, f, x) || (fp(ss.metric) == f && x in ss.values)
    ensures forall f :: StreamNamed(fp, streams + [ss], f) <==> StreamNamed(fp, streams, f) || fp(ss.metric) == f
  {
    var more := streams + [ss];
    assert more[|streams|] == ss;
    assert forall k :: 0 <= k < |streams| ==> more[k] == streams[k];
  }

  lemma {:induction false} NothingUnder<M(!new)>(fp: M -> int, streams: seq<Stream<M>>, f: int)
    requires !StreamNamed(fp, streams, f)
    ensures MergedUnder(fp, streams, f) == []
  {
    if streams != [] {
      var n := |streams| - 1;
      assert fp(streams[n].metric) != f && forall k :: 0 <= k < n ==> streams[..n][k] == streams[k];
      NothingUnder(fp, streams[..n], f);
    }
  }

  lemma NamesStay<M(!new)>(fp: M -> int, streams: seq<Stream<M>>, ss: Stream<M>)
    ensures forall f, m :: FirstNamed(fp, streams, f, m) ==> FirstNamed(fp, streams + [ss], f, m)
    ensures !StreamNamed(fp, streams, fp(ss.metric)) ==> FirstNamed(fp, streams + [ss], fp(ss.metric), ss.metric)
  {
    var more := streams + [ss];
    assert more[|streams|] == ss && more[..|streams|] == streams;
    assert forall k :: 0 <= k < |streams| ==> more[k] == streams[k] && more[..k] == streams[..k];
  }

  /** The accumulation of queryIngesters: the answer is the union of the results by time. */
  method MergeResults<M(!new)>(fp: M -> int, results: seq<seq<Stream<M>>>) returns (answer: map<int, Stream<M>>)
    ensures Combines(fp, Flatten(results), answer)
  {
    answer := map[];
    for i := 0 to |results|
      invariant Combines(fp, Flatten(results[..i]), answer)
    {
      ghost var before := Flatten(results[..i]);
      assert results[i][..0] == [] && before + [] == before;
      for j := 0 to |results[i]|
        invariant Combines(fp, before + results[i][..j], answer)
      {
        answer := MergeStream(fp, answer, results[i][j], before + results[i][..j]);
        assert before + results[i][..j] + [results[i][j]] == before + results[i][..j + 1];
      }
      assert results[i][..|results[i]|] == results[i];
      assert results[..i + 1][..i] == results[..i];
    }
    assert results[..|results|] == results;
  }
}
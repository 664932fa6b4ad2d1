/** Writes come to an end: every run is finite, and when a completed run can leave Push without
    an answer. */
module PushProgress {
  import opened ByteStrings
  import opened Sums
  import opened Ring
  import opened Quorum
  import opened Push
  import opened PushRun

  /** The steps a goroutine with `n` samples may still make. */
  function Rank(n: nat, t: Task): int {
    match t
    case Calling => 3 * n + 1
    case AtSample(_, pos) => 3 * (n - pos)
    case AtBatch(_, pos) => 3 * (n - pos) - 1
    case Sending(_, pos) => 3 * (n - pos) - 2
  }

  ghost function Ranks(b: Batch, tasks: map<Id, Task>): (m: map<Id, int>)
    ensures m.Keys == tasks.Keys
  {
    map id | id in tasks :: Rank(|SamplesOf(b, id)|, tasks[id])
  }

  ghost function StepsLeft(b: Batch, tasks: map<Id, Task>): int {
    SumOver(Ranks(b, tasks), tasks.Keys)
  }

  lemma MoveLowers(b: Batch, tasks: map<Id, Task>, id: Id, t: Task)
    requires id in tasks && Rank(|SamplesOf(b, id)|, t) < Rank(|SamplesOf(b, id)|, tasks[id])
    ensures StepsLeft(b, tasks[id := t]) < StepsLeft(b, tasks)
  {
    var m, m' := Ranks(b, tasks), Ranks(b, tasks[id := t]);
    assert tasks[id := t].Keys == tasks.Keys;
    SumOverPick(m, tasks.Keys, id);
    SumOverPick(m', tasks.Keys, id);
    SumOverSame(m, m', tasks.Keys - {id});
  }

  lemma StepLowers(b: Batch, st: State, step: Step)
    requires Shape(b, st) && Enabled(b, st, step)
    ensures StepsLeft(b, Apply(b, st, step).tasks) < StepsLeft(b, st.tasks)
  {
    var st' := Apply(b, st, step);
    assert st'.tasks == st.tasks[step.id := st'.tasks[step.id]];
    MoveLowers(b, st.tasks, step.id, st'.tasks[step.id]);
  }

  lemma InShape(b: Batch, states: seq<State>, steps: seq<Step>, k: nat)
    requires ValidBatch(b) && IsRun(b, states, steps) && k < |states|
    ensures Shape(b, states[k]) && StepsLeft(b, states[k].tasks) >= 0
  {
    RunKeeps(b, states, steps, k);
    SumIsPositive(Ranks(b, states[k].tasks), states[k].tasks.Keys);
  }

  /** Every run is finite: it has no more steps than its goroutines had to make. */
  lemma {:induction false} RunsAreFinite(b: Batch, states: seq<State>, steps: seq<Step>, k: nat)
    requires ValidBatch(b) && IsRun(b, states, steps) && k < |states|
    ensures 0 <= StepsLeft(b, states[k].tasks) <= StepsLeft(b, states[0].tasks) - k
  {
    InShape(b, states, steps, k);
    if k > 0 {
      RunsAreFinite(b, states, steps, k - 1);
      InShape(b, states, steps, k - 1);
      StepLowers(b, states[k - 1], steps[k - 1]);
    }
  }

  // -------------------------------------------------- runs with given answers

  /** The ingesters that have answered have refused exactly when they are in the set. */
  ghost predicate Obeys(tasks: map<Id, Task>, refusing: set<Id>) {
    forall id :: id in tasks && !tasks[id].Calling? ==> (tasks[id].ok <==> id !in refusing)
  }

  /** Some run in which exactly the given ingesters refuse comes to an end in the state. */
  ghost predicate EndsIn(b: Batch, refusing: set<Id>, last: State) {
    exists states: seq<State>, steps: seq<Step> ::
      IsRun(b, states, steps) && states[|steps|] == last && Completed(b, last) && Obeys(last.tasks, refusing)
  }

  lemma Extend(b: Batch, states: seq<State>, steps: seq<Step>, step: Step)
    requires IsRun(b, states, steps) && Enabled(b, states[|steps|], step)
    ensures IsRun(b, states + [Apply(b, states[|steps|], step)], steps + [step])
  {
  }

  lemma {:induction false} Finish(b: Batch, states: seq<State>, steps: seq<Step>, refusing: set<Id>) returns (last: State)
    requires ValidBatch(b) && IsRun(b, states, steps) && Obeys(states[|steps|].tasks, refusing)
    ensures EndsIn(b, refusing, last)
    decreases StepsLeft(b, states[|steps|].tasks)
  {
    last := states[|steps|];
    InShape(b, states, steps, |steps|);
    if !Completed(b, last) {
      var step := ObedientStep(b, last, refusing);
      Extend(b, states, steps, step);
      last := Finish(b, states + [Apply(b, last, step)], steps + [step], refusing);
    }
  }

  lemma ObedientStep(b: Batch, st: State, refusing: set<Id>) returns (step: Step)
    requires Shape(b, st) && Obeys(st.tasks, refusing) && !Completed(b, st)
    ensures Enabled(b, st, step) && Obeys(Apply(b, st, step).tasks, refusing)
    ensures StepsLeft(b, Apply(b, st, step).tasks) < StepsLeft(b, st.tasks)
  {
    step :| Enabled(b, st, step);
    if step.Reply? {
      step := Reply(step.id, step.id !in refusing);
    }
    StepLowers(b, st, step);
    StaysObedient(b, st, step, refusing);
  }

  lemma StaysObedient(b: Batch, st: State, step: Step, refusing: set<Id>)
    requires Obeys(st.tasks, refusing) && Enabled(b, st, step) && (step.Reply? ==> (step.ok <==> step.id !in refusing))
    ensures Obeys(Apply(b, st, step).tasks, refusing)
  {
  }

  ghost function Start(b: Batch): (st: State)
    ensures Initial(b, st)
  {
    State(map id | id in Senders(b) :: Calling,
          seq(|b.replicas|, s requires 0 <= s < |b.replicas| => NewTracker(|b.replicas[s]|)),
          |b.replicas|, 0, [], None)
  }

  // -------------------------------------------------- waiting forever

  /** Some run ends with Push still waiting. */
  ghost predicate CanHang(b: Batch) {
    exists states: seq<State>, steps: seq<Step> ::
      IsRun(b, states, steps) && Completed(b, states[|steps|]) && states[|steps|].outcome.None?
  }

  ghost predicate HasDeadReplica(b: Batch) {
    exists s :: 0 <= s < |b.replicas| && !(SetOf(b.replicas[s]) <= b.live)
  }

  /** All samples have the same number of replicas, as they do when taken from one ring. */
  ghost predicate Uniform(b: Batch) {
    forall s, s' :: 0 <= s < |b.replicas| && 0 <= s' < |b.replicas| ==> |b.replicas[s]| == |b.replicas[s']|
  }

  /** With every replica of every sample live, a completed run has answered Push. */
  lemma AllLiveAnswers(b: Batch, states: seq<State>, steps: seq<Step>)
    requires ValidBatch(b) && !HasDeadReplica(b) && IsRun(b, states, steps) && Completed(b, states[|steps|])
    ensures states[|steps|].outcome.Some? && states[|steps|].sent == [states[|steps|].outcome.value]
  {
    RunKeeps(b, states, steps, |steps|);
    AllLiveDecides(b, states[|steps|]);
  }

  lemma AllLiveDecides(b: Batch, st: State)
    requires ValidBatch(b) && !HasDeadReplica(b) && Invariant(b, st) && Completed(b, st)
    ensures st.outcome.Some?
  {
    CompletedOutcome(b, st);
    forall s: nat | s < |st.samples| ensures Exceeds(st.samples[s]) || Reaches(st.samples[s]) {
      AllCounted(b, st, s);
    }
  }

  lemma AllCounted(b: Batch, st: State, s: nat)
    requires AllDistinct(b.replicas) && Shape(b, st) && Tallied(b, st) && Signals(st) && Completed(b, st)
    requires s < |b.replicas| && SetOf(b.replicas[s]) <= b.live
    ensures st.samples[s].succeeded + st.samples[s].failed == |b.replicas[s]|
  {
    CompletedVotes(b, st, s);
    VotesAreReplicas(b, st.tasks, s);
    DistinctSize(b.replicas[s]);
    assert SetOf(b.replicas[s]) * b.live == SetOf(b.replicas[s]);
  }

  /** The ingesters that must refuse for a sample with a dead replica to be left undecided. */
  lemma Refusers(b: Batch, s: nat) returns (refusing: set<Id>)
    requires ValidBatch(b) && s < |b.replicas| && !(SetOf(b.replicas[s]) <= b.live)
    ensures var n, live := |b.replicas[s]|, SetOf(b.replicas[s]) * b.live;
            refusing <= live && |refusing| == |live| - MinSuccess(n) + 1 && |refusing| <= MaxFailures(n)
  {
    var live := SetOf(b.replicas[s]) * b.live;
    DistinctSize(b.replicas[s]);
    SubsetSize(live, SetOf(b.replicas[s]));
    SubsetOfSize(live, |live| - MinSuccess(|b.replicas[s]|) + 1);
    refusing :| refusing <= live && |refusing| == |live| - MinSuccess(|b.replicas[s]|) + 1;
  }

  lemma DeadReplicaHangs(b: Batch, s: nat)
    requires ValidBatch(b) && Uniform(b) && s < |b.replicas| && !(SetOf(b.replicas[s]) <= b.live)
    ensures CanHang(b)
  {
    var refusing := Refusers(b, s);
    assert IsRun(b, [Start(b)], []);
    var st := Finish(b, [Start(b)], [], refusing);
    var states, steps :| IsRun(b, states, steps) && states[|steps|] == st && Completed(b, st) && Obeys(st.tasks, refusing);
    RunKeeps(b, states, steps, |steps|);
    LeftUndecided(b, st, s, refusing);
  }

  lemma LeftUndecided(b: Batch, st: State, s: nat, refusing: set<Id>)
    requires ValidBatch(b) && Uniform(b) && Invariant(b, st) && Completed(b, st) && Obeys(st.tasks, refusing)
    requires s < |b.replicas| && refusing <= SetOf(b.replicas[s]) * b.live && |refusing| <= MaxFailures(|b.replicas[s]|)
    requires |refusing| == |SetOf(b.replicas[s]) * b.live| - MinSuccess(|b.replicas[s]|) + 1
    ensures st.outcome.None?
  {
    CompletedOutcome(b, st);
    forall s': nat | s' < |st.samples| ensures !Exceeds(st.samples[s']) {
      FinalVotes(b, st, s', refusing);
      SubsetSize(Votes(b, st.tasks, false, s'), refusing);
    }
    FinalVotes(b, st, s, refusing);
    var live := SetOf(b.replicas[s]) * b.live;
    assert |live - refusing| == |live| - |refusing|;
    assert !Reaches(st.samples[s]);
    assert st.outcome.Some? ==> st.outcome.value == Done || st.outcome.value == Failed;
  }

  lemma FinalVotes(b: Batch, st: State, s: nat, refusing: set<Id>)
    requires Shape(b, st) && Signals(st) && Completed(b, st) && Obeys(st.tasks, refusing) && s < |b.replicas|
    ensures Votes(b, st.tasks, true, s) == SetOf(b.replicas[s]) * b.live - refusing
    ensures Votes(b, st.tasks, false, s) == SetOf(b.replicas[s]) * b.live * refusing
  {
    CompletedVotes(b, st, s);
    VotesAreReplicas(b, st.tasks, s);
    forall id | id in SetOf(b.replicas[s]) * b.live
      ensures id in Votes(b, st.tasks, true, s) <==> id !in refusing
      ensures id in Votes(b, st.tasks, false, s) <==> id in refusing
    {
      assert id in Votes(b, st.tasks, st.tasks[id].ok, s);
    }
  }

  /** Push can be left waiting forever exactly when some sample has a replica that is dead. */
  lemma HangsIff(b: Batch)
    requires ValidBatch(b) && Uniform(b)
    ensures CanHang(b) <==> HasDeadReplica(b)
  {
    if HasDeadReplica(b) {
      var s: nat :| s < |b.replicas| && !(SetOf(b.replicas[s]) <= b.live);
      DeadReplicaHangs(b, s);
    }
    if CanHang(b) && !HasDeadReplica(b) {
      var states: seq<State>, steps: seq<Step> :|
        IsRun(b, states, steps) && Completed(b, states[|steps|]) && states[|steps|].outcome.None?;
      AllLiveAnswers(b, states, steps);
    }
  }
}

/** The goroutines of a write: each sends to one ingester and counts the answer on its samples
    and on the batch, as interleaved atomic steps, and Push waits for one of two signals. */
module PushRun {
  import opened ByteStrings
  import opened Ring
  import opened Quorum
  import opened Push

  /** A batch that has been prepared: the replicas of every sample and the live ingesters. */
  datatype Batch = Batch(replicas: seq<seq<Id>>, live: set<Id>)

  ghost predicate ValidBatch(b: Batch) {
    && b.replicas != []
    && AllDistinct(b.replicas)
    && (forall s :: 0 <= s < |b.replicas| ==> !Hopeless(b.replicas[s], b.live))
  }

  function SamplesOf(b: Batch, id: Id): seq<nat> {
    Work(b.replicas, b.live, |b.replicas|, id)
  }

  /** The ingesters a goroutine is started for. */
  ghost function Senders(b: Batch): set<Id> {
    set id | id in b.live && SamplesOf(b, id) != []
  }

  /** Where the goroutine of one ingester is: waiting for the ingester, about to count its
      answer on a sample, about to count a sample that has been decided on the batch, or
      blocked in a channel send. */
  datatype Task =
    | Calling
    | AtSample(ok: bool, pos: nat)
    | AtBatch(ok: bool, pos: nat)
    | Sending(ok: bool, pos: nat)

  datatype Signal = Done | Failed

  datatype State = State(
    tasks: map<Id, Task>,
    samples: seq<Tracker>,
    samplesPending: int,
    samplesFailed: int,
    sent: seq<Signal>,
    outcome: Option<Signal>)

  ghost predicate Initial(b: Batch, st: State) {
    && st.tasks.Keys == Senders(b) && (forall id :: id in st.tasks ==> st.tasks[id] == Calling)
    && Fresh(b.replicas, |b.replicas|, st.samples)
    && st.samplesPending == |b.replicas| && st.samplesFailed == 0
    && st.sent == [] && st.outcome == None
  }

  /** The atomic steps of the goroutine of an ingester; in the last one Push receives the signal. */
  datatype Step =
    | Reply(id: Id, ok: bool)
    | CountSample(id: Id)
    | CountBatch(id: Id)
    | Deliver(id: Id)

  ghost predicate Enabled(b: Batch, st: State, step: Step) {
    && step.id in st.tasks
    && var t := st.tasks[step.id];
       match step
       case Reply(_, _) => t.Calling?
       case CountSample(id) => t.AtSample? && t.pos < |SamplesOf(b, id)| && SamplesOf(b, id)[t.pos] < |st.samples|
       case CountBatch(id) => t.AtBatch?
       case Deliver(id) => t.Sending? && st.outcome.None?
  }

  /** One answer counted on a sample. */
  function Counted(t: Tracker, ok: bool): Tracker {
    if ok then t.(succeeded := t.succeeded + 1) else t.(failed := t.failed + 1)
  }

  /** The count that was just made goes on to the batch: the success that completes the quorum,
      or any failure beyond those allowed. */
  predicate Decides(t: Tracker, ok: bool) {
    if ok then t.succeeded == t.minSuccess else t.failed > t.maxFailures
  }

  ghost function Apply(b: Batch, st: State, step: Step): State
    requires Enabled(b, st, step)
  {
    var id, t := step.id, st.tasks[step.id];
    match step
    case Reply(_, ok) => st.(tasks := st.tasks[id := AtSample(ok, 0)])
    case CountSample(_) =>
      var s := SamplesOf(b, id)[t.pos];
      var tr := Counted(st.samples[s], t.ok);
      st.(samples := st.samples[s := tr],
          tasks := st.tasks[id := if Decides(tr, t.ok) then AtBatch(t.ok, t.pos) else AtSample(t.ok, t.pos + 1)])
    case CountBatch(_) =>
      if t.ok then
        var after := st.(samplesPending := st.samplesPending - 1);
        if after.samplesPending == 0 then after.(tasks := st.tasks[id := Sending(t.ok, t.pos)], sent := st.sent + [Done])
        else after.(tasks := st.tasks[id := AtSample(t.ok, t.pos + 1)])
      else
        var after := st.(samplesFailed := st.samplesFailed + 1);
        if after.samplesFailed == 1 then after.(tasks := st.tasks[id := Sending(t.ok, t.pos)], sent := st.sent + [Failed])
        else after.(tasks := st.tasks[id := AtSample(t.ok, t.pos + 1)])
    case Deliver(_) =>
      st.(tasks := st.tasks[id := AtSample(t.ok, t.pos + 1)], outcome := Some(if t.ok then Done else Failed))
  }

  /** A run: the states, and the steps between them, in any interleaving. */
  ghost predicate IsRun(b: Batch, states: seq<State>, steps: seq<Step>) {
    && |states| == |steps| + 1 && Initial(b, states[0])
    && forall k :: 0 <= k < |steps| ==> Enabled(b, states[k], steps[k]) && states[k + 1] == Apply(b, states[k], steps[k])
  }

  // -------------------------------------------------- what every step keeps

  /** How many of its samples a goroutine has counted its answer on. */
  function Reached(t: Task): nat {
    match t
    case Calling => 0
    case AtSample(_, pos) => pos
    case AtBatch(_, pos) => pos + 1
    case Sending(_, pos) => pos + 1
  }

  /** The goroutine has counted the answer `ok` on sample `s`. */
  predicate HasCounted(b: Batch, id: Id, t: Task, ok: bool, s: nat) {
    && !t.Calling? && t.ok == ok
    && exists k :: 0 <= k < Reached(t) && k < |SamplesOf(b, id)| && SamplesOf(b, id)[k] == s
  }

  /** The ingesters whose answer `ok` has been counted on a sample. */
  ghost function Votes(b: Batch, tasks: map<Id, Task>, ok: bool, s: nat): set<Id> {
    set id | id in tasks && HasCounted(b, id, tasks[id], ok, s)
  }

  /** The goroutine of `id` is about to count sample `s` as decided. */
  predicate Deciding(b: Batch, tasks: map<Id, Task>, id: Id, ok: bool, s: nat) {
    && id in tasks && tasks[id].AtBatch? && tasks[id].ok == ok
    && tasks[id].pos < |SamplesOf(b, id)| && SamplesOf(b, id)[tasks[id].pos] == s
  }

  ghost predicate BeingDecided(b: Batch, tasks: map<Id, Task>, ok: bool, s: nat) {
    exists id :: Deciding(b, tasks, id, ok, s)
  }

  ghost predicate Shape(b: Batch, st: State) {
    && st.tasks.Keys == Senders(b) && |st.samples| == |b.replicas|
    && (forall id :: id in st.tasks ==> TaskShape(|SamplesOf(b, id)|, st.tasks[id]))
    && (forall s :: 0 <= s < |st.samples| ==>
          && st.samples[s].minSuccess == MinSuccess(|b.replicas[s]|)
          && st.samples[s].maxFailures == MaxFailures(|b.replicas[s]|))
  }

  predicate TaskShape(n: nat, t: Task) {
    match t
    case Calling => true
    case AtSample(_, pos) => pos <= n
    case AtBatch(_, pos) => pos < n
    case Sending(_, pos) => pos < n
  }

  /** The counters of every sample say how many ingesters have been counted. */
  ghost predicate Tallied(b: Batch, st: State) {
    forall s :: 0 <= s < |st.samples| ==>
      && st.samples[s].succeeded == |Votes(b, st.tasks, true, s)|
      && st.samples[s].failed == |Votes(b, st.tasks, false, s)|
  }

  /** The samples whose quorum has been counted on the batch. */
  ghost function Credited(b: Batch, st: State): set<nat> {
    set s: nat | s < |st.samples| && Reaches(st.samples[s]) && !BeingDecided(b, st.tasks, true, s)
  }

  predicate Reaches(t: Tracker) {
    t.succeeded >= t.minSuccess
  }

  predicate Exceeds(t: Tracker) {
    t.failed > t.maxFailures
  }

  ghost predicate SuccessesCount(b: Batch, st: State) {
    && (forall id, s: nat :: Deciding(b, st.tasks, id, true, s) && s < |st.samples| ==> Reaches(st.samples[s]))
    && (forall id, id', s: nat :: Deciding(b, st.tasks, id, true, s) && Deciding(b, st.tasks, id', true, s) ==> id == id')
    && st.samplesPending == |st.samples| - |Credited(b, st)|
  }

  ghost predicate FailuresCount(b: Batch, st: State) {
    && st.samplesFailed >= 0
    && (forall id, s: nat :: Deciding(b, st.tasks, id, false, s) && s < |st.samples| ==> Exceeds(st.samples[s]))
    && (st.samplesFailed > 0 ==> SomeExceeds(st))
    && (SomeExceeds(st) ==> st.samplesFailed > 0 || exists id, s: nat :: Deciding(b, st.tasks, id, false, s))
  }

  ghost predicate SomeExceeds(st: State) {
    exists s :: 0 <= s < |st.samples| && Exceeds(st.samples[s])
  }

  ghost predicate Signals(st: State) {
    && |st.sent| <= 1
    && (Done in st.sent <==> st.samplesPending == 0)
    && (Failed in st.sent <==> st.samplesFailed > 0)
    && (st.outcome.Some? ==> st.sent == [st.outcome.value])
    && (forall id :: id in st.tasks && st.tasks[id].Sending? ==>
          st.outcome.None? && st.sent == [if st.tasks[id].ok then Done else Failed])
    && (st.outcome.None? && st.sent != [] ==> exists id :: id in st.tasks && st.tasks[id].Sending?)
    && (forall id, id' :: id in st.tasks && id' in st.tasks && st.tasks[id].Sending? && st.tasks[id'].Sending? ==> id == id')
  }

  ghost predicate Invariant(b: Batch, st: State) {
    Shape(b, st) && Tallied(b, st) && SuccessesCount(b, st) && FailuresCount(b, st) && Signals(st)
  }

  lemma InitialHolds(b: Batch, st: State)
    requires ValidBatch(b) && Initial(b, st)
    ensures Invariant(b, st)
  {
    forall s: nat, ok ensures Votes(b, st.tasks, ok, s) == {} {
    }
    assert Credited(b, st) == {};
  }

  /** Moving on without counting leaves the votes alone. */
  lemma SameVotes(b: Batch, tasks: map<Id, Task>, id: Id, t: Task)
    requires id in tasks && !t.Calling? && Reached(t) == Reached(tasks[id])
    requires tasks[id].Calling? || tasks[id].ok == t.ok
    ensures forall ok, s: nat :: Votes(b, tasks[id := t], ok, s) == Votes(b, tasks, ok, s)
  {
    forall ok, s: nat, x ensures x in Votes(b, tasks[id := t], ok, s) <==> x in Votes(b, tasks, ok, s) {
    }
  }

  /** Counting on a sample adds one vote to it. */
  lemma MoreVotes(b: Batch, tasks: map<Id, Task>, id: Id, t: Task)
    requires id in tasks && tasks[id].AtSample? && tasks[id].pos < |SamplesOf(b, id)|
    requires !t.Calling? && t.ok == tasks[id].ok && Reached(t) == tasks[id].pos + 1
    ensures forall ok, s: nat :: Votes(b, tasks[id := t], ok, s) ==
              if ok == t.ok && s == SamplesOf(b, id)[tasks[id].pos] then Votes(b, tasks, ok, s) + {id} else Votes(b, tasks, ok, s)
    ensures id !in Votes(b, tasks, t.ok, SamplesOf(b, id)[tasks[id].pos])
  {
    var pos := tasks[id].pos;
    var w := SamplesOf(b, id);
    WorkMembers(b.replicas, b.live, |b.replicas|, id);
    forall ok, s: nat
      ensures HasCounted(b, id, t, ok, s) <==> HasCounted(b, id, tasks[id], ok, s) || (ok == t.ok && s == w[pos])
    {
      if ok == t.ok && s == w[pos] {
        assert w[pos] == s && pos < Reached(t);
      }
    }
    assert !HasCounted(b, id, tasks[id], t.ok, w[pos]);
    forall ok, s: nat
      ensures Votes(b, tasks[id := t], ok, s) ==
              if ok == t.ok && s == w[pos] then Votes(b, tasks, ok, s) + {id} else Votes(b, tasks, ok, s)
    {
    }
  }

  /** When a goroutine that is not deciding moves on, what it may be deciding then is added. */
  lemma DecidesNow(b: Batch, tasks: map<Id, Task>, id: Id, t: Task)
    requires id in tasks && !tasks[id].AtBatch?
    ensures forall ok, s: nat :: BeingDecided(b, tasks[id := t], ok, s) <==>
              BeingDecided(b, tasks, ok, s) || Deciding(b, tasks[id := t], id, ok, s)
  {
    forall x, ok, s: nat | x != id ensures Deciding(b, tasks[id := t], x, ok, s) <==> Deciding(b, tasks, x, ok, s) {
    }
    forall ok, s: nat
      ensures BeingDecided(b, tasks[id := t], ok, s) <==> BeingDecided(b, tasks, ok, s) || Deciding(b, tasks[id := t], id, ok, s)
    {
      if BeingDecided(b, tasks, ok, s) {
        var x :| Deciding(b, tasks, x, ok, s);
        assert Deciding(b, tasks[id := t], x, ok, s);
      }
      if BeingDecided(b, tasks[id := t], ok, s) {
        var x :| Deciding(b, tasks[id := t], x, ok, s);
        assert x == id || Deciding(b, tasks, x, ok, s);
      }
    }
  }

  lemma CountSampleKeepsCredits(b: Batch, st: State, id: Id)
    requires Shape(b, st) && SuccessesCount(b, st) && Enabled(b, st, CountSample(id))
    ensures Credited(b, Apply(b, st, CountSample(id))) == Credited(b, st)
  {
    var st' := Apply(b, st, CountSample(id));
    var t := st.tasks[id];
    var s0 := SamplesOf(b, id)[t.pos];
    DecidesNow(b, st.tasks, id, st'.tasks[id]);
    forall s: nat | s < |st.samples| ensures s in Credited(b, st') <==> s in Credited(b, st) {
      if s == s0 && t.ok && st'.tasks[id].AtBatch? {
        assert Deciding(b, st'.tasks, id, true, s0);
      } else {
        assert !Deciding(b, st'.tasks, id, true, s);
      }
    }
  }

  lemma CountSampleKeepsSuccesses(b: Batch, st: State, id: Id)
    requires Shape(b, st) && SuccessesCount(b, st) && Enabled(b, st, CountSample(id))
    ensures SuccessesCount(b, Apply(b, st, CountSample(id)))
  {
    CountSampleKeepsCredits(b, st, id);
    var st' := Apply(b, st, CountSample(id));
    forall x, s: nat | x != id && Deciding(b, st'.tasks, x, true, s) ensures Deciding(b, st.tasks, x, true, s) {
    }
  }

  lemma CountSampleKeeps(b: Batch, st: State, id: Id)
    requires Invariant(b, st) && Enabled(b, st, CountSample(id))
    ensures Invariant(b, Apply(b, st, CountSample(id)))
  {
    CountSampleKeepsSuccesses(b, st, id);
    CountSampleKeepsTally(b, st, id);
    CountSampleKeepsFailures(b, st, id);
    CountSampleKeepsSignals(b, st, id);
  }

  lemma CountSampleKeepsSignals(b: Batch, st: State, id: Id)
    requires Signals(st) && Enabled(b, st, CountSample(id))
    ensures Signals(Apply(b, st, CountSample(id)))
  {
    var st' := Apply(b, st, CountSample(id));
    NotSending(st, id, st'.tasks[id], st');
  }

  lemma CountSampleKeepsTally(b: Batch, st: State, id: Id)
    requires Shape(b, st) && Tallied(b, st) && Enabled(b, st, CountSample(id))
    ensures Shape(b, Apply(b, st, CountSample(id))) && Tallied(b, Apply(b, st, CountSample(id)))
  {
    var st' := Apply(b, st, CountSample(id));
    var t := st.tasks[id];
    var s0 := SamplesOf(b, id)[t.pos];
    MoreVotes(b, st.tasks, id, st'.tasks[id]);
    forall s: nat | s < |st.samples|
      ensures st'.samples[s].succeeded == |Votes(b, st'.tasks, true, s)| && st'.samples[s].failed == |Votes(b, st'.tasks, false, s)|
    {
      TallyOne(b, st, s, s0, t.ok, st'.tasks, id);
    }
  }

  lemma TallyOne(b: Batch, st: State, s: nat, s0: nat, ok: bool, tasks: map<Id, Task>, id: Id)
    requires s < |st.samples| && Tallied(b, st)
    requires forall o :: Votes(b, tasks, o, s) == if o == ok && s == s0 then Votes(b, st.tasks, o, s) + {id} else Votes(b, st.tasks, o, s)
    requires id !in Votes(b, st.tasks, ok, s0)
    ensures var tr := if s == s0 then Counted(st.samples[s], ok) else st.samples[s];
            tr.succeeded == |Votes(b, tasks, true, s)| && tr.failed == |Votes(b, tasks, false, s)|
  {
  }

  /** A goroutine that does not send leaves the signals alone. */
  lemma NotSending(st: State, id: Id, t: Task, st': State)
    requires Signals(st) && id in st.tasks && !st.tasks[id].Sending? && !t.Sending?
    requires st'.tasks == st.tasks[id := t] && st'.sent == st.sent && st'.outcome == st.outcome
    requires st'.samplesPending == 0 <==> st.samplesPending == 0
    requires st'.samplesFailed > 0 <==> st.samplesFailed > 0
    ensures Signals(st')
  {
    if st.outcome.None? && st.sent != [] {
      var x :| x in st.tasks && st.tasks[x].Sending?;
      assert st'.tasks[x].Sending?;
    }
  }

  lemma CountSampleKeepsFailures(b: Batch, st: State, id: Id)
    requires Shape(b, st) && FailuresCount(b, st) && Enabled(b, st, CountSample(id))
    ensures FailuresCount(b, Apply(b, st, CountSample(id)))
  {
    var st' := Apply(b, st, CountSample(id));
    var s0 := SamplesOf(b, id)[st.tasks[id].pos];
    forall x, s: nat | x != id ensures Deciding(b, st'.tasks, x, false, s) <==> Deciding(b, st.tasks, x, false, s) {
    }
    forall s | 0 <= s < |st.samples| && Exceeds(st.samples[s]) ensures Exceeds(st'.samples[s]) {
    }
    if SomeExceeds(st') && !SomeExceeds(st) {
      assert Exceeds(st'.samples[s0]);
      assert Deciding(b, st'.tasks, id, false, s0);
    }
  }

  lemma ReplyKeeps(b: Batch, st: State, id: Id, ok: bool)
    requires Invariant(b, st) && Enabled(b, st, Reply(id, ok))
    ensures Invariant(b, Apply(b, st, Reply(id, ok)))
  {
    var st' := Apply(b, st, Reply(id, ok));
    MovesOn(b, st, id, AtSample(ok, 0), st');
    NotSending(st, id, AtSample(ok, 0), st');
  }

  lemma DeliverKeeps(b: Batch, st: State, id: Id)
    requires Invariant(b, st) && Enabled(b, st, Deliver(id))
    ensures Invariant(b, Apply(b, st, Deliver(id)))
  {
    var st' := Apply(b, st, Deliver(id));
    MovesOn(b, st, id, st'.tasks[id], st');
  }

  /** A goroutine that neither counts nor decides changes no count. */
  lemma MovesOn(b: Batch, st: State, id: Id, t: Task, st': State)
    requires Invariant(b, st) && id in st.tasks && !st.tasks[id].AtBatch? && t.AtSample?
    requires Reached(t) == Reached(st.tasks[id]) && (st.tasks[id].Calling? || st.tasks[id].ok == t.ok)
    requires TaskShape(|SamplesOf(b, id)|, t)
    requires st'.tasks == st.tasks[id := t] && st'.samples == st.samples
    requires st'.samplesPending == st.samplesPending && st'.samplesFailed == st.samplesFailed
    ensures Shape(b, st') && Tallied(b, st') && SuccessesCount(b, st') && FailuresCount(b, st')
  {
    SameVotes(b, st.tasks, id, t);
    DecidesNow(b, st.tasks, id, t);
    assert Credited(b, st') == Credited(b, st);
    forall x, ok, s: nat ensures Deciding(b, st'.tasks, x, ok, s) <==> Deciding(b, st.tasks, x, ok, s) {
    }
  }

  // -------------------------------------------------- counting a sample that is decided

  /** No sample is pending when every one has its quorum and no goroutine is about to say so. */
  lemma NonePending(b: Batch, st: State)
    requires SuccessesCount(b, st)
    ensures st.samplesPending >= 0
    ensures st.samplesPending == 0 <==> forall s: nat :: s < |st.samples| ==> s in Credited(b, st)
  {
    SubsetSize(Credited(b, st), Below(|st.samples|));
    if forall s: nat :: s < |st.samples| ==> s in Credited(b, st) {
      assert Credited(b, st) == Below(|st.samples|);
    }
  }

  lemma VotesAreReplicas(b: Batch, tasks: map<Id, Task>, s: nat)
    requires s < |b.replicas|
    ensures Votes(b, tasks, true, s) + Votes(b, tasks, false, s) <= SetOf(b.replicas[s]) * b.live
    ensures Votes(b, tasks, true, s) !! Votes(b, tasks, false, s)
  {
    forall id, ok | id in Votes(b, tasks, ok, s) ensures id in SetOf(b.replicas[s]) * b.live {
      WorkMembers(b.replicas, b.live, |b.replicas|, id);
      assert s in SamplesOf(b, id);
    }
  }

  /** A sample cannot both reach its quorum and fail. */
  lemma NotBoth(b: Batch, st: State, s: nat)
    requires ValidBatch(b) && Shape(b, st) && Tallied(b, st) && s < |st.samples|
    ensures !(Reaches(st.samples[s]) && Exceeds(st.samples[s]))
  {
    var yes, no := Votes(b, st.tasks, true, s), Votes(b, st.tasks, false, s);
    VotesAreReplicas(b, st.tasks, s);
    SubsetSize(yes + no, SetOf(b.replicas[s]));
    DistinctSize(b.replicas[s]);
    assert |yes + no| == |yes| + |no|;
  }

  /** The goroutine `id` that was deciding sample `s0` moves on. */
  lemma NoLongerDeciding(b: Batch, st: State, id: Id, ok: bool, s0: nat, t: Task, tasks: map<Id, Task>)
    requires SuccessesCount(b, st) && Deciding(b, st.tasks, id, ok, s0) && !t.AtBatch? && tasks == st.tasks[id := t]
    ensures forall x, o, s: nat :: Deciding(b, tasks, x, o, s) <==> x != id && Deciding(b, st.tasks, x, o, s)
    ensures forall o, s: nat :: o != ok || s != s0 ==> (BeingDecided(b, tasks, o, s) <==> BeingDecided(b, st.tasks, o, s))
    ensures ok ==> !BeingDecided(b, tasks, true, s0)
  {
    forall x, o, s: nat ensures Deciding(b, tasks, x, o, s) <==> x != id && Deciding(b, st.tasks, x, o, s) {
    }
    forall o, s: nat | o != ok || s != s0 ensures BeingDecided(b, tasks, o, s) <==> BeingDecided(b, st.tasks, o, s) {
      if BeingDecided(b, st.tasks, o, s) {
        var x :| Deciding(b, st.tasks, x, o, s);
        assert Deciding(b, tasks, x, o, s);
      }
    }
  }

  lemma CountSuccessKeeps(b: Batch, st: State, id: Id, s0: nat)
    requires Shape(b, st) && SuccessesCount(b, st)
    requires Enabled(b, st, CountBatch(id)) && st.tasks[id].ok && Deciding(b, st.tasks, id, true, s0)
    ensures SuccessesCount(b, Apply(b, st, CountBatch(id)))
  {
    var st' := Apply(b, st, CountBatch(id));
    NoLongerDeciding(b, st, id, st.tasks[id].ok, s0, st'.tasks[id], st'.tasks);
    WorkMembers(b.replicas, b.live, |b.replicas|, id);
    assert s0 in SamplesOf(b, id);
    assert BeingDecided(b, st.tasks, true, s0);
    assert Credited(b, st') == Credited(b, st) + {s0};
  }

  lemma CountFailureKeeps(b: Batch, st: State, id: Id, s0: nat)
    requires Shape(b, st) && SuccessesCount(b, st)
    requires Enabled(b, st, CountBatch(id)) && !st.tasks[id].ok && Deciding(b, st.tasks, id, false, s0)
    ensures SuccessesCount(b, Apply(b, st, CountBatch(id)))
  {
    var st' := Apply(b, st, CountBatch(id));
    NoLongerDeciding(b, st, id, st.tasks[id].ok, s0, st'.tasks[id], st'.tasks);
    assert Credited(b, st') == Credited(b, st);
  }

  lemma CountBatchKeepsTally(b: Batch, st: State, id: Id)
    requires Shape(b, st) && Tallied(b, st) && Enabled(b, st, CountBatch(id))
    ensures Shape(b, Apply(b, st, CountBatch(id))) && Tallied(b, Apply(b, st, CountBatch(id)))
  {
    var st' := Apply(b, st, CountBatch(id));
    SameVotes(b, st.tasks, id, st'.tasks[id]);
    assert st'.tasks == st.tasks[id := st'.tasks[id]];
  }

  lemma CountBatchKeepsFailures(b: Batch, st: State, id: Id, s0: nat)
    requires Shape(b, st) && FailuresCount(b, st) && s0 < |st.samples|
    requires Enabled(b, st, CountBatch(id)) && Deciding(b, st.tasks, id, st.tasks[id].ok, s0)
    ensures FailuresCount(b, Apply(b, st, CountBatch(id)))
  {
    var st' := Apply(b, st, CountBatch(id));
    forall x, o, s: nat ensures Deciding(b, st'.tasks, x, o, s) <==> x != id && Deciding(b, st.tasks, x, o, s) {
    }
    assert SomeExceeds(st') <==> SomeExceeds(st);
  }

  lemma SomeSignal(sent: seq<Signal>)
    ensures sent == [] || Done in sent || Failed in sent
  {
    if sent != [] {
      assert sent[0] == Done || sent[0] == Failed;
    }
  }

  lemma CountBatchKeepsSignals(b: Batch, st: State, id: Id)
    requires Signals(st) && Enabled(b, st, CountBatch(id)) && st.samplesPending >= 0 && st.samplesFailed >= 0
    requires st.tasks[id].ok ==> st.samplesPending > 0 && (st.samplesPending == 1 ==> st.samplesFailed == 0)
    requires !st.tasks[id].ok ==> st.samplesPending != 0
    ensures Signals(Apply(b, st, CountBatch(id)))
  {
    var st' := Apply(b, st, CountBatch(id));
    if !st'.tasks[id].Sending? {
      NotSending(st, id, st'.tasks[id], st');
    } else {
      SomeSignal(st.sent);
      assert st.sent == [];
      assert st'.tasks[id].Sending?;
    }
  }

  lemma CountBatchKeeps(b: Batch, st: State, id: Id)
    requires ValidBatch(b) && Invariant(b, st) && Enabled(b, st, CountBatch(id))
    ensures Invariant(b, Apply(b, st, CountBatch(id)))
  {
    var s0 := SamplesOf(b, id)[st.tasks[id].pos];
    WorkMembers(b.replicas, b.live, |b.replicas|, id);
    assert s0 in SamplesOf(b, id);
    CountBatchKeepsTally(b, st, id);
    CountBatchKeepsFailures(b, st, id, s0);
    if st.tasks[id].ok {
      CountSuccessKeeps(b, st, id, s0);
      CountSuccessSignals(b, st, id, s0);
    } else {
      CountFailureKeeps(b, st, id, s0);
      CountFailureSignals(b, st, id, s0);
    }
  }

  lemma CountSuccessSignals(b: Batch, st: State, id: Id, s0: nat)
    requires ValidBatch(b) && Shape(b, st) && SuccessesCount(b, st) && Signals(st) && st.samplesFailed >= 0
    requires Enabled(b, st, CountBatch(id)) && st.tasks[id].ok && Deciding(b, st.tasks, id, true, s0) && s0 < |st.samples|
    requires var st' := Apply(b, st, CountBatch(id));
             Shape(b, st') && Tallied(b, st') && SuccessesCount(b, st') && FailuresCount(b, st')
    ensures Signals(Apply(b, st, CountBatch(id)))
  {
    var st' := Apply(b, st, CountBatch(id));
    NonePending(b, st);
    assert BeingDecided(b, st.tasks, true, s0);
    assert s0 !in Credited(b, st);
    if st.samplesPending == 1 {
      NonePending(b, st');
      NoneFails(b, st');
    }
    CountBatchKeepsSignals(b, st, id);
  }

  lemma CountFailureSignals(b: Batch, st: State, id: Id, s0: nat)
    requires ValidBatch(b) && Invariant(b, st)
    requires Enabled(b, st, CountBatch(id)) && !st.tasks[id].ok && Deciding(b, st.tasks, id, false, s0) && s0 < |st.samples|
    ensures Signals(Apply(b, st, CountBatch(id)))
  {
    NonePending(b, st);
    NotBoth(b, st, s0);
    assert s0 !in Credited(b, st);
    CountBatchKeepsSignals(b, st, id);
  }

  lemma NoneFails(b: Batch, st: State)
    requires ValidBatch(b) && Shape(b, st) && Tallied(b, st) && FailuresCount(b, st)
    requires forall s: nat :: s < |st.samples| ==> s in Credited(b, st)
    ensures st.samplesFailed == 0
  {
    if st.samplesFailed > 0 {
      var s: nat :| s < |st.samples| && Exceeds(st.samples[s]);
      assert s in Credited(b, st);
      NotBoth(b, st, s);
    }
  }

  lemma StepKeeps(b: Batch, st: State, step: Step)
    requires ValidBatch(b) && Invariant(b, st) && Enabled(b, st, step)
    ensures Invariant(b, Apply(b, st, step))
  {
    match step
    case Reply(id, ok) => ReplyKeeps(b, st, id, ok);
    case CountSample(id) => CountSampleKeeps(b, st, id);
    case CountBatch(id) => CountBatchKeeps(b, st, id);
    case Deliver(id) => DeliverKeeps(b, st, id);
  }

  lemma {:induction false} RunKeeps(b: Batch, states: seq<State>, steps: seq<Step>, k: nat)
    requires ValidBatch(b) && IsRun(b, states, steps) && k < |states|
    ensures Invariant(b, states[k])
  {
    if k == 0 {
      InitialHolds(b, states[0]);
    } else {
      RunKeeps(b, states, steps, k - 1);
      StepKeeps(b, states[k - 1], steps[k - 1]);
    }
  }

  // -------------------------------------------------- what every run does

  /** In every interleaving, at every moment: at most one signal has been sent in all; `done`
      only when a quorum of the replicas of every sample took it, `err` only when more replicas
      of some sample refused it than may, and Push returns nothing but what was sent. */
  lemma SignalsAreRight(b: Batch, states: seq<State>, steps: seq<Step>, k: nat)
    requires ValidBatch(b) && IsRun(b, states, steps) && k < |states|
    ensures var st := states[k];
            && |st.sent| <= 1 && (st.outcome.Some? ==> st.sent == [st.outcome.value])
            && (Done in st.sent ==> forall s: nat :: s < |b.replicas| ==>
                  IsQuorum(SetOf(b.replicas[s]), Votes(b, st.tasks, true, s)))
            && (Failed in st.sent ==>
                  exists s: nat :: s < |b.replicas| && |Votes(b, st.tasks, false, s)| > MaxFailures(|b.replicas[s]|))
  {
    var st := states[k];
    RunKeeps(b, states, steps, k);
    NonePending(b, st);
    if Done in st.sent {
      forall s: nat | s < |b.replicas| ensures IsQuorum(SetOf(b.replicas[s]), Votes(b, st.tasks, true, s)) {
        assert s in Credited(b, st);
        VotesAreReplicas(b, st.tasks, s);
        DistinctSize(b.replicas[s]);
      }
    }
    if Failed in st.sent {
      var s: nat :| s < |st.samples| && Exceeds(st.samples[s]);
      assert |Votes(b, st.tasks, false, s)| > MaxFailures(|b.replicas[s]|);
    }
  }

  /** No goroutine can move any more. */
  ghost predicate Completed(b: Batch, st: State) {
    forall step :: !Enabled(b, st, step)
  }

  /** A completed goroutine has been through all its samples. */
  lemma CompletedTasks(b: Batch, st: State, id: Id)
    requires Shape(b, st) && Signals(st) && Completed(b, st) && id in st.tasks
    ensures st.tasks[id].AtSample? && st.tasks[id].pos == |SamplesOf(b, id)|
  {
    assert !Enabled(b, st, Reply(id, true));
    assert !Enabled(b, st, CountSample(id));
    assert !Enabled(b, st, CountBatch(id));
    assert !Enabled(b, st, Deliver(id));
    WorkMembers(b.replicas, b.live, |b.replicas|, id);
    var w := SamplesOf(b, id);
    assert forall k :: 0 <= k < |w| ==> w[k] in w;
  }

  /** In a completed run every live replica of a sample has been counted on it. */
  lemma CompletedVotes(b: Batch, st: State, s: nat)
    requires Shape(b, st) && Signals(st) && Completed(b, st) && s < |b.replicas|
    ensures Votes(b, st.tasks, true, s) + Votes(b, st.tasks, false, s) == SetOf(b.replicas[s]) * b.live
    ensures forall id :: id in SetOf(b.replicas[s]) * b.live ==>
              id in st.tasks && !st.tasks[id].Calling? && id in Votes(b, st.tasks, st.tasks[id].ok, s)
  {
    VotesAreReplicas(b, st.tasks, s);
    forall id | id in SetOf(b.replicas[s]) * b.live
      ensures id in st.tasks && !st.tasks[id].Calling? && id in Votes(b, st.tasks, st.tasks[id].ok, s)
    {
      WorkMembers(b.replicas, b.live, |b.replicas|, id);
      var w := SamplesOf(b, id);
      assert s in w;
      var k :| 0 <= k < |w| && w[k] == s;
      CompletedTasks(b, st, id);
      assert HasCounted(b, id, st.tasks[id], st.tasks[id].ok, s);
    }
  }

  /** What a completed run returns: success exactly when every sample has its quorum, an error
      exactly when some sample failed, and nothing at all (Push waits forever) otherwise. */
  lemma CompletedOutcome(b: Batch, st: State)
    requires ValidBatch(b) && Invariant(b, st) && Completed(b, st)
    ensures st.outcome == Some(Done) <==> forall s: nat :: s < |st.samples| ==> Reaches(st.samples[s])
    ensures st.outcome == Some(Failed) <==> SomeExceeds(st)
  {
    forall id, ok, s: nat ensures !Deciding(b, st.tasks, id, ok, s) {
      if id in st.tasks {
        CompletedTasks(b, st, id);
      }
    }
    forall ok, s: nat ensures !BeingDecided(b, st.tasks, ok, s) {
    }
    forall s: nat | s < |st.samples| ensures s in Credited(b, st) <==> Reaches(st.samples[s]) {
      assert !BeingDecided(b, st.tasks, true, s);
    }
    NonePending(b, st);
    SomeSignal(st.sent);
    if st.outcome.None? && st.sent != [] {
      var id :| id in st.tasks && st.tasks[id].Sending?;
      CompletedTasks(b, st, id);
      assert false;
    }
  }
}
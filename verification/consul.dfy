/** The key-value store behind the ring, and any number of clients that change its keys through
    the optimistic compare-and-swap loop, as interleaved atomic steps. */
module Consul {
  import opened ByteStrings

  // -------------------------------------------------- the store

  /** The name of a key, or an encoded value. */
  datatype Blob = Blob(bytes: Bytes)

  datatype Pair = Pair(value: Blob, createIndex: nat, modifyIndex: nat)

  /** The pairs, and the current index in the log. */
  datatype Store = Store(kvps: map<Blob, Pair>, current: nat)

  function Lookup(s: Store, key: Blob): Option<Pair> {
    if key in s.kvps then Some(s.kvps[key]) else None
  }

  /** Writes a value under the next index; the create index stays. */
  function Written(s: Store, key: Blob, value: Blob): Store {
    var next := s.current + 1;
    var created := if key in s.kvps then s.kvps[key].createIndex else next;
    Store(s.kvps[key := Pair(value, created, next)], next)
  }

  /** A compare-and-swap goes through unless the key is there with another index. */
  predicate Swaps(s: Store, key: Blob, index: nat) {
    key in s.kvps ==> s.kvps[key].modifyIndex == index
  }

  class MockKV {
    var kvps: map<Blob, Pair>
    var current: nat

    constructor ()
      ensures Contents() == Store(map[], 0)
    {
      kvps, current := map[], 0;
    }

    ghost function Contents(): Store
      reads this
    {
      Store(kvps, current)
    }

    method Put(key: Blob, value: Blob)
      modifies this
      ensures Contents() == Written(old(Contents()), key, value)
    {
      current := current + 1;
      if key in kvps {
        kvps := kvps[key := kvps[key].(value := value, modifyIndex := current)];
      } else {
        kvps := kvps[key := Pair(value, current, current)];
      }
    }

    method CAS(key: Blob, value: Blob, index: nat) returns (ok: bool)
      modifies this
      ensures ok == Swaps(old(Contents()), key, index)
      ensures Contents() == if ok then Written(old(Contents()), key, value) else old(Contents())
    {
      if key in kvps && kvps[key].modifyIndex != index {
        return false;
      }
      current := current + 1;
      if key in kvps {
        kvps := kvps[key := kvps[key].(value := value, modifyIndex := current)];
      } else {
        kvps := kvps[key := Pair(value, current, current)];
      }
      ok := true;
    }

    method Get(key: Blob) returns (r: Option<Pair>)
      ensures r == Lookup(Contents(), key)
    {
      if key !in kvps {
        return None;
      }
      r := Some(kvps[key]);
    }
  }

  // -------------------------------------------------- the clients

  const RETRIES: nat := 10

  /** What a callback answers: a new value, nil, or an error that may be retried. */
  datatype Answer<V> = NewValue(value: V) | Nil | Failure(retry: bool)

  /** The codec, and for every call its key and its callback. A callback may answer differently
      in each attempt. */
  datatype Setup<!V> = Setup(
    encode: V -> Option<Blob>,
    decode: Blob -> Option<V>,
    key: nat -> Blob,
    callback: (nat, nat, Option<V>) -> Answer<V>)

  datatype Result = Success | GaveUp | CallbackError | Panicked

  /** A call is about to read, or about to swap in a value that it computed from the value it
      has seen, or has returned. */
  datatype Call =
    | Reading(attempt: nat, index: nat)
    | Swapping(attempt: nat, index: nat, seen: Option<Blob>, value: Blob)
    | Returned(result: Result)

  /** A write that took effect: by which call in which attempt, or by someone else. */
  datatype Commit = Commit(key: Blob, author: Option<nat>, attempt: nat, value: Blob)

  /** The store, the calls, the writes so far, and for every call how many writes of its took
      effect although it was told of an error. */
  datatype State = State(store: Store, calls: seq<Call>, log: seq<Commit>, hidden: seq<nat>)

  predicate Initial(st: State) {
    && st.store == Store(map[], 0) && st.log == [] && |st.hidden| == |st.calls|
    && (forall c :: 0 <= c < |st.calls| ==> st.calls[c] == Reading(0, 0) && st.hidden[c] == 0)
  }

  function NextAttempt(attempt: nat, index: nat): Call {
    if attempt + 1 < RETRIES then Reading(attempt + 1, index) else Returned(GaveUp)
  }

  /** The value a call computes from what it has read, if every stage succeeds. */
  function Computed<V>(su: Setup<V>, c: nat, attempt: nat, seen: Option<Blob>): Option<Blob> {
    if seen.Some? && su.decode(seen.value).None? then None
    else
      match su.callback(c, attempt, if seen.Some? then su.decode(seen.value) else None)
      case NewValue(v) => su.encode(v)
      case _ => None
  }

  /** The part of one attempt between the read and the swap. */
  function AfterRead<V>(su: Setup<V>, c: nat, attempt: nat, index: nat, found: Option<Pair>): Call {
    if found.Some? && su.decode(found.value.value).None? then NextAttempt(attempt, index)
    else
      var index' := if found.Some? then found.value.modifyIndex else index;
      match su.callback(c, attempt, if found.Some? then su.decode(found.value.value) else None)
      case Failure(retry) => if retry then NextAttempt(attempt, index') else Returned(CallbackError)
      case Nil => Returned(Panicked)
      case NewValue(v) =>
        if su.encode(v).None? then NextAttempt(attempt, index')
        else Swapping(attempt, index', if found.Some? then Some(found.value.value) else None, su.encode(v).value)
  }

  /** The steps of a call, of which a read or a swap may meet an error of the store, and writes
      of others. An error of a swap may hide that it took effect. */
  datatype Step =
    | Read(c: nat)
    | ReadError(c: nat)
    | Swap(c: nat)
    | SwapError(c: nat, applied: bool)
    | Overwrite(key: Blob, value: Blob)

  predicate Enabled<V>(su: Setup<V>, st: State, step: Step) {
    match step
    case Read(c) => c < |st.calls| && st.calls[c].Reading?
    case ReadError(c) => c < |st.calls| && st.calls[c].Reading?
    case Swap(c) => c < |st.calls| && st.calls[c].Swapping? && c < |st.hidden|
    case SwapError(c, applied) =>
      c < |st.calls| && st.calls[c].Swapping? && c < |st.hidden| && (applied ==> Swaps(st.store, su.key(c), st.calls[c].index))
    case Overwrite(_, _) => true
  }

  function Apply<V>(su: Setup<V>, st: State, step: Step): State
    requires Enabled(su, st, step)
  {
    match step
    case Read(c) =>
      var call := st.calls[c];
      st.(calls := st.calls[c := AfterRead(su, c, call.attempt, call.index, Lookup(st.store, su.key(c)))])
    case ReadError(c) => st.(calls := st.calls[c := NextAttempt(st.calls[c].attempt, st.calls[c].index)])
    case Swap(c) =>
      if Swaps(st.store, su.key(c), st.calls[c].index)
      then Committed(su, st, c).(calls := st.calls[c := Returned(Success)])
      else st.(calls := st.calls[c := NextAttempt(st.calls[c].attempt, st.calls[c].index)])
    case SwapError(c, applied) =>
      var after := if applied then Committed(su, st, c).(hidden := st.hidden[c := st.hidden[c] + 1]) else st;
      after.(calls := st.calls[c := NextAttempt(st.calls[c].attempt, st.calls[c].index)])
    case Overwrite(key, value) =>
      st.(store := Written(st.store, key, value), log := st.log + [Commit(key, None, 0, value)])
  }

  function Committed<V>(su: Setup<V>, st: State, c: nat): State
    requires c < |st.calls| && st.calls[c].Swapping?
  {
    var call := st.calls[c];
    st.(store := Written(st.store, su.key(c), call.value), log := st.log + [Commit(su.key(c), Some(c), call.attempt, call.value)])
  }

  ghost predicate IsRun<V>(su: Setup<V>, states: seq<State>, steps: seq<Step>) {
    && |states| == |steps| + 1 && Initial(states[0])
    && forall k :: 0 <= k < |steps| ==> Enabled(su, states[k], steps[k]) && states[k + 1] == Apply(su, states[k], steps[k])
  }

  // -------------------------------------------------- what every step keeps

  /** The last value written to a key. */
  function Latest(log: seq<Commit>, key: Blob): Option<Blob> {
    if log == [] then None
    else if log[|log| - 1].key == key then Some(log[|log| - 1].value)
    else Latest(log[..|log| - 1], key)
  }

  /** A write of a call is what its callback made of the value before it. */
  ghost predicate FollowsFrom<V(!new)>(su: Setup<V>, before: seq<Commit>, e: Commit) {
    e.author.Some? ==> e.key == su.key(e.author.value) && Computed(su, e.author.value, e.attempt, Latest(before, e.key)) == Some(e.value)
  }

  ghost predicate Chained<V(!new)>(su: Setup<V>, log: seq<Commit>) {
    forall k :: 0 <= k < |log| ==> FollowsFrom(su, log[..k], log[k])
  }

  /** The store holds the last value of every key, under an index no later than the current. */
  ghost predicate Stored(st: State) {
    forall key :: && Latest(st.log, key) == (if key in st.store.kvps then Some(st.store.kvps[key].value) else None)
                  && (key in st.store.kvps ==> 0 < st.store.kvps[key].modifyIndex <= st.store.current)
  }

  /** What a call remembers of its key: an index it has seen is one the key has had, and while
      the key still has it the value is the one the call has seen. */
  ghost predicate Remembers<V(!new)>(su: Setup<V>, st: State, c: nat)
    requires c < |st.calls|
  {
    var key := su.key(c);
    match st.calls[c]
    case Returned(_) => true
    case Reading(_, index) => index > 0 ==> key in st.store.kvps
    case Swapping(attempt, index, seen, value) =>
      && Computed(su, c, attempt, seen) == Some(value)
      && index <= st.store.current
      && (index > 0 ==> key in st.store.kvps && seen.Some?)
      && (index == 0 ==> seen.None?)
      && (index > 0 && st.store.kvps[key].modifyIndex == index ==> seen == Some(st.store.kvps[key].value))
  }

  /** How many writes of a call took effect. */
  function CommitsBy(log: seq<Commit>, c: nat): nat {
    if log == [] then 0
    else CommitsBy(log[..|log| - 1], c) + (if log[|log| - 1].author == Some(c) then 1 else 0)
  }

  ghost predicate Counted(st: State) {
    && |st.hidden| == |st.calls|
    && forall c :: 0 <= c < |st.calls| ==>
         CommitsBy(st.log, c) == st.hidden[c] + if st.calls[c] == Returned(Success) then 1 else 0
  }

  ghost predicate Invariant<V(!new)>(su: Setup<V>, st: State) {
    && Stored(st) && Chained(su, st.log) && Counted(st)
    && (forall c :: 0 <= c < |st.calls| ==> Remembers(su, st, c))
  }

  lemma WriteKeeps<V(!new)>(su: Setup<V>, st: State, st': State, e: Commit)
    requires Stored(st) && Chained(su, st.log) && FollowsFrom(su, st.log, e)
    requires st'.store == Written(st.store, e.key, e.value) && st'.log == st.log + [e]
    ensures Stored(st') && Chained(su, st'.log)
    ensures forall c: nat :: CommitsBy(st'.log, c) == CommitsBy(st.log, c) + if e.author == Some(c) then 1 else 0
  {
    assert st'.log[..|st.log|] == st.log;
    forall k | 0 <= k < |st'.log| ensures FollowsFrom(su, st'.log[..k], st'.log[k]) {
      if k < |st.log| {
        assert st'.log[..k] == st.log[..k];
      }
    }
  }

  lemma RememberedAcrossWrite<V(!new)>(su: Setup<V>, st: State, st': State, e: Commit, c: nat)
    requires Stored(st) && c < |st.calls| == |st'.calls| && Remembers(su, st, c) && st'.calls[c] == st.calls[c]
    requires st'.store == Written(st.store, e.key, e.value)
    ensures Remembers(su, st', c)
  {
  }

  lemma SwapFollows<V(!new)>(su: Setup<V>, st: State, c: nat)
    requires Invariant(su, st) && c < |st.calls| && st.calls[c].Swapping? && Swaps(st.store, su.key(c), st.calls[c].index)
    ensures FollowsFrom(su, st.log, Commit(su.key(c), Some(c), st.calls[c].attempt, st.calls[c].value))
  {
    assert Remembers(su, st, c);
    assert Latest(st.log, su.key(c)) == st.calls[c].seen;
  }

  /** A commit of call `c`, which then goes on as `next`. */
  lemma CommitKeeps<V(!new)>(su: Setup<V>, st: State, c: nat, next: Call, hides: nat)
    requires Invariant(su, st) && c < |st.calls| && st.calls[c].Swapping? && Swaps(st.store, su.key(c), st.calls[c].index)
    requires (next == Returned(Success) && hides == 0) || (next == NextAttempt(st.calls[c].attempt, st.calls[c].index) && hides == 1)
    ensures Invariant(su, Committed(su, st, c).(calls := st.calls[c := next], hidden := st.hidden[c := st.hidden[c] + hides]))
  {
    var st' := Committed(su, st, c).(calls := st.calls[c := next], hidden := st.hidden[c := st.hidden[c] + hides]);
    var e := Commit(su.key(c), Some(c), st.calls[c].attempt, st.calls[c].value);
    SwapFollows(su, st, c);
    WriteKeeps(su, st, st', e);
    forall d | 0 <= d < |st'.calls| ensures Remembers(su, st', d) {
      assert Remembers(su, st, d);
      if d != c {
        RememberedAcrossWrite(su, st, st', e, d);
      }
    }
  }

  lemma ReadRemembers<V(!new)>(su: Setup<V>, st: State, c: nat)
    requires Invariant(su, st) && Enabled(su, st, Read(c))
    ensures Remembers(su, st.(calls := st.calls[c := Apply(su, st, Read(c)).calls[c]]), c)
  {
    assert Remembers(su, st, c);
    var key := su.key(c);
    assert Latest(st.log, key) == (if key in st.store.kvps then Some(st.store.kvps[key].value) else None);
  }

  lemma SwapKeeps<V(!new)>(su: Setup<V>, st: State, c: nat)
    requires Invariant(su, st) && Enabled(su, st, Swap(c))
    ensures Invariant(su, Apply(su, st, Swap(c)))
  {
    if Swaps(st.store, su.key(c), st.calls[c].index) {
      CommitKeeps(su, st, c, Returned(Success), 0);
      assert st.hidden[c := st.hidden[c] + 0] == st.hidden;
    } else {
      assert Remembers(su, st, c);
      MoveKeeps(su, st, c, Apply(su, st, Swap(c)).calls[c]);
    }
  }

  lemma StepKeeps<V(!new)>(su: Setup<V>, st: State, step: Step)
    requires Invariant(su, st) && Enabled(su, st, step)
    ensures Invariant(su, Apply(su, st, step))
  {
    var st' := Apply(su, st, step);
    match step
    case Read(c) =>
      ReadRemembers(su, st, c);
      MoveKeeps(su, st, c, st'.calls[c]);
    case ReadError(c) =>
      assert Remembers(su, st, c);
      MoveKeeps(su, st, c, st'.calls[c]);
    case Swap(c) => SwapKeeps(su, st, c);
    case SwapError(c, applied) => SwapErrorKeeps(su, st, c, applied);
    case Overwrite(key, value) => OverwriteKeeps(su, st, key, value);
  }

  lemma SwapErrorKeeps<V(!new)>(su: Setup<V>, st: State, c: nat, applied: bool)
    requires Invariant(su, st) && Enabled(su, st, SwapError(c, applied))
    ensures Invariant(su, Apply(su, st, SwapError(c, applied)))
  {
    var next := NextAttempt(st.calls[c].attempt, st.calls[c].index);
    if applied {
      CommitKeeps(su, st, c, next, 1);
    } else {
      assert Remembers(su, st, c);
      MoveKeeps(su, st, c, next);
    }
  }

  lemma OverwriteKeeps<V(!new)>(su: Setup<V>, st: State, key: Blob, value: Blob)
    requires Invariant(su, st)
    ensures Invariant(su, Apply(su, st, Overwrite(key, value)))
  {
    var st' := Apply(su, st, Overwrite(key, value));
    var e := Commit(key, None, 0, value);
    WriteKeeps(su, st, st', e);
    forall d | 0 <= d < |st'.calls| ensures Remembers(su, st', d) {
      assert Remembers(su, st, d);
      RememberedAcrossWrite(su, st, st', e, d);
    }
  }

  /** A call that moves on without a write. */
  lemma MoveKeeps<V(!new)>(su: Setup<V>, st: State, c: nat, next: Call)
    requires Invariant(su, st) && c < |st.calls| && !st.calls[c].Returned? && next != Returned(Success)
    requires Remembers(su, st.(calls := st.calls[c := next]), c)
    ensures Invariant(su, st.(calls := st.calls[c := next]))
  {
    var st' := st.(calls := st.calls[c := next]);
    forall d | 0 <= d < |st'.calls| ensures Remembers(su, st', d) {
      if d != c {
        assert Remembers(su, st, d);
      }
    }
  }

  lemma {:induction false} RunKeeps<V(!new)>(su: Setup<V>, states: seq<State>, steps: seq<Step>, k: nat)
    requires IsRun(su, states, steps) && k < |states|
    ensures Invariant(su, states[k])
  {
    if k > 0 {
      RunKeeps(su, states, steps, k - 1);
      StepKeeps(su, states[k - 1], steps[k - 1]);
    }
  }

  // -------------------------------------------------- what every run does

  /** In every interleaving of any number of calls: every write of a call is its callback applied
      to the value written just before it; and a call makes one write when it succeeds and none
      when it does not, not counting writes that an error hid from it. */
  lemma NoUpdateIsLost<V(!new)>(su: Setup<V>, states: seq<State>, steps: seq<Step>, k: nat)
    requires IsRun(su, states, steps) && k < |states|
    ensures var st := states[k];
            && (forall j :: 0 <= j < |st.log| ==> FollowsFrom(su, st.log[..j], st.log[j]))
            && |st.hidden| == |st.calls|
            && (forall c :: 0 <= c < |st.calls| ==>
                  CommitsBy(st.log, c) == st.hidden[c] + if st.calls[c] == Returned(Success) then 1 else 0)
  {
    RunKeeps(su, states, steps, k);
  }

  /** How many writes of a call took effect and were reported to it as errors. */
  function HiddenBy(steps: seq<Step>, c: nat): nat {
    if steps == [] then 0
    else HiddenBy(steps[..|steps| - 1], c) + (if steps[|steps| - 1] == SwapError(c, true) then 1 else 0)
  }

  lemma {:induction false} HiddenIsCounted<V(!new)>(su: Setup<V>, states: seq<State>, steps: seq<Step>, k: nat, c: nat)
    requires IsRun(su, states, steps) && k < |states| && c < |states[0].calls|
    ensures |states[k].calls| == |states[k].hidden| == |states[0].calls| && states[k].hidden[c] == HiddenBy(steps[..k], c)
  {
    RunKeeps(su, states, steps, k);
    if k > 0 {
      HiddenIsCounted(su, states, steps, k - 1, c);
      assert steps[..k][..k - 1] == steps[..k - 1] && steps[..k][k - 1] == steps[k - 1];
      assert states[k] == Apply(su, states[k - 1], steps[k - 1]);
    }
  }

  /** In every run a call commits once for its success, and once for each of its swaps that took
      effect but was reported as an error. */
  lemma CommitsInRun<V(!new)>(su: Setup<V>, states: seq<State>, steps: seq<Step>, k: nat, c: nat)
    requires IsRun(su, states, steps) && k < |states| && c < |states[k].calls|
    ensures CommitsBy(states[k].log, c) == HiddenBy(steps[..k], c) + if states[k].calls[c] == Returned(Success) then 1 else 0
  {
    CallsStay(su, states, steps, k);
    HiddenIsCounted(su, states, steps, k, c);
    RunKeeps(su, states, steps, k);
  }

  lemma {:induction false} CallsStay<V(!new)>(su: Setup<V>, states: seq<State>, steps: seq<Step>, k: nat)
    requires IsRun(su, states, steps) && k < |states|
    ensures |states[k].calls| == |states[0].calls|
  {
    if k > 0 {
      CallsStay(su, states, steps, k - 1);
      assert states[k] == Apply(su, states[k - 1], steps[k - 1]);
    }
  }

  lemma {:induction false} NoneHidden(steps: seq<Step>, c: nat)
    ensures HiddenBy(steps, c) == 0 <==> SwapError(c, true) !in steps
  {
    if steps != [] {
      var front := steps[..|steps| - 1];
      NoneHidden(front, c);
      assert steps == front + [steps[|steps| - 1]];
    }
  }

  /** So a call commits at most once if no error hides a swap of its own from it, and then exactly
      if it has returned success. */
  lemma CommitsAtMostOnce<V(!new)>(su: Setup<V>, states: seq<State>, steps: seq<Step>, k: nat, c: nat)
    requires IsRun(su, states, steps) && k < |states| && c < |states[k].calls| && SwapError(c, true) !in steps[..k]
    ensures CommitsBy(states[k].log, c) <= 1
    ensures CommitsBy(states[k].log, c) == 1 <==> states[k].calls[c] == Returned(Success)
  {
    CommitsInRun(su, states, steps, k, c);
    NoneHidden(steps[..k], c);
  }

  /** A store that gives no errors, or none for what took effect, runs every call at most once. */
  lemma WithoutErrorsAtMostOnce<V(!new)>(su: Setup<V>, states: seq<State>, steps: seq<Step>, k: nat)
    requires IsRun(su, states, steps) && k < |states| && forall j :: 0 <= j < k && steps[j].SwapError? ==> !steps[j].applied
    ensures forall c :: 0 <= c < |states[k].calls| ==>
              && CommitsBy(states[k].log, c) <= 1
              && (CommitsBy(states[k].log, c) == 1 <==> states[k].calls[c] == Returned(Success))
  {
    forall c | 0 <= c < |states[k].calls|
      ensures CommitsBy(states[k].log, c) <= 1 && (CommitsBy(states[k].log, c) == 1 <==> states[k].calls[c] == Returned(Success))
    {
      CommitsAtMostOnce(su, states, steps, k, c);
    }
  }

  /** Running the writes one after the other, each from the result of the one before. */
  function Replay<V>(su: Setup<V>, log: seq<Commit>, key: Blob): Option<Blob> {
    if log == [] then None
    else
      var e, before := log[|log| - 1], Replay(su, log[..|log| - 1], key);
      if e.key != key then before
      else if e.author.None? then Some(e.value)
      else Computed(su, e.author.value, e.attempt, before)
  }

  lemma {:induction false} ChainReplays<V(!new)>(su: Setup<V>, log: seq<Commit>, key: Blob)
    requires Chained(su, log)
    ensures Replay(su, log, key) == Latest(log, key)
  {
    if log != [] {
      var n := |log| - 1;
      var front := log[..n];
      forall k | 0 <= k < |front| ensures FollowsFrom(su, front[..k], front[k]) {
        assert front[..k] == log[..k];
      }
      ChainReplays(su, front, key);
      assert FollowsFrom(su, log[..n], log[n]);
    }
  }

  /** The calls take effect one at a time: at every moment the store holds, under every key, what
      running the committed callbacks alone and in the order of their commits gives. */
  lemma CallsAreSerial<V(!new)>(su: Setup<V>, states: seq<State>, steps: seq<Step>, k: nat, key: Blob)
    requires IsRun(su, states, steps) && k < |states|
    ensures var kvps := states[k].store.kvps;
            Replay(su, states[k].log, key) == if key in kvps then Some(kvps[key].value) else None
  {
    RunKeeps(su, states, steps, k);
    ChainReplays(su, states[k].log, key);
  }

  /** Every callback takes a good value to a good value. */
  ghost predicate Keeps<V(!new)>(su: Setup<V>, good: Option<Blob> -> bool) {
    forall c, attempt, seen :: good(seen) && Computed(su, c, attempt, seen).Some? ==> good(Computed(su, c, attempt, seen))
  }

  lemma {:induction false} ReplayKeeps<V(!new)>(su: Setup<V>, log: seq<Commit>, key: Blob, good: Option<Blob> -> bool)
    requires Chained(su, log) && good(None) && Keeps(su, good)
    requires forall k :: 0 <= k < |log| && log[k].key == key && log[k].author.None? ==> good(Some(log[k].value))
    ensures good(Latest(log, key))
  {
    if log != [] {
      var n := |log| - 1;
      var front := log[..n];
      forall k | 0 <= k < |front| ensures FollowsFrom(su, front[..k], front[k]) {
        assert front[..k] == log[..k];
      }
      ReplayKeeps(su, front, key, good);
      assert FollowsFrom(su, log[..n], log[n]);
    }
  }

  /** Whatever every callback keeps holds of the stored value at every moment of every run, if
      it holds of the missing value and of what others write. */
  lemma CallbacksKeep<V(!new)>(su: Setup<V>, states: seq<State>, steps: seq<Step>, k: nat, key: Blob, good: Option<Blob> -> bool)
    requires IsRun(su, states, steps) && k < |states| && good(None) && Keeps(su, good)
    requires forall j :: 0 <= j < |states[k].log| && states[k].log[j].key == key && states[k].log[j].author.None? ==>
               good(Some(states[k].log[j].value))
    ensures key in states[k].store.kvps ==> good(Some(states[k].store.kvps[key].value))
  {
    RunKeeps(su, states, steps, k);
    ReplayKeeps(su, states[k].log, key, good);
  }

  /** Some run of a single call ends in success with two writes. */
  ghost predicate CanWriteTwice<V(!new)>(su: Setup<V>) {
    exists states: seq<State>, steps: seq<Step> :: WritesTwice(su, states, steps)
  }

  ghost predicate WritesTwice<V(!new)>(su: Setup<V>, states: seq<State>, steps: seq<Step>) {
    && IsRun(su, states, steps) && |states[|steps|].calls| == 1
    && states[|steps|].calls[0] == Returned(Success) && CommitsBy(states[|steps|].log, 0) == 2
  }

  /** An error after the fact makes a call write twice: its first write took effect, but the call
      was told of an error, tried again and applied its callback to its own result. */
  lemma HiddenCommitRepeats<V(!new)>(su: Setup<V>, first: Blob, second: Blob)
    requires Computed(su, 0, 0, None) == Some(first) && Computed(su, 0, 1, Some(first)) == Some(second)
    ensures CanWriteTwice(su)
  {
    var key := su.key(0);
    var states, steps := FirstWriteHidden(su, first);
    var e1, e2 := Commit(key, Some(0), 0, first), Commit(key, Some(0), 1, second);
    var s2 := states[|steps|];
    var s3 := s2.(calls := [Swapping(1, 1, Some(first), second)]);
    ReadsAlone(su, s2, s3);
    Extend(su, states, steps, Read(0));
    states, steps := states + [s3], steps + [Read(0)];
    var s4 := State(Written(s3.store, key, second), [Returned(Success)], [e1, e2], [1]);
    assert Apply(su, s3, Swap(0)) == s4;
    Extend(su, states, steps, Swap(0));
    TwoCommits(e1, e2);
    assert WritesTwice(su, states + [s4], steps + [Swap(0)]);
  }

  lemma TwoCommits(e1: Commit, e2: Commit)
    requires e1.author == Some(0) && e2.author == Some(0)
    ensures CommitsBy([e1, e2], 0) == 2
  {
    var log := [e1, e2];
    assert log[..1] == [e1];
    assert CommitsBy([e1], 0) == CommitsBy([], 0) + 1 by {
      assert [e1][..0] == [];
    }
    assert CommitsBy(log, 0) == CommitsBy(log[..1], 0) + 1;
  }

  lemma Extend<V(!new)>(su: Setup<V>, states: seq<State>, steps: seq<Step>, step: Step)
    requires IsRun(su, states, steps) && Enabled(su, states[|steps|], step)
    ensures IsRun(su, states + [Apply(su, states[|steps|], step)], steps + [step])
  {
  }

  lemma FirstWriteHidden<V(!new)>(su: Setup<V>, first: Blob) returns (states: seq<State>, steps: seq<Step>)
    requires Computed(su, 0, 0, None) == Some(first)
    ensures IsRun(su, states, steps)
    ensures states[|steps|] == State(Written(Store(map[], 0), su.key(0), first), [Reading(1, 0)], [Commit(su.key(0), Some(0), 0, first)], [1])
  {
    var s0 := State(Store(map[], 0), [Reading(0, 0)], [], [0]);
    var s1 := s0.(calls := [Swapping(0, 0, None, first)]);
    var s2 := State(Written(Store(map[], 0), su.key(0), first), [Reading(1, 0)], [Commit(su.key(0), Some(0), 0, first)], [1]);
    ReadsAlone(su, s0, s1);
    assert Apply(su, s1, SwapError(0, true)) == s2;
    states, steps := [s0, s1, s2], [Read(0), SwapError(0, true)];
  }

  lemma ReadsAlone<V(!new)>(su: Setup<V>, st: State, st': State)
    requires |st.calls| == 1 && st.calls[0].Reading? && |st'.calls| == 1 && st'.calls[0].Swapping?
    requires st' == st.(calls := st'.calls) && st'.calls[0].attempt == st.calls[0].attempt
    requires var found := Lookup(st.store, su.key(0));
             && st'.calls[0].seen == (if found.Some? then Some(found.value.value) else None)
             && st'.calls[0].index == (if found.Some? then found.value.modifyIndex else st.calls[0].index)
    requires Computed(su, 0, st.calls[0].attempt, st'.calls[0].seen) == Some(st'.calls[0].value)
    ensures Enabled(su, st, Read(0)) && Apply(su, st, Read(0)) == st'
  {
    assert st.calls[0 := st'.calls[0]] == st'.calls;
  }
}
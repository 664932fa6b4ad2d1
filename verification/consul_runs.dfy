/** When the calls of the compare-and-swap loop return, and with what. */
module ConsulRuns {
  import opened ByteStrings
  import opened Consul

  // -------------------------------------------------- failed attempts

  /** What a read of a call finds: the value as the callback sees it. */
  function Shown<V>(su: Setup<V>, st: State, c: nat): Option<V> {
    if su.key(c) in st.store.kvps then su.decode(st.store.kvps[su.key(c)].value) else None
  }

  /** The value that a read finds can be decoded, or there is none. */
  predicate Decodes<V>(su: Setup<V>, st: State, c: nat) {
    su.key(c) in st.store.kvps ==> su.decode(st.store.kvps[su.key(c)].value).Some?
  }

  /** What the callback of a call that is about to read will answer. */
  function Reply<V>(su: Setup<V>, st: State, c: nat): Answer<V>
    requires c < |st.calls| && st.calls[c].Reading?
  {
    su.callback(c, st.calls[c].attempt, Shown(su, st, c))
  }

  /** The step ends an attempt of the call, which is to be repeated: the store gives an error, the
      value cannot be decoded or encoded, the callback asks to be called again, or the swap finds
      another index. */
  predicate Fails<V>(su: Setup<V>, st: State, step: Step, c: nat)
    requires Enabled(su, st, step)
  {
    match step
    case ReadError(d) => d == c
    case SwapError(d, _) => d == c
    case Read(d) =>
      d == c && (!Decodes(su, st, c)
                 || Reply(su, st, c) == Failure(true)
                 || (Reply(su, st, c).NewValue? && su.encode(Reply(su, st, c).value).None?))
    case Swap(d) => d == c && su.key(c) in st.store.kvps && st.store.kvps[su.key(c)].modifyIndex != st.calls[c].index
    case Overwrite(_, _) => false
  }

  /** How many attempts of the call have failed in the first steps of a run. */
  ghost function Failures<V>(su: Setup<V>, states: seq<State>, steps: seq<Step>, k: nat, c: nat): nat
    requires IsRun(su, states, steps) && k <= |steps|
  {
    if k == 0 then 0 else Failures(su, states, steps, k - 1, c) + if Fails(su, states[k - 1], steps[k - 1], c) then 1 else 0
  }

  /** The callback of the call answered so to one of its reads. */
  ghost predicate Replied<V(!new)>(su: Setup<V>, states: seq<State>, steps: seq<Step>, k: nat, c: nat, answer: Answer<V>)
    requires IsRun(su, states, steps) && k <= |steps|
  {
    exists j :: 0 <= j < k && ReadsAnswer(su, states[j], steps[j], c, answer)
  }

  predicate ReadsAnswer<V(!new)>(su: Setup<V>, st: State, step: Step, c: nat, answer: Answer<V>)
    requires Enabled(su, st, step)
  {
    step == Read(c) && Decodes(su, st, c) && ((answer.Nil? && Reply(su, st, c).Nil?) || (answer == Failure(false) && Reply(su, st, c) == Failure(false)))
  }

  /** One of the call's swaps went through and was reported so. */
  ghost predicate SwappedIn<V>(su: Setup<V>, states: seq<State>, steps: seq<Step>, k: nat, c: nat)
    requires IsRun(su, states, steps) && k <= |steps|
  {
    exists j :: 0 <= j < k && steps[j] == Swap(c) && Swaps(states[j].store, su.key(c), states[j].calls[c].index)
  }

  /** What the state of a call says of its past. */
  ghost predicate Accounts<V(!new)>(su: Setup<V>, states: seq<State>, steps: seq<Step>, k: nat, c: nat)
    requires IsRun(su, states, steps) && k <= |steps| && c < |states[k].calls|
  {
    var failures, call := Failures(su, states, steps, k, c), states[k].calls[c];
    && (call.Reading? ==> call.attempt == failures)
    && (call.Swapping? ==> call.attempt == failures)
    && failures <= 10 && (call == Returned(GaveUp) <==> failures == 10)
    && (call == Returned(Success) <==> SwappedIn(su, states, steps, k, c))
    && (call == Returned(CallbackError) <==> Replied(su, states, steps, k, c, Failure(false)))
    && (call == Returned(Panicked) <==> Replied(su, states, steps, k, c, Nil))
  }

  lemma StepAccounts<V(!new)>(su: Setup<V>, states: seq<State>, steps: seq<Step>, k: nat, c: nat)
    requires IsRun(su, states, steps) && 0 < k <= |steps| && c < |states[k - 1].calls| == |states[k].calls|
    requires Accounts(su, states, steps, k - 1, c)
    ensures Accounts(su, states, steps, k, c)
  {
    var st, step := states[k - 1], steps[k - 1];
    assert Enabled(su, st, step) && states[k] == Apply(su, st, step);
    RepliedNext(su, states, steps, k, c, Failure(false));
    RepliedNext(su, states, steps, k, c, Nil);
    SwappedNext(su, states, steps, k, c);
  }

  lemma RepliedNext<V(!new)>(su: Setup<V>, states: seq<State>, steps: seq<Step>, k: nat, c: nat, answer: Answer<V>)
    requires IsRun(su, states, steps) && 0 < k <= |steps|
    ensures Replied(su, states, steps, k, c, answer) <==>
            Replied(su, states, steps, k - 1, c, answer) || ReadsAnswer(su, states[k - 1], steps[k - 1], c, answer)
  {
  }

  lemma SwappedNext<V(!new)>(su: Setup<V>, states: seq<State>, steps: seq<Step>, k: nat, c: nat)
    requires IsRun(su, states, steps) && 0 < k <= |steps|
    ensures SwappedIn(su, states, steps, k, c) <==>
            || SwappedIn(su, states, steps, k - 1, c)
            || (steps[k - 1] == Swap(c) && Swaps(states[k - 1].store, su.key(c), states[k - 1].calls[c].index))
  {
  }

  /** In every run a call has returned, or not, by what has happened to it: it gives up exactly at ten
      failed attempts, succeeds exactly when a swap of its own went through, returns its callback's
      error exactly when that is not to be retried, and panics exactly when its callback gave
      nothing. */
  lemma {:induction false} CallsAccount<V(!new)>(su: Setup<V>, states: seq<State>, steps: seq<Step>, k: nat, c: nat)
    requires IsRun(su, states, steps) && k <= |steps| && c < |states[k].calls|
    ensures Accounts(su, states, steps, k, c)
  {
    CallsStay(su, states, steps, k);
    if k > 0 {
      CallsStay(su, states, steps, k - 1);
      CallsAccount(su, states, steps, k - 1, c);
      StepAccounts(su, states, steps, k, c);
    }
  }

  // -------------------------------------------------- calls go on and come to an end

  /** A call that has not returned can go on. */
  lemma CanGoOn<V(!new)>(su: Setup<V>, states: seq<State>, steps: seq<Step>, k: nat, c: nat)
    requires IsRun(su, states, steps) && k <= |steps| && c < |states[k].calls| && !states[k].calls[c].Returned?
    ensures Enabled(su, states[k], Read(c)) || Enabled(su, states[k], Swap(c))
  {
    RunKeeps(su, states, steps, k);
  }

  predicate IsOwn(step: Step, c: nat) {
    match step
    case Read(d) => d == c
    case ReadError(d) => d == c
    case Swap(d) => d == c
    case SwapError(d, _) => d == c
    case Overwrite(_, _) => false
  }

  function OwnSteps(steps: seq<Step>, c: nat): nat {
    if steps == [] then 0 else OwnSteps(steps[..|steps| - 1], c) + if IsOwn(steps[|steps| - 1], c) then 1 else 0
  }

  ghost predicate Bounded<V(!new)>(su: Setup<V>, states: seq<State>, steps: seq<Step>, k: nat, c: nat)
    requires IsRun(su, states, steps) && k <= |steps| && c < |states[k].calls|
  {
    var call := states[k].calls[c];
    OwnSteps(steps[..k], c) <= 2 * Failures(su, states, steps, k, c)
                               + if call.Reading? || call == Returned(GaveUp) then 0 else if call.Swapping? then 1 else 2
  }

  lemma {:induction false} StepsAreBounded<V(!new)>(su: Setup<V>, states: seq<State>, steps: seq<Step>, k: nat, c: nat)
    requires IsRun(su, states, steps) && k <= |steps| && c < |states[k].calls|
    ensures Bounded(su, states, steps, k, c)
  {
    CallsStay(su, states, steps, k);
    if k > 0 {
      CallsStay(su, states, steps, k - 1);
      StepsAreBounded(su, states, steps, k - 1, c);
      CallsAccount(su, states, steps, k - 1, c);
      assert steps[..k][..k - 1] == steps[..k - 1];
      assert Enabled(su, states[k - 1], steps[k - 1]) && states[k] == Apply(su, states[k - 1], steps[k - 1]);
    }
  }

  /** So a call returns within twenty steps of its own. */
  lemma ReturnsInTwenty<V(!new)>(su: Setup<V>, states: seq<State>, steps: seq<Step>, k: nat, c: nat)
    requires IsRun(su, states, steps) && k <= |steps| && c < |states[k].calls|
    ensures OwnSteps(steps[..k], c) <= 20
    ensures OwnSteps(steps[..k], c) == 20 ==> states[k].calls[c].Returned?
  {
    StepsAreBounded(su, states, steps, k, c);
    CallsAccount(su, states, steps, k, c);
  }

  // -------------------------------------------------- an attempt that nobody disturbs

  /** No write to the key between two moments of a run. */
  ghost predicate Undisturbed(before: State, after: State, key: Blob) {
    |before.log| <= |after.log| && forall j :: |before.log| <= j < |after.log| ==> after.log[j].key != key
  }

  lemma {:induction false} LogGrows<V(!new)>(su: Setup<V>, states: seq<State>, steps: seq<Step>, j: nat, k: nat)
    requires IsRun(su, states, steps) && j <= k <= |steps|
    ensures states[j].log <= states[k].log
  {
    if j < k {
      LogGrows(su, states, steps, j, k - 1);
      assert Enabled(su, states[k - 1], steps[k - 1]) && states[k] == Apply(su, states[k - 1], steps[k - 1]);
    }
  }

  /** While nobody writes to a key the store keeps its pair. */
  lemma {:induction false} PairStays<V(!new)>(su: Setup<V>, states: seq<State>, steps: seq<Step>, j: nat, k: nat, key: Blob)
    requires IsRun(su, states, steps) && j <= k <= |steps| && Undisturbed(states[j], states[k], key)
    ensures Lookup(states[k].store, key) == Lookup(states[j].store, key)
  {
    if j < k {
      LogGrows(su, states, steps, j, k - 1);
      LogGrows(su, states, steps, k - 1, k);
      assert forall i :: 0 <= i < |states[k - 1].log| ==> states[k].log[i] == states[k - 1].log[i];
      PairStays(su, states, steps, j, k - 1, key);
      assert Enabled(su, states[k - 1], steps[k - 1]) && states[k] == Apply(su, states[k - 1], steps[k - 1]);
      if |states[k].log| > |states[k - 1].log| {
        assert states[k].log[|states[k - 1].log|].key != key;
      }
    }
  }

  /** A call keeps still while others move. */
  lemma {:induction false} CallWaits<V(!new)>(su: Setup<V>, states: seq<State>, steps: seq<Step>, j: nat, k: nat, c: nat)
    requires IsRun(su, states, steps) && j <= k <= |steps| && c < |states[j].calls|
    requires forall i :: j <= i < k ==> !IsOwn(steps[i], c)
    ensures c < |states[k].calls| && states[k].calls[c] == states[j].calls[c]
  {
    if j < k {
      CallWaits(su, states, steps, j, k - 1, c);
      assert Enabled(su, states[k - 1], steps[k - 1]) && states[k] == Apply(su, states[k - 1], steps[k - 1]);
    }
  }

  /** A call whose read and swap no write to its key separates, and whose callback gives a value that
      can be encoded, returns success and has its value written, whichever attempt it is in. */
  lemma UndisturbedSucceeds<V(!new)>(su: Setup<V>, states: seq<State>, steps: seq<Step>, j: nat, k: nat, c: nat)
    requires IsRun(su, states, steps) && j < k < |steps| && steps[j] == Read(c) && steps[k] == Swap(c)
    requires forall i :: j < i < k ==> !IsOwn(steps[i], c)
    requires Decodes(su, states[j], c) && Reply(su, states[j], c).NewValue? && su.encode(Reply(su, states[j], c).value).Some?
    requires Undisturbed(states[j], states[k], su.key(c))
    ensures c < |states[k + 1].calls| && states[k + 1].calls[c] == Returned(Success)
    ensures var kvps := states[k + 1].store.kvps;
            su.key(c) in kvps && kvps[su.key(c)].value == su.encode(Reply(su, states[j], c).value).value
  {
    assert Enabled(su, states[j], steps[j]) && states[j + 1] == Apply(su, states[j], steps[j]);
    CallWaits(su, states, steps, j + 1, k, c);
    PairStays(su, states, steps, j, k, su.key(c));
    assert Enabled(su, states[k], steps[k]) && states[k + 1] == Apply(su, states[k], steps[k]);
    assert Swaps(states[k].store, su.key(c), states[k].calls[c].index);
  }

  // -------------------------------------------------- calls may fail for good

  /** A call that has not returned may still give up, in whatever run it is: the store may fail it to the
      end. */
  lemma {:induction false} MayGiveUp<V(!new)>(su: Setup<V>, states: seq<State>, steps: seq<Step>, c: nat)
    returns (more: seq<State>, moreSteps: seq<Step>)
    requires IsRun(su, states, steps) && c < |states[|steps|].calls| && !states[|steps|].calls[c].Returned?
    ensures IsRun(su, more, moreSteps) && states <= more && steps <= moreSteps
    ensures c < |more[|moreSteps|].calls| && more[|moreSteps|].calls[c] == Returned(GaveUp)
    ensures forall k :: |steps| <= k < |moreSteps| ==> moreSteps[k] in {ReadError(c), SwapError(c, false)}
    decreases 10 - states[|steps|].calls[c].attempt
  {
    var st := states[|steps|];
    RunKeeps(su, states, steps, |steps|);
    CallsAccount(su, states, steps, |steps|, c);
    var step := if st.calls[c].Reading? then ReadError(c) else SwapError(c, false);
    Extend(su, states, steps, step);
    more, moreSteps := states + [Apply(su, st, step)], steps + [step];
    if st.calls[c].attempt < 9 {
      more, moreSteps := MayGiveUp(su, more, moreSteps, c);
    }
  }

  /** Without any error of the store a call may give up too: others may write to its key between
      its read and its swap every time. */
  lemma {:induction false} MayStarve<V(!new)>(su: Setup<V>, states: seq<State>, steps: seq<Step>, c: nat, value: Blob)
    returns (more: seq<State>, moreSteps: seq<Step>)
    requires IsRun(su, states, steps) && c < |states[|steps|].calls| && states[|steps|].calls[c].Reading?
    requires forall attempt, seen :: Computed(su, c, attempt, seen).Some?
    ensures IsRun(su, more, moreSteps) && states <= more && steps <= moreSteps
    ensures c < |more[|moreSteps|].calls| && more[|moreSteps|].calls[c] == Returned(GaveUp)
    ensures forall k :: |steps| <= k < |moreSteps| ==> moreSteps[k] in {Read(c), Overwrite(su.key(c), value), Swap(c)}
    decreases 10 - states[|steps|].calls[c].attempt
  {
    var attempt := states[|steps|].calls[c].attempt;
    CallsAccount(su, states, steps, |steps|, c);
    more, moreSteps := LoseRace(su, states, steps, c, value);
    if attempt < 9 {
      more, moreSteps := MayStarve(su, more, moreSteps, c, value);
    }
  }

  /** One attempt that loses the race. */
  lemma LoseRace<V(!new)>(su: Setup<V>, states: seq<State>, steps: seq<Step>, c: nat, value: Blob)
    returns (more: seq<State>, moreSteps: seq<Step>)
    requires IsRun(su, states, steps) && c < |states[|steps|].calls| && states[|steps|].calls[c].Reading?
    requires forall attempt, seen :: Computed(su, c, attempt, seen).Some?
    ensures IsRun(su, more, moreSteps) && states <= more && moreSteps == steps + [Read(c), Overwrite(su.key(c), value), Swap(c)]
    ensures c < |more[|moreSteps|].calls|
    ensures var attempt := states[|steps|].calls[c].attempt;
            var call := more[|moreSteps|].calls[c];
            if attempt < 9 then call.Reading? && call.attempt == attempt + 1 else call == Returned(GaveUp)
  {
    var st := states[|steps|];
    RunKeeps(su, states, steps, |steps|);
    var key := su.key(c);
    assert Computed(su, c, st.calls[c].attempt, if key in st.store.kvps then Some(st.store.kvps[key].value) else None).Some?;
    Extend(su, states, steps, Read(c));
    var st1 := Apply(su, st, Read(c));
    more, moreSteps := states + [st1], steps + [Read(c)];
    RunKeeps(su, more, moreSteps, |moreSteps|);
    assert Remembers(su, st1, c);
    Extend(su, more, moreSteps, Overwrite(key, value));
    var st2 := Apply(su, st1, Overwrite(key, value));
    more, moreSteps := more + [st2], moreSteps + [Overwrite(key, value)];
    assert !Swaps(st2.store, key, st2.calls[c].index);
    Extend(su, more, moreSteps, Swap(c));
    more, moreSteps := more + [Apply(su, st2, Swap(c))], moreSteps + [Swap(c)];
  }
}

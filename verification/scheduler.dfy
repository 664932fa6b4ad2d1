/** The scheduler's run loop: items come in over one channel and go out over another once they
    are due, as atomic steps. */
module Scheduler {
  import opened ByteStrings
  import opened SortedLists
  import opened SchedulingQueue

  /** All items received, in order; which of them is queued under each key; those delivered, with
      the time; which later item took the place of which; and the two channels and the clock. */
  datatype State = State(
    log: seq<Item>,
    queue: map<Key, nat>,
    delivered: seq<nat>,
    times: seq<int>,
    replaced: map<nat, nat>,
    addClosed: bool,
    nextClosed: bool,
    now: int)

  predicate Initial(st: State) {
    && st.log == [] && st.queue == map[] && st.delivered == [] && st.times == [] && st.replaced == map[]
    && !st.addClosed && !st.nextClosed
  }

  datatype Step =
    | Receive(item: Item)
    | CloseAdd
    | Deliver(n: nat)
    | Finish
    | Tick(now: int)

  ghost predicate QueuedAt(st: State, n: nat) {
    n < |st.log| && st.log[n].key in st.queue && st.queue[st.log[n].key] == n
  }

  /** Nothing queued is scheduled before item `n`. */
  ghost predicate Earliest(st: State, n: nat) {
    n < |st.log| && forall k :: k in st.queue ==> st.queue[k] < |st.log| && st.log[n].scheduled <= st.log[st.queue[k]].scheduled
  }

  /** The loop offers an earliest item that is due, takes in what is added while it may be, and
      ends when nothing is queued and nothing more can be added. */
  ghost predicate Enabled(st: State, step: Step) {
    match step
    case Receive(_) => !st.addClosed && !st.nextClosed
    case CloseAdd => !st.addClosed
    case Deliver(n) => !st.nextClosed && QueuedAt(st, n) && st.log[n].scheduled <= st.now && Earliest(st, n)
    case Finish => st.addClosed && st.queue == map[] && !st.nextClosed
    case Tick(now) => now >= st.now
  }

  ghost function Apply(st: State, step: Step): State
    requires Enabled(st, step)
  {
    match step
    case Receive(item) =>
      st.(log := st.log + [item], queue := st.queue[item.key := |st.log|],
          replaced := if item.key in st.queue then st.replaced[st.queue[item.key] := |st.log|] else st.replaced)
    case CloseAdd => st.(addClosed := true)
    case Deliver(n) =>
      st.(queue := st.queue - {st.log[n].key}, delivered := st.delivered + [n], times := st.times + [st.now])
    case Finish => st.(nextClosed := true)
    case Tick(now) => st.(now := now)
  }

  ghost predicate IsRun(states: seq<State>, steps: seq<Step>) {
    && |states| == |steps| + 1 && Initial(states[0])
    && forall k :: 0 <= k < |steps| ==> Enabled(states[k], steps[k]) && states[k + 1] == Apply(states[k], steps[k])
  }

  // -------------------------------------------------- what becomes of an item

  /** The next item with the same key took the place of item `n`. */
  ghost predicate ReplacedByNext(st: State, n: nat) {
    && n in st.replaced && n < st.replaced[n] < |st.log| && st.log[st.replaced[n]].key == st.log[n].key
    && forall m :: n < m < st.replaced[n] ==> st.log[m].key != st.log[n].key
  }

  ghost predicate WellKept(st: State) {
    && (forall k :: k in st.queue ==> st.queue[k] < |st.log| && st.log[st.queue[k]].key == k)
    && (forall k, m :: k in st.queue && st.queue[k] < m < |st.log| ==> st.log[m].key != k)
    && (forall n :: n in st.replaced ==> n < |st.log| && ReplacedByNext(st, n))
  }

  /** Every item received has been delivered, is queued, or was replaced by the next with its
      key, and only one of these. */
  ghost predicate Accounted(st: State) {
    && (forall n: nat :: n < |st.log| ==> n in st.delivered || QueuedAt(st, n) || n in st.replaced)
    && (forall n: nat :: n in st.delivered ==> n < |st.log| && !QueuedAt(st, n) && n !in st.replaced)
    && (forall n: nat :: n in st.replaced ==> !QueuedAt(st, n))
    && Distinct(st.delivered)
  }

  ghost predicate OnTime(st: State) {
    && |st.times| == |st.delivered|
    && (forall i :: 0 <= i < |st.delivered| ==> st.delivered[i] < |st.log| && st.log[st.delivered[i]].scheduled <= st.times[i])
    && (st.nextClosed ==> st.addClosed && st.queue == map[])
  }

  ghost predicate Invariant(st: State) {
    WellKept(st) && Accounted(st) && OnTime(st)
  }

  lemma ReceiveKeeps(st: State, item: Item)
    requires Invariant(st) && Enabled(st, Receive(item))
    ensures Invariant(Apply(st, Receive(item)))
  {
    var st' := Apply(st, Receive(item));
    forall n: nat | n < |st.log| ensures QueuedAt(st', n) <==> QueuedAt(st, n) && st.log[n].key != item.key {
    }
    assert QueuedAt(st', |st.log|);
    ReceiveReplaces(st, item);
    ReceiveAccounts(st, item);
  }

  lemma ReceiveReplaces(st: State, item: Item)
    requires WellKept(st) && Enabled(st, Receive(item))
    ensures var st' := Apply(st, Receive(item)); forall n :: n in st'.replaced ==> n < |st'.log| && ReplacedByNext(st', n)
  {
    var st' := Apply(st, Receive(item));
    forall n | n in st'.replaced ensures n < |st'.log| && ReplacedByNext(st', n) {
      if n in st.replaced && !(item.key in st.queue && n == st.queue[item.key]) {
        assert ReplacedByNext(st, n);
      }
    }
  }

  lemma ReceiveAccounts(st: State, item: Item)
    requires Invariant(st) && Enabled(st, Receive(item))
    ensures Accounted(Apply(st, Receive(item)))
  {
    var st' := Apply(st, Receive(item));
    forall n: nat | n < |st.log| ensures QueuedAt(st', n) <==> QueuedAt(st, n) && st.log[n].key != item.key {
    }
    assert QueuedAt(st', |st.log|);
    forall n: nat | n < |st'.log| ensures n in st'.delivered || QueuedAt(st', n) || n in st'.replaced {
      if n < |st.log| {
        assert n in st.delivered || QueuedAt(st, n) || n in st.replaced;
      }
    }
    if item.key in st.queue {
      assert QueuedAt(st, st.queue[item.key]);
    }
  }

  lemma DeliverKeeps(st: State, n: nat)
    requires Invariant(st) && Enabled(st, Deliver(n))
    ensures Invariant(Apply(st, Deliver(n)))
  {
    var st' := Apply(st, Deliver(n));
    forall m: nat ensures QueuedAt(st', m) <==> QueuedAt(st, m) && m != n {
    }
    forall m | m in st'.replaced ensures m < |st'.log| && ReplacedByNext(st', m) {
      assert ReplacedByNext(st, m);
    }
    assert n !in st.delivered;
  }

  lemma StepKeeps(st: State, step: Step)
    requires Invariant(st) && Enabled(st, step)
    ensures Invariant(Apply(st, step))
  {
    match step
    case Receive(item) => ReceiveKeeps(st, item);
    case Deliver(n) => DeliverKeeps(st, n);
    case _ => OthersKeep(st, step);
  }

  lemma OthersKeep(st: State, step: Step)
    requires Invariant(st) && Enabled(st, step) && !step.Receive? && !step.Deliver?
    ensures Invariant(Apply(st, step))
  {
    var st' := Apply(st, step);
    forall n: nat ensures QueuedAt(st', n) <==> QueuedAt(st, n) {
    }
    forall n | n in st'.replaced ensures n < |st'.log| && ReplacedByNext(st', n) {
      assert ReplacedByNext(st, n);
    }
  }

  lemma {:induction false} RunKeeps(states: seq<State>, steps: seq<Step>, k: nat)
    requires IsRun(states, steps) && k < |states|
    ensures Invariant(states[k])
  {
    if k > 0 {
      RunKeeps(states, steps, k - 1);
      StepKeeps(states[k - 1], steps[k - 1]);
    }
  }

  /** In every run, at every moment: each item received has been delivered, or is queued, or was
      replaced by the next item with its key, exactly one of the three; no item is delivered
      twice or before it is due; and the outgoing channel is closed only when no more can be added
      and nothing is queued. */
  lemma EveryItemOnce(states: seq<State>, steps: seq<Step>, k: nat, n: nat)
    requires IsRun(states, steps) && k < |states| && n < |states[k].log|
    ensures var st := states[k];
            && (n in st.delivered || QueuedAt(st, n) || ReplacedByNext(st, n))
            && !(n in st.delivered && QueuedAt(st, n)) && !(n in st.delivered && n in st.replaced)
            && !(QueuedAt(st, n) && n in st.replaced)
            && Distinct(st.delivered) && |st.times| == |st.delivered|
            && (forall i :: 0 <= i < |st.delivered| && st.delivered[i] == n ==> st.log[n].scheduled <= st.times[i])
            && (st.nextClosed ==> st.addClosed && !QueuedAt(st, n))
  {
    RunKeeps(states, steps, k);
    var st := states[k];
    if n in st.replaced {
      assert ReplacedByNext(st, n);
    }
  }

  lemma {:induction false} RecordsGrow(states: seq<State>, steps: seq<Step>, j: nat, k: nat)
    requires IsRun(states, steps) && j <= k < |states|
    ensures states[j].log <= states[k].log && states[j].delivered <= states[k].delivered
    ensures forall n :: n in states[j].replaced ==> n in states[k].replaced
  {
    if j < k {
      RecordsGrow(states, steps, j, k - 1);
      assert Enabled(states[k - 1], steps[k - 1]) && states[k] == Apply(states[k - 1], steps[k - 1]);
    }
  }

  /** In every run, of two items that have been received by the time one of them is delivered, the one
      that is due first is delivered first. */
  lemma DeliveredInTime(states: seq<State>, steps: seq<Step>, k: nat, l: nat, n: nat, m: nat)
    requires IsRun(states, steps) && k < l < |states| && steps[k] == Deliver(n)
    requires m < |states[k].log| && m !in states[k].delivered && m in states[l].delivered
    ensures n < |states[k].log| && states[k].log[n].scheduled <= states[k].log[m].scheduled
  {
    RunKeeps(states, steps, k);
    RunKeeps(states, steps, l);
    RecordsGrow(states, steps, k, l);
    assert Enabled(states[k], Deliver(n));
    assert m !in states[k].replaced;
    assert QueuedAt(states[k], m);
  }

  // -------------------------------------------------- the loop and its heap

  /** What wakes up the loop: an item to add, the closing of the channel they come in on, a
      reader for the item it offers, or its timer. */
  datatype Event = Added(item: Item) | AddClosed | Taken | TimerFired

  /** The queued items by key. */
  ghost function Queued(st: State): map<Key, Item>
    requires WellKept(st)
  {
    map k | k in st.queue :: st.log[st.queue[k]]
  }

  lemma QueuedAfterReceive(st: State, item: Item)
    requires WellKept(st) && Enabled(st, Receive(item)) && WellKept(Apply(st, Receive(item)))
    ensures Queued(Apply(st, Receive(item))) == Queued(st)[item.key := item]
  {
  }

  lemma QueuedAfterDeliver(st: State, n: nat)
    requires WellKept(st) && Enabled(st, Deliver(n)) && WellKept(Apply(st, Deliver(n)))
    ensures Queued(Apply(st, Deliver(n))) == Queued(st) - {st.log[n].key}
  {
  }

  /** What an iteration of the loop waits for besides items to add: nothing, a reader for an item that
      is due, or a timer. */
  datatype Waiting = ForAdd | Offering(item: Item) | Sleeping(delay: int)

  /** It waits for an item alone when nothing is queued; offers an earliest item when that is due; and
      else sleeps until that is. */
  ghost predicate WaitsFor(st: State, now: int, w: Waiting) {
    match w
    case ForAdd => st.queue == map[]
    case Offering(item) => exists n: nat :: QueuedAt(st, n) && Earliest(st, n) && st.log[n] == item && item.scheduled <= now
    case Sleeping(delay) =>
      delay > 0 && exists n: nat :: QueuedAt(st, n) && Earliest(st, n) && st.log[n].scheduled == now + delay
  }

  lemma TickKeepsWaiting(st: State, now: int, w: Waiting)
    requires now >= st.now && WaitsFor(st, now, w)
    ensures WaitsFor(Apply(st, Tick(now)), now, w)
  {
    var st' := Apply(st, Tick(now));
    assert forall n: nat :: QueuedAt(st', n) == QueuedAt(st, n) && Earliest(st', n) == Earliest(st, n);
  }

  /** The event is one that the loop waits for. */
  predicate Fits(w: Waiting, event: Event, addClosed: bool) {
    match event
    case Added(_) => !addClosed
    case AddClosed => true
    case Taken => w.Offering?
    case TimerFired => w.Sleeping?
  }

  ghost function Closed(st: State): State {
    if st.addClosed then st else Apply(st, CloseAdd)
  }

  /** What the loop does on an event, in steps of the run. */
  ghost predicate Reacted(st: State, w: Waiting, event: Event, st': State, out: Option<Item>)
    requires !st.nextClosed
  {
    match event
    case Added(item) => out == None && Enabled(st, Receive(item)) && st' == Apply(st, Receive(item))
    case AddClosed => out == None && st' == if st.queue == map[] then Apply(Closed(st), Finish) else Closed(st)
    case Taken => w.Offering? && out == Some(w.item) && exists n: nat :: DeliversTo(st, n, st') && st.log[n] == w.item
    case TimerFired => out == None && st' == st
  }

  ghost predicate DeliversTo(st: State, n: nat, st': State) {
    Enabled(st, Deliver(n)) && st' == Apply(st, Deliver(n))
  }

  /** The goroutine of a queue: the heap, and the state of the run it stands for. */
  class RunLoop {
    const q: QueueState
    ghost var st: State

    ghost predicate Valid()
      reads this, q
    {
      q.Valid() && Invariant(st) && q.Queued() == Queued(st)
    }

    constructor (now: int)
      ensures Valid() && Initial(st) && st.now == now && fresh(q)
    {
      q := new QueueState();
      st := State([], map[], [], [], map[], false, false, now);
    }

    /** One iteration of the loop, at a time; what wakes it up depends on what it waits for. */
    method Iterate(now: int, wakes: Waiting -> Event) returns (w: Waiting, out: Option<Item>, done: bool)
      requires Valid() && now >= st.now && !st.nextClosed && forall w :: Fits(w, wakes(w), st.addClosed)
      modifies this, q
      ensures WaitsFor(old(st), now, w) && (done <==> st.nextClosed)
      ensures Valid() && Reacted(Apply(old(st), Tick(now)), w, wakes(w), st, out)
    {
      w := Select(now);
      StepKeeps(st, Tick(now));
      TickKeepsWaiting(st, now, w);
      st := Apply(st, Tick(now));
      assert Fits(w, wakes(w), st.addClosed);
      out, done := Wake(w, wakes(w));
    }

    /** The rest of an iteration: what is done on an event. */
    method Wake(w: Waiting, event: Event) returns (out: Option<Item>, done: bool)
      requires Valid() && !st.nextClosed && WaitsFor(st, st.now, w) && Fits(w, event, st.addClosed)
      requires w.Offering? ==> q.items != [] && w.item == q.items[0]
      modifies this, q
      ensures Valid() && Reacted(old(st), w, event, st, out) && (done <==> st.nextClosed)
    {
      out, done := None, false;
      match event {
        case Added(item) => Receives(item);
        case AddClosed => done := Closes();
        case Taken => out := Delivers(w);
        case TimerFired =>
      }
    }

    /** The start of an iteration: looks at the front of the queue and at the clock. */
    method Select(now: int) returns (w: Waiting)
      requires Valid()
      ensures WaitsFor(st, now, w)
      ensures w.Offering? ==> q.items != [] && w.item == q.items[0]
    {
      q.NotEmpty();
      if |q.items| == 0 {
        assert Queued(st) == map[];
        return ForAdd;
      }
      var next := q.Front();
      FrontIsEarliest(next);
      var delay := next.scheduled - now;
      w := if delay <= 0 then Offering(next) else Sleeping(delay);
    }

    method Receives(item: Item)
      requires Valid() && Enabled(st, Receive(item))
      modifies this, q
      ensures Valid() && st == Apply(old(st), Receive(item))
    {
      StepKeeps(st, Receive(item));
      QueuedAfterReceive(st, item);
      q.Enqueue(item);
      st := Apply(st, Receive(item));
    }

    /** The adding channel is found closed: with nothing queued the loop ends. */
    method Closes() returns (done: bool)
      requires Valid() && !st.nextClosed
      modifies this
      ensures Valid() && st == (if old(st).queue == map[] then Apply(Closed(old(st)), Finish) else Closed(old(st)))
      ensures done <==> st.nextClosed
    {
      ghost var before := st;
      if !st.addClosed {
        StepKeeps(st, CloseAdd);
      }
      st := Closed(st);
      assert Queued(st) == Queued(before);
      q.NotEmpty();
      assert q.Queued() == map[] <==> st.queue == map[];
      done := |q.items| == 0;
      if done {
        StepKeeps(st, Finish);
        st := Apply(st, Finish);
      }
    }

    /** The front item is taken by a reader. */
    method Delivers(w: Waiting) returns (out: Option<Item>)
      requires Valid() && !st.nextClosed && WaitsFor(st, st.now, w) && w.Offering? && q.items != [] && w.item == q.items[0]
      modifies this, q
      ensures Valid() && out == Some(w.item) && exists n: nat :: DeliversTo(old(st), n, st) && old(st).log[n] == w.item
    {
      var next := q.Front();
      FrontIsEarliest(next);
      ghost var n := st.queue[next.key];
      ghost var after := Delivered(st, n);
      var item := q.Dequeue();
      st := after;
      out := Some(next);
    }

    /** The state of the run once an item has been delivered. */
    ghost function Delivered(st: State, n: nat): (st': State)
      requires Invariant(st) && Enabled(st, Deliver(n))
      ensures DeliversTo(st, n, st') && Invariant(st') && Queued(st') == Queued(st) - {st.log[n].key}
    {
      StepKeeps(st, Deliver(n));
      QueuedAfterDeliver(st, n);
      Apply(st, Deliver(n))
    }

    lemma FrontIsEarliest(next: Item)
      requires Valid() && next.key in q.Queued() && q.Queued()[next.key] == next
      requires forall j :: j in q.Queued() ==> next.scheduled <= q.Queued()[j].scheduled
      ensures next.key in st.queue
      ensures var n := st.queue[next.key]; n < |st.log| && st.log[n] == next && QueuedAt(st, n) && Earliest(st, n)
    {
      var n := st.queue[next.key];
      assert Queued(st)[next.key] == st.log[n];
      forall j | j in st.queue ensures st.queue[j] < |st.log| && st.log[n].scheduled <= st.log[st.queue[j]].scheduled {
        assert q.Queued()[j] == st.log[st.queue[j]];
      }
    }
  }
}

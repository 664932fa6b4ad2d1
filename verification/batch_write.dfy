/** The batched write to DynamoDB: requests are taken in batches of limited size, and those the
    server does not process are tried again. */
module BatchWrites {
  import opened ByteStrings
  import opened Sums

  const MAX_BATCH: int := 25
  const MAX_RETRIES: nat := 20

  datatype Table = Table(name: Bytes)

  datatype Request = Request(hash: Bytes, rangeValue: Bytes, value: Bytes)

  type Batch = map<Table, seq<Request>>

  function At(b: Batch, t: Table): seq<Request> {
    if t in b then b[t] else []
  }

  ghost function Lengths(b: Batch): (m: map<Table, int>)
    ensures m.Keys == b.Keys
  {
    map t | t in b :: |b[t]|
  }

  /** How many requests a batch has in all. */
  ghost function Len(b: Batch): int {
    SumOver(Lengths(b), b.Keys)
  }

  /** dictLen. */
  method DictLen(b: Batch) returns (n: int)
    ensures n == Len(b) && n >= 0
  {
    n := 0;
    var left := b.Keys;
    while left != {}
      invariant left <= b.Keys && n + SumOver(Lengths(b), left) == Len(b)
      decreases |left|
    {
      var t :| t in left;
      SumOverPick(Lengths(b), left, t);
      n := n + |b[t]|;
      left := left - {t};
    }
    SumIsPositive(Lengths(b), b.Keys);
  }

  lemma LenUpdate(b: Batch, t: Table, reqs: seq<Request>)
    ensures Len(b[t := reqs]) == Len(b) - |At(b, t)| + |reqs|
  {
    var d := |reqs| - |At(b, t)|;
    SumOverUpdate(Lengths(b), t, d);
    assert Lengths(b[t := reqs]) == Added(Lengths(b), t, d);
  }

  lemma LenIsPositive(b: Batch)
    ensures Len(b) >= 0
    ensures Len(b) == 0 ==> forall t :: At(b, t) == []
  {
    SumIsPositive(Lengths(b), b.Keys);
    forall t | t in b && b[t] != [] ensures Len(b) > 0 {
      SumOverPick(Lengths(b), b.Keys, t);
      SumIsPositive(Lengths(b), b.Keys - {t});
    }
  }

  /** The first of the one list have moved to the end of the other. */
  ghost predicate Shifted(a: seq<Request>, b: seq<Request>, a': seq<Request>, b': seq<Request>) {
    |a'| <= |a| && a' == a[|a| - |a'|..] && b' == b + a[..|a| - |a'|]
  }

  ghost predicate MovedAt(from: Batch, to: Batch, from': Batch, to': Batch, t: Table) {
    Shifted(At(from, t), At(to, t), At(from', t), At(to', t))
  }

  ghost predicate Moved(from: Batch, to: Batch, from': Batch, to': Batch) {
    (forall t :: MovedAt(from, to, from', to', t)) && Len(from') + Len(to') == Len(from) + Len(to)
  }

  /** How many requests takeReqs moves. */
  function ToFill(inLen: int, outLen: int, max: int): int {
    if max > 0 && max - outLen < inLen then max - outLen else inLen
  }

  function Min(a: int, b: int): int {
    if a < b then a else b
  }

  /** takeReqs: moves requests, table by table, until the other batch is full. */
  method TakeReqs(from: Batch, to: Batch, max: int) returns (from': Batch, to': Batch)
    ensures Moved(from, to, from', to')
    ensures var n := ToFill(Len(from), Len(to), max); Len(to') == Len(to) + if n > 0 then n else 0
  {
    from', to' := from, to;
    var outLen := DictLen(to);
    var inLen := DictLen(from);
    var toFill := inLen;
    if max > 0 {
      toFill := Min(inLen, max - outLen);
    }
    ghost var n := toFill;
    while toFill > 0
      invariant (toFill == n && from' == from && to' == to) || (toFill == 0 < n && Len(to') == Len(to) + n)
      invariant Moved(from, to, from', to')
      decreases toFill
    {
      from', to', toFill := TakePass(from', to', toFill);
    }
  }

  lemma MoveAt(from: Batch, to: Batch, t: Table, n: nat)
    requires t in from && n <= |from[t]|
    ensures var from', to' := from[t := from[t][n..]], to[t := At(to, t) + from[t][..n]];
            && MovedAt(from, to, from', to', t)
            && Len(from') == Len(from) - n && Len(to') == Len(to) + n
            && (forall u :: u != t ==> At(from', u) == At(from, u) && At(to', u) == At(to, u))
  {
    LenUpdate(to, t, At(to, t) + from[t][..n]);
    LenUpdate(from, t, from[t][n..]);
  }

  /** A pass that has yet to visit the tables `left` and to move `toFill` of `n` requests. */
  ghost predicate Passing(from: Batch, to: Batch, from': Batch, to': Batch, left: set<Table>, n: int, toFill: int) {
    && left <= from.Keys == from'.Keys && 0 <= toFill <= SumOver(Lengths(from), left)
    && (forall t :: t !in left ==> MovedAt(from, to, from', to', t))
    && (forall t :: t in left ==> At(from', t) == At(from, t) && At(to', t) == At(to, t))
    && Len(from') == Len(from) - (n - toFill) && Len(to') == Len(to) + (n - toFill)
  }

  lemma PassNone(from: Batch, to: Batch, from': Batch, to': Batch, left: set<Table>, n: int, toFill: int, t: Table)
    requires Passing(from, to, from', to', left, n, toFill) && t in left && Min(|from'[t]|, toFill) == 0
    ensures Passing(from, to, from', to', left - {t}, n, toFill)
  {
    SumOverPick(Lengths(from), left, t);
    SumIsPositive(Lengths(from), left - {t});
    assert Shifted(At(from, t), At(to, t), At(from, t), At(to, t));
  }

  lemma PassSome(from: Batch, to: Batch, from': Batch, to': Batch, left: set<Table>, n: int, toFill: int, t: Table,
                 from'': Batch, to'': Batch)
    requires Passing(from, to, from', to', left, n, toFill) && t in left && Min(|from'[t]|, toFill) > 0
    requires var taken := Min(|from'[t]|, toFill);
             from'' == from'[t := from'[t][taken..]] && to'' == to'[t := At(to', t) + from'[t][..taken]]
    ensures Passing(from, to, from'', to'', left - {t}, n, toFill - Min(|from'[t]|, toFill))
  {
    SumOverPick(Lengths(from), left, t);
    SumIsPositive(Lengths(from), left - {t});
    MoveAt(from', to', t, Min(|from'[t]|, toFill));
    forall u | u !in left - {t} ensures MovedAt(from, to, from'', to'', u) {
      assert u == t || MovedAt(from, to, from', to', u);
    }
  }

  /** One pass over the tables, in any order. */
  method TakePass(from: Batch, to: Batch, n: int) returns (from': Batch, to': Batch, toFill: int)
    requires 0 <= n <= Len(from)
    ensures Moved(from, to, from', to') && Len(to') == Len(to) + n && toFill == 0
  {
    from', to', toFill := from, to, n;
    var left := from.Keys;
    forall t | t !in left ensures MovedAt(from, to, from', to', t) {
    }
    while left != {}
      invariant Passing(from, to, from', to', left, n, toFill)
      decreases |left|
    {
      var t :| t in left;
      var fromReqs := from'[t];
      var taken := Min(|fromReqs|, toFill);
      if taken > 0 {
        ghost var from0, to0 := from', to';
        to' := to'[t := At(to', t) + fromReqs[..taken]];
        from' := from'[t := fromReqs[taken..]];
        PassSome(from, to, from0, to0, left, n, toFill, t, from', to');
        toFill := toFill - taken;
      } else {
        PassNone(from, to, from', to', left, n, toFill, t);
      }
      left := left - {t};
    }
  }

  // -------------------------------------------------- bags

  function BagAt(b: Batch, t: Table): multiset<Request> {
    multiset(At(b, t))
  }

  lemma ShiftedBags(a: seq<Request>, b: seq<Request>, a': seq<Request>, b': seq<Request>)
    requires Shifted(a, b, a', b')
    ensures multiset(a') + multiset(b') == multiset(a) + multiset(b)
  {
    var n := |a| - |a'|;
    assert a == a[..n] + a[n..];
  }

  /** Moving requests neither loses nor doubles any. */
  lemma MovedBags(from: Batch, to: Batch, from': Batch, to': Batch)
    requires Moved(from, to, from', to')
    ensures forall t :: BagAt(from', t) + BagAt(to', t) == BagAt(from, t) + BagAt(to, t)
  {
    forall t ensures BagAt(from', t) + BagAt(to', t) == BagAt(from, t) + BagAt(to, t) {
      assert MovedAt(from, to, from', to', t);
      ShiftedBags(At(from, t), At(to, t), At(from', t), At(to', t));
    }
  }

  // -------------------------------------------------- the server

  datatype Error = NoError | ThroughputExceeded | OtherError

  datatype Response = Response(unprocessed: Batch, err: Error)

  /** A server leaves unprocessed only what it was sent. */
  ghost predicate Legit(reqs: Batch, resp: Response) {
    forall t :: BagAt(resp.unprocessed, t) <= BagAt(reqs, t)
  }

  datatype Round = Round(sent: Batch, resp: Response)

  /** What of a round was not committed: what came back, or everything when the throughput was
      exceeded. */
  ghost function Kept(r: Round): Batch {
    if Len(r.resp.unprocessed) > 0 then r.resp.unprocessed
    else if r.resp.err == ThroughputExceeded then r.sent
    else map[]
  }

  ghost function CommittedAt(log: seq<Round>, t: Table): multiset<Request> {
    if log == [] then multiset{}
    else CommittedAt(log[..|log| - 1], t) + (BagAt(log[|log| - 1].sent, t) - BagAt(Kept(log[|log| - 1]), t))
  }

  /** The throughput errors since the last round that was taken in full. Rounds of which part
      came back count for nothing. */
  ghost function Retries(log: seq<Round>): nat {
    if log == [] then 0 else NextRetries(Retries(log[..|log| - 1]), log[|log| - 1])
  }

  ghost function NextRetries(before: nat, last: Round): nat {
    if Len(last.resp.unprocessed) > 0 then before
    else if last.resp.err == ThroughputExceeded then before + 1
    else 0
  }

  /** What is outstanding, unprocessed and committed is what there was to write. */
  ghost predicate Conserved(input: Batch, outstanding: Batch, unprocessed: Batch, log: seq<Round>) {
    forall t :: BagAt(outstanding, t) + BagAt(unprocessed, t) + CommittedAt(log, t) == BagAt(input, t)
  }

  ghost predicate Sized(log: seq<Round>) {
    forall k :: 0 <= k < |log| ==> 1 <= Len(log[k].sent) <= MAX_BATCH
  }

  datatype Result =
    | Success
    | Fatal
    | GaveUp(outstanding: Batch, unprocessed: Batch)
    | Running(outstanding: Batch, unprocessed: Batch)

  /** The server sends everything back every time, without an error. */
  ghost predicate ReturnsAll(server: (nat, Batch) -> Response) {
    forall n, reqs :: server(n, reqs) == Response(reqs, NoError)
  }

  /** The requests of one round have been taken from those to write: 25, or all there are, and others
      only when no unprocessed ones are left. */
  ghost predicate Filled(outstanding: Batch, unprocessed: Batch, o: Batch, u: Batch, reqs: Batch) {
    && 1 <= Len(reqs) <= MAX_BATCH && Len(o) + Len(u) + Len(reqs) == Len(outstanding) + Len(unprocessed)
    && Len(reqs) == Min(25, Len(outstanding) + Len(unprocessed))
    && Len(u) == (if Len(unprocessed) <= 25 then 0 else Len(unprocessed) - 25)
    && (forall t :: BagAt(o, t) + BagAt(u, t) + BagAt(reqs, t) == BagAt(outstanding, t) + BagAt(unprocessed, t))
    && (forall t :: TakenInOrder(At(unprocessed, t), At(outstanding, t), At(u, t), At(o, t), At(reqs, t)))
  }

  /** The requests of a round begin with the first of the unprocessed ones and go on with the first of
      the others. */
  ghost predicate TakenInOrder(unprocessed: seq<Request>, outstanding: seq<Request>, u: seq<Request>, o: seq<Request>, reqs: seq<Request>) {
    && |u| <= |unprocessed| && |unprocessed| - |u| <= |reqs|
    && var k := |unprocessed| - |u|; unprocessed == reqs[..k] + u && outstanding == reqs[k..] + o
  }

  /** Takes the requests of one round: unprocessed ones first. */
  method FillRound(outstanding: Batch, unprocessed: Batch) returns (o: Batch, u: Batch, reqs: Batch)
    requires Len(outstanding) + Len(unprocessed) > 0
    ensures Filled(outstanding, unprocessed, o, u, reqs)
  {
    LenIsPositive(outstanding);
    LenIsPositive(unprocessed);
    var none: Batch := map[];
    var some;
    u, some := TakeReqs(unprocessed, none, MAX_BATCH);
    o, reqs := TakeReqs(outstanding, some, MAX_BATCH);
    FilledBags(outstanding, unprocessed, none, u, some, o, reqs);
    FilledInOrder(outstanding, unprocessed, none, u, some, o, reqs);
  }

  lemma FilledBags(outstanding: Batch, unprocessed: Batch, none: Batch, u: Batch, some: Batch, o: Batch, reqs: Batch)
    requires none == map[] && Moved(unprocessed, none, u, some) && Moved(outstanding, some, o, reqs)
    ensures forall t :: BagAt(o, t) + BagAt(u, t) + BagAt(reqs, t) == BagAt(outstanding, t) + BagAt(unprocessed, t)
  {
    MovedBags(unprocessed, none, u, some);
    MovedBags(outstanding, some, o, reqs);
    forall t ensures BagAt(o, t) + BagAt(u, t) + BagAt(reqs, t) == BagAt(outstanding, t) + BagAt(unprocessed, t) {
      assert BagAt(none, t) == multiset{};
      assert BagAt(u, t) + BagAt(some, t) == BagAt(unprocessed, t) + BagAt(none, t);
      TwoMoves(BagAt(u, t), BagAt(some, t), BagAt(unprocessed, t), BagAt(o, t), BagAt(reqs, t), BagAt(outstanding, t));
    }
  }

  lemma FilledInOrder(outstanding: Batch, unprocessed: Batch, none: Batch, u: Batch, some: Batch, o: Batch, reqs: Batch)
    requires none == map[] && Moved(unprocessed, none, u, some) && Moved(outstanding, some, o, reqs)
    ensures forall t :: TakenInOrder(At(unprocessed, t), At(outstanding, t), At(u, t), At(o, t), At(reqs, t))
  {
    forall t ensures TakenInOrder(At(unprocessed, t), At(outstanding, t), At(u, t), At(o, t), At(reqs, t)) {
      assert MovedAt(unprocessed, none, u, some, t) && MovedAt(outstanding, some, o, reqs, t);
      InOrder(At(unprocessed, t), At(u, t), At(some, t), At(outstanding, t), At(o, t), At(reqs, t));
    }
  }

  lemma InOrder(unprocessed: seq<Request>, u: seq<Request>, some: seq<Request>, outstanding: seq<Request>, o: seq<Request>, reqs: seq<Request>)
    requires Shifted(unprocessed, [], u, some) && Shifted(outstanding, some, o, reqs)
    ensures TakenInOrder(unprocessed, outstanding, u, o, reqs)
  {
    var k := |unprocessed| - |u|;
    assert unprocessed == unprocessed[..k] + u && some == unprocessed[..k];
    assert reqs[..k] == some && reqs[k..] == outstanding[..|outstanding| - |o|];
  }

  lemma TwoMoves<T(!new)>(u: multiset<T>, some: multiset<T>, unp: multiset<T>, o: multiset<T>, reqs: multiset<T>, out: multiset<T>)
    requires u + some == unp && o + reqs == out + some
    ensures o + u + reqs == out + unp
  {
    forall x ensures (o + u + reqs)[x] == (out + unp)[x] {
      assert (u + some)[x] == unp[x] && (o + reqs)[x] == (out + some)[x];
    }
  }

  /** A round in which `kept` of what was sent stays behind. */
  lemma OneExchange<T(!new)>(o: multiset<T>, u: multiset<T>, sent: multiset<T>, out: multiset<T>, unp: multiset<T>,
                             done: multiset<T>, input: multiset<T>, kept: multiset<T>, u': multiset<T>)
    requires o + u + sent == out + unp && out + unp + done == input && kept <= sent && u' == kept + u
    ensures o + u' + (done + (sent - kept)) == input
  {
    forall x ensures (o + u' + (done + (sent - kept)))[x] == input[x] {
      assert (o + u + sent)[x] == (out + unp)[x] && (out + unp + done)[x] == input[x];
      assert kept[x] <= sent[x];
    }
  }

  /** Puts what was not committed with the unprocessed requests. */
  method PutBack(kept: Batch, unprocessed: Batch) returns (u: Batch)
    ensures Len(u) == Len(kept) + Len(unprocessed)
    ensures forall t :: At(u, t) == At(unprocessed, t) + At(kept, t)
    ensures forall t :: BagAt(u, t) == BagAt(kept, t) + BagAt(unprocessed, t)
  {
    var rest;
    LenIsPositive(kept);
    rest, u := TakeReqs(kept, unprocessed, -1);
    MovedBags(kept, unprocessed, rest, u);
    LenIsPositive(rest);
    AllMoved(kept, unprocessed, rest, u);
  }

  lemma AllMoved(from: Batch, to: Batch, from': Batch, to': Batch)
    requires Moved(from, to, from', to') && forall t :: At(from', t) == []
    ensures forall t :: At(to', t) == At(to, t) + At(from, t)
  {
    forall t ensures At(to', t) == At(to, t) + At(from, t) {
      assert MovedAt(from, to, from', to', t);
    }
  }

  lemma RoundConserves(input: Batch, outstanding: Batch, unprocessed: Batch, log: seq<Round>,
                       o: Batch, u: Batch, round: Round, u': Batch)
    requires Conserved(input, outstanding, unprocessed, log) && Legit(round.sent, round.resp)
    requires forall t :: BagAt(o, t) + BagAt(u, t) + BagAt(round.sent, t) == BagAt(outstanding, t) + BagAt(unprocessed, t)
    requires forall t :: BagAt(u', t) == BagAt(Kept(round), t) + BagAt(u, t)
    ensures Conserved(input, o, u', log + [round])
  {
    forall t ensures BagAt(o, t) + BagAt(u', t) + CommittedAt(log + [round], t) == BagAt(input, t) {
      CommittedNext(log, round, t);
      KeptIsSent(round, t);
      OneExchange(BagAt(o, t), BagAt(u, t), BagAt(round.sent, t), BagAt(outstanding, t), BagAt(unprocessed, t),
                  CommittedAt(log, t), BagAt(input, t), BagAt(Kept(round), t), BagAt(u', t));
    }
  }

  lemma CommittedNext(log: seq<Round>, round: Round, t: Table)
    ensures CommittedAt(log + [round], t) == CommittedAt(log, t) + (BagAt(round.sent, t) - BagAt(Kept(round), t))
  {
    assert (log + [round])[..|log|] == log;
  }

  lemma KeptIsSent(round: Round, t: Table)
    requires Legit(round.sent, round.resp)
    ensures BagAt(Kept(round), t) <= BagAt(round.sent, t)
  {
  }

  // -------------------------------------------------- how long it takes

  /** What a round comes to: all is taken, part of it, none of it without an error, or none of it
      because the throughput was exceeded. */
  datatype Kind = Whole | Part | Stall | Throttle

  ghost function KindOf(r: Round): Kind {
    if Len(r.resp.unprocessed) > 0 then (if Len(r.resp.unprocessed) < Len(r.sent) then Part else Stall)
    else if r.resp.err == ThroughputExceeded then Throttle
    else Whole
  }

  ghost function Count(log: seq<Round>, kind: Kind): nat {
    if log == [] then 0
    else Count(log[..|log| - 1], kind) + if KindOf(log[|log| - 1]) == kind then 1 else 0
  }

  lemma CountNext(log: seq<Round>, round: Round)
    ensures forall kind :: Count(log + [round], kind) == Count(log, kind) + if KindOf(round) == kind then 1 else 0
    ensures Retries(log + [round]) == NextRetries(Retries(log), round)
  {
    assert (log + [round])[..|log|] == log;
  }

  /** The rounds that make no headway: all that was sent came back, and no retry is counted. */
  ghost function Stalled(log: seq<Round>): nat {
    Count(log, Stall)
  }

  /** With `left` requests to go: each round of headway has taken at least one, and the throughput
      errors between rounds that are taken whole are counted as retries. */
  ghost predicate Paced(input: Batch, left: int, log: seq<Round>) {
    && Count(log, Whole) + Count(log, Part) <= Len(input) - left
    && |log| == Count(log, Whole) + Count(log, Part) + Count(log, Stall) + Count(log, Throttle)
    && Count(log, Throttle) <= AllRetries(Count(log, Whole)) + Retries(log)
    && Retries(log) <= MAX_RETRIES
  }

  /** The retries that so many rounds taken whole allow. */
  function AllRetries(n: int): (r: int)
    ensures r == 20 * n
  {
    MAX_RETRIES * n
  }

  /** What is left of a round: less than was sent if it made headway. */
  ghost predicate Fits(round: Round) {
    && Len(Kept(round)) <= Len(round.sent)
    && (KindOf(round) in {Whole, Part} ==> Len(Kept(round)) < Len(round.sent))
  }

  lemma RoundFits(round: Round)
    requires Legit(round.sent, round.resp) && Len(round.sent) >= 1
    ensures Fits(round)
  {
    LegitLen(round.sent, round.resp);
  }

  lemma PacedNext(input: Batch, left: int, log: seq<Round>, round: Round, left': int)
    requires Paced(input, left, log) && Retries(log) < MAX_RETRIES && Fits(round)
    requires left' == left - Len(round.sent) + Len(Kept(round))
    ensures Paced(input, left', log + [round])
  {
    CountNext(log, round);
    var kind := KindOf(round);
    assert Retries(log + [round]) == if kind == Throttle then Retries(log) + 1 else if kind == Whole then 0 else Retries(log);
  }

  /** A server sends back no more than it was sent. */
  lemma LegitLen(reqs: Batch, resp: Response)
    requires Legit(reqs, resp)
    ensures Len(resp.unprocessed) <= Len(reqs) && Len(map[]) == 0
  {
    var keys := resp.unprocessed.Keys;
    PartLen(reqs, resp, keys);
    SumOfPart(Lengths(reqs), keys * reqs.Keys, reqs.Keys);
  }

  lemma {:induction false} PartLen(reqs: Batch, resp: Response, keys: set<Table>)
    requires Legit(reqs, resp) && keys <= resp.unprocessed.Keys
    ensures SumOver(Lengths(resp.unprocessed), keys) <= SumOver(Lengths(reqs), keys * reqs.Keys)
  {
    if keys != {} {
      var t :| t in keys;
      PartLen(reqs, resp, keys - {t});
      SumOverPick(Lengths(resp.unprocessed), keys, t);
      assert BagAt(resp.unprocessed, t) <= BagAt(reqs, t);
      BagLen(At(resp.unprocessed, t), At(reqs, t));
      if t in reqs {
        SumOverPick(Lengths(reqs), keys * reqs.Keys, t);
        assert keys * reqs.Keys - {t} == (keys - {t}) * reqs.Keys;
      } else {
        assert keys * reqs.Keys == (keys - {t}) * reqs.Keys;
      }
    }
  }

  lemma BagLen(a: seq<Request>, b: seq<Request>)
    requires multiset(a) <= multiset(b)
    ensures |a| <= |b|
  {
    assert multiset(b) == multiset(a) + (multiset(b) - multiset(a));
    assert |multiset(a)| == |a| && |multiset(b)| == |b|;
  }

  lemma {:induction false} SumOfPart(m: map<Table, int>, some: set<Table>, all: set<Table>)
    requires some <= all <= m.Keys && forall k :: k in m ==> m[k] >= 0
    ensures SumOver(m, some) <= SumOver(m, all)
    decreases |all - some|
  {
    if all - some == {} {
      assert some == all;
    } else {
      var k :| k in all - some;
      SumOverPick(m, some + {k}, k);
      assert some + {k} - {k} == some;
      SumOfPart(m, some + {k}, all);
    }
  }

  /** How many rounds there can be besides those that stall. */
  function RoundLimit(n: int): int {
    n + AllRetries(n + 1)
  }

  lemma PacedIsBounded(input: Batch, left: int, log: seq<Round>)
    requires Paced(input, left, log) && left >= 0
    ensures |log| <= RoundLimit(Len(input)) + Stalled(log)
  {
    assert Count(log, Whole) <= Len(input);
  }

  /** The server takes something whenever it sends something back. */
  ghost predicate MakesHeadway(server: (nat, Batch) -> Response) {
    forall n, reqs :: Len(server(n, reqs).unprocessed) > 0 ==> Len(server(n, reqs).unprocessed) < Len(reqs)
  }

  /** The answers in the log are the server's. */
  ghost predicate FromServer(server: (nat, Batch) -> Response, log: seq<Round>) {
    forall k :: 0 <= k < |log| ==> log[k].resp == server(k, log[k].sent)
  }

  lemma {:induction false} HeadwayNeverStalls(server: (nat, Batch) -> Response, log: seq<Round>)
    requires MakesHeadway(server) && FromServer(server, log)
    ensures Stalled(log) == 0
  {
    if log != [] {
      HeadwayNeverStalls(server, log[..|log| - 1]);
    }
  }

  lemma {:induction false} ReturningAllStalls(server: (nat, Batch) -> Response, log: seq<Round>)
    requires ReturnsAll(server) && FromServer(server, log) && Sized(log)
    ensures Stalled(log) == |log|
  {
    if log != [] {
      ReturningAllStalls(server, log[..|log| - 1]);
    }
  }

  /** The loop between two rounds. */
  ghost predicate Underway(server: (nat, Batch) -> Response, input: Batch, outstanding: Batch, unprocessed: Batch,
                           numRetries: nat, log: seq<Round>) {
    && Sized(log) && FromServer(server, log) && numRetries == Retries(log)
    && Conserved(input, outstanding, unprocessed, log) && Paced(input, Len(outstanding) + Len(unprocessed), log)
    && (ReturnsAll(server) ==> numRetries == 0 && Len(outstanding) + Len(unprocessed) == Len(input))
  }

  /** The variables of the loop, with the rounds so far, and whether the last was fatal. */
  datatype Loop = Loop(outstanding: Batch, unprocessed: Batch, retries: nat, log: seq<Round>, fatal: bool)

  /** There is another round. */
  ghost predicate Goes(s: Loop) {
    !s.fatal && Len(s.outstanding) + Len(s.unprocessed) > 0 && s.retries < MAX_RETRIES
  }

  /** One round, in which `reqs` are sent and `rest` stays unprocessed. */
  ghost predicate RoundOf(server: (nat, Batch) -> Response, s: Loop, s': Loop, rest: Batch, reqs: Batch) {
    var round := Round(reqs, server(|s.log|, reqs));
    && Filled(s.outstanding, s.unprocessed, s'.outstanding, rest, reqs)
    && Settled(rest, round, s.retries, s'.fatal, s'.unprocessed, s'.retries)
    && s'.log == s.log + [round]
  }

  /** A step of the loop; a loop that has ended stays as it is. */
  ghost predicate Steps(server: (nat, Batch) -> Response, s: Loop, s': Loop) {
    if Goes(s) then exists rest, reqs :: RoundOf(server, s, s', rest, reqs) else s' == s
  }

  /** What every step of the loop keeps. */
  ghost predicate LoopKeeps(server: (nat, Batch) -> Response, input: Batch, s: Loop) {
    && Sized(s.log) && FromServer(server, s.log)
    && if s.fatal then EndedBadly(server, input, s.log)
       else Underway(server, input, s.outstanding, s.unprocessed, s.retries, s.log)
  }

  ghost predicate EndedBadly(server: (nat, Batch) -> Response, input: Batch, log: seq<Round>) {
    && log != [] && log[|log| - 1].resp.err == OtherError && !ReturnsAll(server)
    && |log| <= RoundLimit(Len(input)) + Stalled(log) + 1
  }

  lemma StepKeeps(server: (nat, Batch) -> Response, input: Batch, s: Loop, s': Loop)
    requires (forall n, reqs :: Legit(reqs, server(n, reqs))) && LoopKeeps(server, input, s) && Steps(server, s, s')
    ensures LoopKeeps(server, input, s')
  {
    if Goes(s) {
      var rest, reqs :| RoundOf(server, s, s', rest, reqs);
      var round := Round(reqs, server(|s.log|, reqs));
      AnswersNext(server, s.log, round);
      if s'.fatal {
        PacedRounds(input, s.outstanding, s.unprocessed, s.log, server);
        CountNext(s.log, round);
      } else {
        GoesOn(server, input, s.outstanding, s.unprocessed, s.log, s'.outstanding, rest, round, s'.unprocessed);
      }
    }
  }

  /** The body of the loop of BatchWrite. */
  method OneRound(server: (nat, Batch) -> Response, outstanding: Batch, unprocessed: Batch, numRetries: nat, log: seq<Round>)
    returns (fatal: bool, o: Batch, u: Batch, retries: nat, log': seq<Round>)
    requires Len(outstanding) + Len(unprocessed) > 0 && numRetries < MAX_RETRIES
    ensures |log'| == |log| + 1
    ensures Steps(server, Loop(outstanding, unprocessed, numRetries, log, false), Loop(o, u, retries, log', fatal))
  {
    var reqs, rest;
    o, rest, reqs := FillRound(outstanding, unprocessed);
    var round := Round(reqs, server(|log|, reqs));
    log' := log + [round];
    fatal, u, retries := Settle(rest, round, numRetries);
    assert RoundOf(server, Loop(outstanding, unprocessed, numRetries, log, false), Loop(o, u, retries, log', fatal), rest, reqs);
  }

  lemma GoesOn(server: (nat, Batch) -> Response, input: Batch, outstanding: Batch, unprocessed: Batch, log: seq<Round>,
               o: Batch, rest: Batch, round: Round, u: Batch)
    requires Underway(server, input, outstanding, unprocessed, Retries(log), log) && Retries(log) < MAX_RETRIES
    requires Legit(round.sent, round.resp) && round.resp == server(|log|, round.sent)
    requires Filled(outstanding, unprocessed, o, rest, round.sent)
    requires Settled(rest, round, Retries(log), false, u, NextRetries(Retries(log), round))
    ensures Underway(server, input, o, u, NextRetries(Retries(log), round), log + [round])
  {
    CountNext(log, round);
    RoundConserves(input, outstanding, unprocessed, log, o, rest, round, u);
    RoundFits(round);
    PacedNext(input, Len(outstanding) + Len(unprocessed), log, round, Len(o) + Len(u));
    AnswersNext(server, log, round);
  }

  lemma AnswersNext(server: (nat, Batch) -> Response, log: seq<Round>, round: Round)
    requires Sized(log) && FromServer(server, log) && round.resp == server(|log|, round.sent) && 1 <= Len(round.sent) <= MAX_BATCH
    ensures Sized(log + [round]) && FromServer(server, log + [round])
    ensures ReturnsAll(server) ==> Kept(round) == round.sent && NextRetries(0, round) == 0
  {
  }

  /** The answer of the server has been dealt with: an error that came alone ends the loop, and
      otherwise what was not committed is unprocessed again. */
  ghost predicate Settled(rest: Batch, round: Round, numRetries: nat, fatal: bool, u: Batch, retries: nat) {
    && (fatal <==> round.resp.err == OtherError && Len(round.resp.unprocessed) <= 0)
    && (!fatal ==>
          && retries == NextRetries(numRetries, round) && Len(u) == Len(Kept(round)) + Len(rest)
          && (forall t :: At(u, t) == At(rest, t) + At(Kept(round), t))
          && forall t :: BagAt(u, t) == BagAt(Kept(round), t) + BagAt(rest, t))
  }

  /** What is done with the answer of the server. */
  method Settle(rest: Batch, round: Round, numRetries: nat) returns (fatal: bool, u: Batch, retries: nat)
    ensures Settled(rest, round, numRetries, fatal, u, retries)
  {
    fatal, retries, u := false, numRetries, rest;
    var back := DictLen(round.resp.unprocessed);
    if back > 0 {
      u := PutBack(round.resp.unprocessed, rest);
    } else if round.resp.err == ThroughputExceeded {
      u := PutBack(round.sent, rest);
      retries := numRetries + 1;
    } else if round.resp.err != NoError {
      fatal := true;
    } else {
      retries := 0;
    }
  }

  /** The states of the loop, from the first on. */
  ghost predicate IsStart(server: (nat, Batch) -> Response, input: Batch, states: seq<Loop>) {
    && states != [] && states[0] == Loop(input, map[], 0, [], false)
    && forall k :: 0 < k < |states| ==> Steps(server, states[k - 1], states[k])
  }

  /** BatchWrite against a server, for so many rounds at most. It is still running after them only
      if all but a bounded number of them stalled; so it ends against a server that takes something
      whenever it sends something back, and never against one that sends everything back. */
  method BatchWrite(input: Batch, server: (nat, Batch) -> Response, rounds: nat)
    returns (r: Result, log: seq<Round>, ghost states: seq<Loop>)
    requires forall n, reqs :: Legit(reqs, server(n, reqs))
    ensures |log| <= rounds && Sized(log) && FromServer(server, log)
    ensures r.Success? ==> forall t :: CommittedAt(log, t) == BagAt(input, t)
    ensures r.GaveUp? || r.Running? ==> Conserved(input, r.outstanding, r.unprocessed, log)
    ensures r.GaveUp? ==> Retries(log) == MAX_RETRIES && Len(r.outstanding) + Len(r.unprocessed) > 0
    ensures r.Fatal? ==> log != [] && log[|log| - 1].resp.err == OtherError
    ensures |log| <= RoundLimit(Len(input)) + Stalled(log) + if r.Fatal? then 1 else 0
    ensures r.Running? ==> |log| == rounds && rounds - RoundLimit(Len(input)) <= Stalled(log) <= rounds
    ensures MakesHeadway(server) && rounds > RoundLimit(Len(input)) ==> !r.Running?
    ensures ReturnsAll(server) && Len(input) > 0 ==> r.Running? && Stalled(log) == rounds
    ensures IsStart(server, input, states) && |states| == |log| + 1 && states[|log|].log == log
    ensures r.Running? <==> Goes(states[|log|])
  {
    var fatal, outstanding, unprocessed, numRetries;
    fatal, outstanding, unprocessed, numRetries, log, states := RunRounds(input, server, rounds);
    if fatal {
      return Fatal, log, states;
    }
    PacedRounds(input, outstanding, unprocessed, log, server);
    var more := HasMore(outstanding, unprocessed);
    if more && numRetries < MAX_RETRIES {
      return Running(outstanding, unprocessed), log, states;
    }
    if more {
      return GaveUp(outstanding, unprocessed), log, states;
    }
    r := Success;
  }

  /** The loop of BatchWrite. */
  method RunRounds(input: Batch, server: (nat, Batch) -> Response, rounds: nat)
    returns (fatal: bool, outstanding: Batch, unprocessed: Batch, numRetries: nat, log: seq<Round>, ghost states: seq<Loop>)
    requires forall n, reqs :: Legit(reqs, server(n, reqs))
    ensures |log| <= rounds && Arrives(server, input, states, Loop(outstanding, unprocessed, numRetries, log, fatal))
    ensures |log| < rounds ==> !Goes(states[|log|])
  {
    fatal, log, outstanding, unprocessed, numRetries := false, [], input, map[], 0;
    StartKeeps(server, input);
    states := [Loop(input, map[], 0, [], false)];
    while |log| < rounds
      invariant |log| <= rounds && !fatal
      invariant Arrives(server, input, states, Loop(outstanding, unprocessed, numRetries, log, fatal))
      decreases rounds - |log|
    {
      var more := HasMore(outstanding, unprocessed);
      if !more || numRetries >= MAX_RETRIES {
        return;
      }
      ghost var before := Loop(outstanding, unprocessed, numRetries, log, fatal);
      fatal, outstanding, unprocessed, numRetries, log := OneRound(server, outstanding, unprocessed, numRetries, log);
      ghost var after := Loop(outstanding, unprocessed, numRetries, log, fatal);
      Arriving(server, input, states, before, after);
      states := states + [after];
      if fatal {
        return;
      }
    }
  }

  /** The loop has come to a state in as many steps as it has made rounds. */
  ghost predicate Arrives(server: (nat, Batch) -> Response, input: Batch, states: seq<Loop>, s: Loop) {
    IsStart(server, input, states) && |states| == |s.log| + 1 && states[|s.log|] == s && LoopKeeps(server, input, s)
  }

  lemma Arriving(server: (nat, Batch) -> Response, input: Batch, states: seq<Loop>, s: Loop, s': Loop)
    requires (forall n, reqs :: Legit(reqs, server(n, reqs))) && Arrives(server, input, states, s)
    requires Steps(server, s, s') && |s'.log| == |s.log| + 1
    ensures Arrives(server, input, states + [s'], s')
  {
    StepKeeps(server, input, s, s');
    var more := states + [s'];
    forall k | 0 < k < |more| ensures Steps(server, more[k - 1], more[k]) {
      assert k < |states| ==> more[k] == states[k] && more[k - 1] == states[k - 1];
    }
  }

  lemma StartKeeps(server: (nat, Batch) -> Response, input: Batch)
    ensures LoopKeeps(server, input, Loop(input, map[], 0, [], false))
  {
    assert Conserved(input, input, map[], []);
  }

  lemma PacedRounds(input: Batch, outstanding: Batch, unprocessed: Batch, log: seq<Round>, server: (nat, Batch) -> Response)
    requires Paced(input, Len(outstanding) + Len(unprocessed), log) && FromServer(server, log) && Sized(log)
    ensures |log| <= RoundLimit(Len(input)) + Stalled(log) && Stalled(log) <= |log|
    ensures MakesHeadway(server) ==> Stalled(log) == 0
    ensures ReturnsAll(server) ==> Stalled(log) == |log|
  {
    LenIsPositive(outstanding);
    LenIsPositive(unprocessed);
    PacedIsBounded(input, Len(outstanding) + Len(unprocessed), log);
    if MakesHeadway(server) {
      HeadwayNeverStalls(server, log);
    }
    if ReturnsAll(server) {
      ReturningAllStalls(server, log);
    }
  }

  method HasMore(outstanding: Batch, unprocessed: Batch) returns (more: bool)
    ensures more <==> Len(outstanding) + Len(unprocessed) > 0
    ensures !more ==> forall t :: At(outstanding, t) == [] && At(unprocessed, t) == []
  {
    var n := DictLen(outstanding);
    var m := DictLen(unprocessed);
    LenIsPositive(outstanding);
    LenIsPositive(unprocessed);
    more := n + m > 0;
  }

  lemma {:induction false} CountIsPart(log: seq<Round>, kind: Kind)
    ensures Count(log, kind) <= |log|
  {
    if log != [] {
      CountIsPart(log[..|log| - 1], kind);
    }
  }
}

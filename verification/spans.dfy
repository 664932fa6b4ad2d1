/** Chunks of samples with the times of their descriptors: their samples one after the other, what
    of them is in an interval, and when they are in the order that reading them relies on. */
module Spans {
  import opened SortedLists
  import opened Samples

  /** The samples of a chunk, in order. */
  datatype Chunk = Chunk(samples: seq<Sample>)

  /** A chunk with the times of its descriptor. */
  datatype Span = Span(first: int, last: int, c: Chunk)

  function ChunksOf(spans: seq<Span>): (r: seq<Chunk>)
  {
    seq(|spans|, k requires 0 <= k < |spans| => spans[k].c)
  }

  function Concat(chunks: seq<Chunk>): seq<Sample> {
    if chunks == [] then [] else Concat(chunks[..|chunks| - 1]) + chunks[|chunks| - 1].samples
  }

  lemma {:induction false} ConcatAppend(a: seq<Chunk>, b: seq<Chunk>)
    ensures Concat(a + b) == Concat(a) + Concat(b)
  {
    if b == [] {
      assert a + b == a;
    } else {
      var n := |b| - 1;
      assert (a + b)[..|a + b| - 1] == a + b[..n];
      ConcatAppend(a, b[..n]);
    }
  }

  lemma ConcatOne(c: Chunk)
    ensures Concat([c]) == c.samples
  {
    assert [c][..0] == [];
  }

  /** All samples of the chunks, one after the other. */
  function Held(spans: seq<Span>): seq<Sample> {
    Concat(ChunksOf(spans))
  }

  lemma HeldAppend(a: seq<Span>, b: seq<Span>)
    ensures Held(a + b) == Held(a) + Held(b)
  {
    assert ChunksOf(a + b) == ChunksOf(a) + ChunksOf(b);
    ConcatAppend(ChunksOf(a), ChunksOf(b));
  }

  lemma HeldOne(d: Span)
    ensures Held([d]) == d.c.samples
  {
    assert ChunksOf([d]) == [d.c];
    ConcatOne(d.c);
  }

  lemma HeldWithLast(spans: seq<Span>)
    requires spans != []
    ensures Held(spans) == Held(spans[..|spans| - 1]) + spans[|spans| - 1].c.samples
  {
    assert ChunksOf(spans)[..|spans| - 1] == ChunksOf(spans[..|spans| - 1]);
  }

  lemma LastOfConcat(chunks: seq<Chunk>, v: Sample)
    requires chunks != [] && chunks[|chunks| - 1].samples != [] && Concat(chunks) != [] && Concat(chunks)[|Concat(chunks)| - 1] == v
    ensures var last := chunks[|chunks| - 1].samples; last[|last| - 1] == v
  {
    var last := chunks[|chunks| - 1].samples;
    assert Concat(chunks) == Concat(chunks[..|chunks| - 1]) + last;
  }

  lemma Regroup(a: seq<Sample>, b: seq<Sample>, c: seq<Sample>)
    ensures a + (b + c) == a + b + c
  {
  }

  /** RangeValues: the samples of an interval. */
  function InRange(s: seq<Sample>, from: int, through: int): seq<Sample> {
    if s == [] then []
    else InRange(s[..|s| - 1], from, through) + (if from <= s[|s| - 1].timestamp <= through then [s[|s| - 1]] else [])
  }

  /** They are exactly the samples with a time in it, both ends included, as often and in the order
      as they are there. */
  lemma {:induction false} InRangeSelects(s: seq<Sample>, from: int, through: int) returns (ks: seq<nat>)
    ensures Selects(s, (x: Sample) => from <= x.timestamp <= through, ks) && InRange(s, from, through) == Picked(s, ks)
  {
    if s == [] {
      ks := [];
    } else {
      var n := |s| - 1;
      ks := InRangeSelects(s[..n], from, through);
      SelectsNext(s, (x: Sample) => from <= x.timestamp <= through, ks);
      ks := if from <= s[n].timestamp <= through then ks + [n] else ks;
    }
  }

  lemma {:induction false} InRangeAppend(a: seq<Sample>, b: seq<Sample>, from: int, through: int)
    ensures InRange(a + b, from, through) == InRange(a, from, through) + InRange(b, from, through)
  {
    if b == [] {
      assert a + b == a;
    } else {
      assert (a + b)[..|a + b| - 1] == a + b[..|b| - 1];
      InRangeAppend(a, b[..|b| - 1], from, through);
    }
  }

  ghost predicate Within(c: Chunk, first: int, last: int) {
    forall k :: 0 <= k < |c.samples| ==> first <= c.samples[k].timestamp <= last
  }

  /** No sample of the chunk is in the interval. */
  ghost predicate Outside(c: Chunk, from: int, through: int) {
    forall k :: 0 <= k < |c.samples| ==> !(from <= c.samples[k].timestamp <= through)
  }

  lemma {:induction false} OutsideOne(s: seq<Sample>, from: int, through: int)
    requires Outside(Chunk(s), from, through)
    ensures InRange(s, from, through) == []
  {
    if s != [] {
      OutsideOne(s[..|s| - 1], from, through);
    }
  }

  lemma {:induction false} OutsideAll(spans: seq<Span>, from: int, through: int)
    requires forall k :: 0 <= k < |spans| ==> Outside(spans[k].c, from, through)
    ensures InRange(Held(spans), from, through) == []
  {
    if spans != [] {
      var n := |spans| - 1;
      OutsideAll(spans[..n], from, through);
      OutsideOne(spans[n].c.samples, from, through);
      InRangeOneMore(spans, n, from, through);
      assert spans[..n + 1] == spans;
    }
  }

  lemma InRangeOneMore(spans: seq<Span>, n: nat, from: int, through: int)
    requires n < |spans|
    ensures InRange(Held(spans[..n + 1]), from, through)
         == InRange(Held(spans[..n]), from, through) + InRange(spans[n].c.samples, from, through)
  {
    assert spans[..n + 1] == spans[..n] + [spans[n]];
    HeldAppend(spans[..n], [spans[n]]);
    HeldOne(spans[n]);
    InRangeAppend(Held(spans[..n]), spans[n].c.samples, from, through);
  }

  /** The chunks from `lo` up to `hi`, none when they have crossed. */
  function Slice(spans: seq<Span>, lo: nat, hi: nat): seq<Span>
    requires lo <= |spans| && hi <= |spans|
  {
    if lo <= hi then spans[lo..hi] else []
  }

  lemma OutsideEnds(a: seq<Span>, b: seq<Span>, from: int, through: int)
    ensures (forall k :: 0 <= k < |b| ==> Outside(b[k].c, from, through)) ==>
            InRange(Held(a + b), from, through) == InRange(Held(a), from, through)
    ensures (forall k :: 0 <= k < |a| ==> Outside(a[k].c, from, through)) ==>
            InRange(Held(a + b), from, through) == InRange(Held(b), from, through)
  {
    HeldAppend(a, b);
    InRangeAppend(Held(a), Held(b), from, through);
    if forall k :: 0 <= k < |b| ==> Outside(b[k].c, from, through) {
      OutsideAll(b, from, through);
    }
    if forall k :: 0 <= k < |a| ==> Outside(a[k].c, from, through) {
      OutsideAll(a, from, through);
    }
  }

  /** Reading some of the chunks is enough when the others have nothing in the interval. */
  lemma SliceIsEnough(spans: seq<Span>, lo: nat, hi: nat, from: int, through: int)
    requires lo <= |spans| && hi <= |spans|
    requires forall k :: 0 <= k < |spans| && (k < lo || k >= hi) ==> Outside(spans[k].c, from, through)
    ensures InRange(Held(Slice(spans, lo, hi)), from, through) == InRange(Held(spans), from, through)
  {
    if lo <= hi {
      var upTo, rest, first := spans[..hi], spans[hi..], spans[..lo];
      assert spans == upTo + rest && upTo == first + spans[lo..hi];
      assert forall k :: 0 <= k < |rest| ==> Outside(rest[k].c, from, through);
      assert forall k :: 0 <= k < |first| ==> Outside(first[k].c, from, through);
      OutsideEnds(upTo, rest, from, through);
      OutsideEnds(first, spans[lo..hi], from, through);
    } else {
      OutsideAll(spans, from, through);
    }
  }

  // -------------------------------------------------- order

  function End(c: Chunk): int
    requires c.samples != []
  {
    c.samples[|c.samples| - 1].timestamp
  }

  ghost predicate InTime(s: seq<Sample>) {
    forall i, j :: 0 <= i < j < |s| ==> s[i].timestamp < s[j].timestamp
  }

  /** The samples of a chunk are in the order of time, its descriptor begins no later, and ends with
      the last of them. */
  ghost predicate Tidy(d: Span) {
    && d.first <= d.last && InTime(d.c.samples) && Within(d.c, d.first, d.last)
    && (d.c.samples != [] ==> End(d.c) == d.last)
  }

  /** Chunks are sorted by start time and do not overlap: each is tidy and begins after the one
      before it. */
  ghost predicate InOrder(spans: seq<Span>) {
    spans == [] || (InOrder(spans[..|spans| - 1]) && Follows(spans[..|spans| - 1], spans[|spans| - 1]))
  }

  ghost predicate Follows(front: seq<Span>, d: Span) {
    Tidy(d) && (front == [] || front[|front| - 1].last < d.first)
  }

  lemma OrderOfLast(front: seq<Span>, d: Span)
    ensures InOrder(front + [d]) <==> InOrder(front) && Follows(front, d)
  {
    assert (front + [d])[..|front|] == front;
  }

  /** Of the order, what reading relies on: samples are within the times of their chunk, and each
      chunk begins after all before it have ended. */
  ghost predicate Apart(spans: seq<Span>) {
    && (forall k :: 0 <= k < |spans| ==> Within(spans[k].c, spans[k].first, spans[k].last))
    && (forall j, k :: 0 <= j < k < |spans| ==> spans[j].first < spans[k].first && spans[j].last < spans[k].first)
  }

  lemma {:induction false} OrderKeepsApart(spans: seq<Span>)
    requires InOrder(spans)
    ensures Apart(spans)
    ensures forall k :: 0 <= k < |spans| ==> spans[k].first <= spans[k].last
  {
    if spans != [] {
      var front, d := spans[..|spans| - 1], spans[|spans| - 1];
      OrderKeepsApart(front);
      if front != [] {
        var e := front[|front| - 1];
        forall j | 0 <= j < |front| ensures front[j].last <= e.last && front[j].first <= front[j].last {
          assert j < |front| - 1 ==> front[j].last < e.first;
        }
      }
    }
  }

  /** What a search over the chunks finds: one that starts after a time while the one before it
      does not. */
  ghost predicate StartsAfter(spans: seq<Span>, i: nat, t: int) {
    i <= |spans| && (i > 0 ==> spans[i - 1].first <= t) && (i < |spans| ==> spans[i].first > t)
  }

  /** The chunks from the last that does not start after the interval's begin up to the first that
      starts after its end hold all of its samples. */
  lemma NoneMissed(spans: seq<Span>, i: nat, j: nat, from: int, through: int)
    requires Apart(spans) && StartsAfter(spans, i, from) && StartsAfter(spans, j, through)
    ensures var lo, hi := if i > 0 then i - 1 else 0, if j == |spans| then j else j + 1;
            forall k :: 0 <= k < |spans| && (k < lo || k >= hi) ==> Outside(spans[k].c, from, through)
  {
  }

  /** A search that finds no chunk, and a last chunk that ends before the interval. */
  lemma AllBefore(spans: seq<Span>, from: int, through: int)
    requires Apart(spans) && spans != [] && StartsAfter(spans, |spans|, from) && spans[|spans| - 1].last < from
    ensures forall k :: 0 <= k < |spans| ==> Outside(spans[k].c, from, through)
  {
  }

  /** The values are the samples in the interval of the chunks from `lo` up to `hi`. */
  ghost predicate ReadFrom(spans: seq<Span>, lo: nat, hi: nat, from: int, through: int, values: seq<Sample>) {
    lo <= |spans| && hi <= |spans| && values == InRange(Held(Slice(spans, lo, hi)), from, through)
  }

  lemma NoneRead(spans: seq<Span>, from: int, through: int)
    ensures ReadFrom(spans, |spans|, |spans|, from, through, [])
  {
    assert Slice(spans, |spans|, |spans|) == [];
  }

  ghost predicate Readable(spans: seq<Span>) {
    InOrder(spans) || Apart(spans)
  }

  /** The values are the samples in the interval of all chunks when these are in order, or at least
      apart; of some chunks in a row otherwise. */
  ghost predicate Answers(spans: seq<Span>, from: int, through: int, values: seq<Sample>) {
    if Readable(spans) then values == InRange(Held(spans), from, through)
    else exists lo: nat, hi: nat :: ReadFrom(spans, lo, hi, from, through, values)
  }

  /** What is read in either case answers the query. */
  lemma AllRead(spans: seq<Span>, i: nat, j: nat, from: int, through: int, lo: nat, hi: nat, values: seq<Sample>)
    requires spans != [] && StartsAfter(spans, i, from) && StartsAfter(spans, j, through)
    requires ReadFrom(spans, lo, hi, from, through, values)
    requires if i == |spans| && spans[|spans| - 1].last < from then lo == hi == |spans|
             else lo == (if i > 0 then i - 1 else 0) && hi == (if j == |spans| then j else j + 1)
    ensures Answers(spans, from, through, values)
  {
    if Readable(spans) {
      if InOrder(spans) {
        OrderKeepsApart(spans);
      }
      if i == |spans| && spans[|spans| - 1].last < from {
        AllBefore(spans, from, through);
      } else {
        NoneMissed(spans, i, j, from, through);
      }
      SliceIsEnough(spans, lo, hi, from, through);
    }
  }

  /** Dropping the first chunks keeps the order. */
  lemma {:induction false} OrderOfRest(spans: seq<Span>, n: nat)
    requires InOrder(spans) && n <= |spans|
    ensures InOrder(spans[n..])
  {
    if n < |spans| {
      var m := |spans| - 1;
      OrderOfRest(spans[..m], n);
      assert spans[n..] == spans[..m][n..] + [spans[m]];
      OrderOfLast(spans[..m][n..], spans[m]);
    }
  }

  lemma RestInOrder(spans: seq<Span>, n: nat)
    requires n <= |spans|
    ensures InOrder(spans) ==> InOrder(spans[n..])
  {
    if InOrder(spans) {
      OrderOfRest(spans, n);
    }
  }

  /** The sample comes after all of the chunks; or into the last one, which is open and still empty,
      no earlier than it begins. */
  ghost predicate Later(spans: seq<Span>, closed: bool, v: Sample) {
    || spans == []
    || v.timestamp > spans[|spans| - 1].last
    || (!closed && spans[|spans| - 1].c.samples == [] && v.timestamp >= spans[|spans| - 1].first)
  }

  /** A new chunk for the sample keeps the order exactly when the sample is later than the last. */
  lemma NewChunkOrder(spans: seq<Span>, v: Sample)
    requires InOrder(spans)
    ensures InOrder(spans + [Span(v.timestamp, v.timestamp, Chunk([v]))]) <==> Later(spans, true, v)
  {
    OrderOfLast(spans, Span(v.timestamp, v.timestamp, Chunk([v])));
  }

  /** The last chunk with the sample at its end, in the same descriptor. */
  lemma SameChunkOrder(front: seq<Span>, d: Span, v: Sample)
    requires InOrder(front + [d])
    ensures InOrder(front + [Span(d.first, v.timestamp, Chunk(d.c.samples + [v]))]) <==> Later(front + [d], false, v)
  {
    OrderOfLast(front, d);
    OrderOfLast(front, Span(d.first, v.timestamp, Chunk(d.c.samples + [v])));
    TidyWithOneMore(d, v);
  }

  lemma TidyWithOneMore(d: Span, v: Sample)
    requires Tidy(d)
    ensures Tidy(Span(d.first, v.timestamp, Chunk(d.c.samples + [v]))) <==>
            v.timestamp > d.last || (d.c.samples == [] && v.timestamp >= d.first)
  {
    var s, t := d.c.samples, d.c.samples + [v];
    if Tidy(Span(d.first, v.timestamp, Chunk(t))) && s != [] {
      assert t[|s| - 1].timestamp < t[|s|].timestamp;
    }
    if Tidy(Span(d.first, v.timestamp, Chunk(t))) && s == [] {
      assert t[0] == v;
    }
  }

  /** The descriptor says when its samples begin and end. */
  ghost predicate Timed(d: Span) {
    d.c.samples != [] && d.first == d.c.samples[0].timestamp && d.last == End(d.c)
  }

  lemma InTimeSplits(a: seq<Sample>, b: seq<Sample>)
    requires a != [] && b != []
    ensures InTime(a + b) <==> InTime(a) && InTime(b) && a[|a| - 1].timestamp < b[0].timestamp
  {
    var s := a + b;
    assert forall k :: 0 <= k < |a| ==> s[k] == a[k];
    assert forall k :: 0 <= k < |b| ==> s[|a| + k] == b[k];
    if InTime(s) {
      assert s[|a| - 1].timestamp < s[|a|].timestamp;
    }
    if InTime(a) && InTime(b) && a[|a| - 1].timestamp < b[0].timestamp {
      forall i, j | 0 <= i < j < |s| ensures s[i].timestamp < s[j].timestamp {
      }
    }
  }

  lemma TidyIffInTime(d: Span)
    requires Timed(d)
    ensures Tidy(d) <==> InTime(d.c.samples)
  {
  }

  lemma {:induction false} TimedEnds(more: seq<Span>)
    requires more != [] && forall k :: 0 <= k < |more| ==> Timed(more[k])
    ensures var s := Held(more);
            s != [] && s[0].timestamp == more[0].first && s[|s| - 1].timestamp == more[|more| - 1].last
  {
    var n := |more| - 1;
    HeldWithLast(more);
    if n > 0 {
      TimedEnds(more[..n]);
    }
  }

  ghost predicate After(front: seq<Span>, s: seq<Sample>) {
    InTime(s) && (front == [] || s == [] || front[|front| - 1].last < s[0].timestamp)
  }

  lemma AfterOneMore(front: seq<Span>, more: seq<Span>, s: seq<Sample>, d: Span)
    requires Timed(d) && (more == [] <==> s == [])
    requires s != [] ==> s[|s| - 1].timestamp == more[|more| - 1].last
    ensures After(front, s + d.c.samples) <==> After(front, s) && Follows(front + more, d)
  {
    TidyIffInTime(d);
    if s == [] {
      assert s + d.c.samples == d.c.samples && front + more == front;
    } else {
      InTimeSplits(s, d.c.samples);
    }
  }

  /** Chunks with the times of their samples keep the order of the chunks before them exactly when
      all of their samples are in the order of time, and later than the chunks before. */
  lemma {:induction false} TimedOrder(front: seq<Span>, more: seq<Span>)
    requires InOrder(front) && forall k :: 0 <= k < |more| ==> Timed(more[k])
    ensures InOrder(front + more) <==> After(front, Held(more))
  {
    if more == [] {
      assert front + more == front;
    } else {
      var init, d := more[..|more| - 1], more[|more| - 1];
      assert front + more == front + init + [d];
      OrderOfLast(front + init, d);
      TimedOrder(front, init);
      HeldWithLast(more);
      if init != [] {
        TimedEnds(init);
      }
      AfterOneMore(front, init, Held(init), d);
    }
  }

  /** New descriptors for the chunks that the last one, not empty, has been split into. */
  lemma SplitOrder(front: seq<Span>, d: Span, more: seq<Span>, v: Sample)
    requires InOrder(front + [d]) && d.c.samples != []
    requires more != [] && forall k :: 0 <= k < |more| ==> Timed(more[k])
    requires Held(more) == d.c.samples + [v]
    ensures InOrder(front + more) <==> Later(front + [d], false, v)
  {
    OrderOfLast(front, d);
    TimedOrder(front, more);
    InTimeSplits(d.c.samples, [v]);
  }

  /** More than one chunk hold more than one sample. */
  lemma {:induction false} ManySamples(chunks: seq<Chunk>)
    requires forall k :: 0 <= k < |chunks| ==> chunks[k].samples != []
    ensures |Concat(chunks)| >= |chunks|
  {
    if chunks != [] {
      ManySamples(chunks[..|chunks| - 1]);
    }
  }

  /** Chunks that together hold the samples of a chunk and one more, none of them empty. */
  ghost predicate Extended(before: Chunk, v: Sample, chunks: seq<Chunk>) {
    chunks != [] && Concat(chunks) == before.samples + [v] && forall k :: 0 <= k < |chunks| ==> chunks[k].samples != []
  }

  /** The chunk a new sample would be put with: the last while it is open. */
  function Head(spans: seq<Span>, closed: bool, t: int): Span {
    if spans == [] || closed then Span(t, t, Chunk([])) else spans[|spans| - 1]
  }

  /** The chunks before that one. */
  function Front(spans: seq<Span>, closed: bool): seq<Span> {
    if spans == [] || closed then spans else spans[..|spans| - 1]
  }

  function TimedSpan(c: Chunk): Span
    requires c.samples != []
  {
    Span(c.samples[0].timestamp, End(c), c)
  }

  function TimedSpans(chunks: seq<Chunk>): (r: seq<Span>)
    requires forall k :: 0 <= k < |chunks| ==> chunks[k].samples != []
  {
    seq(|chunks|, k requires 0 <= k < |chunks| => TimedSpan(chunks[k]))
  }

  /** The chunks once there is one to put a sample with. */
  function Started(spans: seq<Span>, closed: bool, t: int): seq<Span> {
    Front(spans, closed) + [Head(spans, closed, t)]
  }

  /** Several chunks get descriptors of their own; a single one goes on with that of the head. */
  function PutFor(first: int, t: int, chunks: seq<Chunk>): (r: seq<Span>)
    requires forall k :: 0 <= k < |chunks| ==> chunks[k].samples != []
  {
    if |chunks| == 1 then [Span(first, t, chunks[0])] else TimedSpans(chunks)
  }

  /** The chunks once a sample has been added. */
  function Grown(spans: seq<Span>, closed: bool, v: Sample, chunks: seq<Chunk>): (r: seq<Span>)
    requires forall k :: 0 <= k < |chunks| ==> chunks[k].samples != []
  {
    Front(spans, closed) + PutFor(Head(spans, closed, v.timestamp).first, v.timestamp, chunks)
  }

  lemma StartedThenPut(spans: seq<Span>, closed: bool, v: Sample, chunks: seq<Chunk>)
    requires forall k :: 0 <= k < |chunks| ==> chunks[k].samples != []
    ensures var s := Started(spans, closed, v.timestamp);
            s[..|s| - 1] + PutFor(s[|s| - 1].first, v.timestamp, chunks) == Grown(spans, closed, v, chunks)
  {
    var s := Started(spans, closed, v.timestamp);
    assert s[..|s| - 1] == Front(spans, closed);
  }

  lemma ExtendedOnce(before: Chunk, v: Sample, chunks: seq<Chunk>)
    requires Extended(before, v, chunks) && |chunks| == 1
    ensures chunks == [Chunk(before.samples + [v])]
  {
    ConcatOne(chunks[0]);
    assert chunks == [chunks[0]];
  }

  /** Adding a sample adds it after all others. */
  lemma GrownHolds(spans: seq<Span>, closed: bool, v: Sample, chunks: seq<Chunk>)
    requires Extended(Head(spans, closed, v.timestamp).c, v, chunks)
    ensures Held(Grown(spans, closed, v, chunks)) == Held(spans) + [v]
  {
    var front, d := Front(spans, closed), Head(spans, closed, v.timestamp);
    var more := PutFor(d.first, v.timestamp, chunks);
    assert ChunksOf(more) == chunks;
    HeldAppend(front, more);
    Regroup(Held(front), d.c.samples, [v]);
    if !(spans == [] || closed) {
      assert spans == front + [d];
      HeldAppend(front, [d]);
      HeldOne(d);
    }
  }

  /** The last chunk ends with the sample, and its descriptor with the sample's time. */
  ghost predicate EndsWith(spans: seq<Span>, v: Sample) {
    spans != [] && var d := spans[|spans| - 1]; d.c.samples != [] && d.c.samples[|d.c.samples| - 1] == v && d.last == v.timestamp
  }

  lemma GrownEnds(spans: seq<Span>, closed: bool, v: Sample, chunks: seq<Chunk>)
    requires Extended(Head(spans, closed, v.timestamp).c, v, chunks)
    ensures EndsWith(Grown(spans, closed, v, chunks), v)
  {
    var more := PutFor(Head(spans, closed, v.timestamp).first, v.timestamp, chunks);
    assert more[|more| - 1].c == chunks[|chunks| - 1];
    LastOfConcat(chunks, v);
  }

  lemma GrownOnce(spans: seq<Span>, closed: bool, v: Sample, chunks: seq<Chunk>)
    requires Extended(Head(spans, closed, v.timestamp).c, v, chunks) && |chunks| == 1
    ensures var d := Head(spans, closed, v.timestamp);
            Grown(spans, closed, v, chunks) == Front(spans, closed) + [Span(d.first, v.timestamp, Chunk(d.c.samples + [v]))]
  {
    ExtendedOnce(Head(spans, closed, v.timestamp).c, v, chunks);
  }

  lemma GrownMany(spans: seq<Span>, closed: bool, v: Sample, chunks: seq<Chunk>)
    requires Extended(Head(spans, closed, v.timestamp).c, v, chunks) && |chunks| != 1
    ensures !(spans == [] || closed) && Head(spans, closed, v.timestamp).c.samples != []
    ensures Grown(spans, closed, v, chunks) == Front(spans, closed) + TimedSpans(chunks)
  {
    ManySamples(chunks);
  }

  /** Adding a sample keeps the order exactly when the sample comes later. */
  lemma GrownOrder(spans: seq<Span>, closed: bool, v: Sample, chunks: seq<Chunk>)
    requires InOrder(spans) && Extended(Head(spans, closed, v.timestamp).c, v, chunks)
    ensures InOrder(Grown(spans, closed, v, chunks)) <==> Later(spans, closed, v)
  {
    var front, d := Front(spans, closed), Head(spans, closed, v.timestamp);
    assert !(spans == [] || closed) ==> spans == front + [d];
    if |chunks| != 1 {
      GrownMany(spans, closed, v, chunks);
      assert ChunksOf(TimedSpans(chunks)) == chunks;
      SplitOrder(front, d, TimedSpans(chunks), v);
    } else {
      GrownOnce(spans, closed, v, chunks);
      if spans == [] || closed {
        NewChunkOrder(spans, v);
      } else {
        SameChunkOrder(front, d, v);
      }
    }
  }
}

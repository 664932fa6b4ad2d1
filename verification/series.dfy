/** A series in the ingester's memory: how samples are added to its chunks, read from them, and
    how its chunks are flushed while samples keep coming in. */
module Series {
  import opened ByteStrings
  import opened SortedLists
  import opened Samples
  import opened Spans
  import Storage

  /** The earliest time, which a new series has for its last. */
  const EARLIEST: int := -0x8000_0000_0000_0000

  class Desc {
    var c: Chunk
    const firstTime: int
    var lastTime: int

    constructor (c: Chunk, firstTime: int, lastTime: int)
      ensures this.c == c && this.firstTime == firstTime && this.lastTime == lastTime
    {
      this.c, this.firstTime, this.lastTime := c, firstTime, lastTime;
    }
  }

  /** The samples that left memory and those in memory are all that were taken in, in order, and
      the first chunks in memory are as a flush has seen them. */
  ghost predicate Kept(spans: seq<Span>, accepted: seq<Sample>, dropped: seq<Sample>, snapshot: seq<Span>) {
    accepted == dropped + Held(spans) && snapshot <= spans
  }

  /** A sample put with the head chunk, or in a chunk of its own, becomes the last that is kept. */
  lemma KeptByAdding(spans: seq<Span>, closed: bool, accepted: seq<Sample>, dropped: seq<Sample>, snapshot: seq<Span>,
                     chunks: seq<Chunk>, v: Sample)
    requires Kept(spans, accepted, dropped, snapshot) && snapshot <= Front(spans, closed)
    requires Extended(Head(spans, closed, v.timestamp).c, v, chunks)
    ensures Kept(Grown(spans, closed, v, chunks), accepted + [v], dropped, snapshot)
  {
    GrownHolds(spans, closed, v, chunks);
    Regroup(dropped, Held(spans), [v]);
  }

  lemma KeptAfter(spans: seq<Span>, closed: bool, accepted: seq<Sample>, dropped: seq<Sample>, snapshot: seq<Span>,
                  outcome: Option<seq<Chunk>>, v: Sample)
    requires Kept(spans, accepted, dropped, snapshot) && snapshot <= Front(spans, closed)
    requires Extends(Head(spans, closed, v.timestamp).c, v, outcome)
    ensures Kept(AfterAdding(spans, closed, v, outcome), if outcome.Some? then accepted + [v] else accepted, dropped, snapshot)
  {
    if outcome.Some? {
      KeptByAdding(spans, closed, accepted, dropped, snapshot, outcome.value, v);
    } else {
      KeptByStarting(spans, closed, accepted, dropped, snapshot, v.timestamp);
    }
  }

  /** What adding a sample does to the end of the chunks and to their order. */
  lemma Grows(spans: seq<Span>, closed: bool, v: Sample, outcome: Option<seq<Chunk>>)
    requires Extends(Head(spans, closed, v.timestamp).c, v, outcome) && outcome.Some?
    ensures EndsWith(AfterAdding(spans, closed, v, outcome), v)
    ensures InOrder(spans) ==> (InOrder(AfterAdding(spans, closed, v, outcome)) <==> Later(spans, closed, v))
  {
    GrownEnds(spans, closed, v, outcome.value);
    if InOrder(spans) {
      GrownOrder(spans, closed, v, outcome.value);
    }
  }

  ghost predicate SameUpTo<T>(a: seq<T>, b: seq<T>, n: nat) {
    n <= |a| && n <= |b| && forall k :: 0 <= k < n ==> a[k] == b[k]
  }

  lemma KeptByStarting(spans: seq<Span>, closed: bool, accepted: seq<Sample>, dropped: seq<Sample>, snapshot: seq<Span>, t: int)
    requires Kept(spans, accepted, dropped, snapshot)
    ensures Kept(Started(spans, closed, t), accepted, dropped, snapshot)
  {
    HeldAppend(spans, [Span(t, t, Chunk([]))]);
    HeldOne(Span(t, t, Chunk([])));
    assert !(spans == [] || closed) ==> Started(spans, closed, t) == spans;
  }

  lemma KeptByDropping(spans: seq<Span>, accepted: seq<Sample>, dropped: seq<Sample>, snapshot: seq<Span>)
    requires Kept(spans, accepted, dropped, snapshot)
    ensures Kept(spans[|snapshot|..], accepted, dropped + Held(snapshot), [])
  {
    var rest := spans[|snapshot|..];
    assert spans == snapshot + rest;
    HeldAppend(snapshot, rest);
    Regroup(dropped, Held(snapshot), Held(rest));
  }

  /** What adding a sample to a chunk gives: an error, or the chunks that take the place of the
      old one, with the same samples and the new one. */
  ghost predicate Extends(before: Chunk, v: Sample, outcome: Option<seq<Chunk>>) {
    outcome.Some? ==> Extended(before, v, outcome.value)
  }

  ghost function AfterAdding(spans: seq<Span>, closed: bool, v: Sample, outcome: Option<seq<Chunk>>): seq<Span>
    requires outcome.Some? ==> forall k :: 0 <= k < |outcome.value| ==> outcome.value[k].samples != []
  {
    if outcome.Some? then Grown(spans, closed, v, outcome.value) else Started(spans, closed, v.timestamp)
  }

  datatype Added = Appended | Ignored | ErrDuplicateSample | ErrOutOfOrder | ErrChunk

  datatype Set = Replaced | ErrHasChunks | SetPanicked

  class MemorySeries {
    var chunkDescs: seq<Desc>
    var headChunkClosed: bool
    var lastSampleValueSet: bool
    var lastTime: int
    var lastSampleValue: real

    /** All samples taken in, those that have left memory, and the chunks a flush has in hand with
        what they held when it took them. */
    ghost var accepted: seq<Sample>
    ghost var dropped: seq<Sample>
    ghost var captured: seq<Desc>
    ghost var snapshot: seq<Span>

    /** The chunks with the times of their descriptors. */
    ghost var spans: seq<Span>

    /** Descriptors are not shared and hold what `spans` says. */
    ghost predicate Linked()
      reads this, chunkDescs
    {
      Distinct(chunkDescs) && Describe(chunkDescs, spans)
    }

    ghost predicate Valid()
      reads this, chunkDescs
    {
      && Linked()
      && captured <= chunkDescs && |snapshot| == |captured|
      && Kept(spans, accepted, dropped, snapshot)
      && (captured != [] && |captured| == |chunkDescs| ==> headChunkClosed)
    }

    constructor ()
      ensures Valid() && Ordered() && chunkDescs == [] && accepted == dropped == [] && captured == []
      ensures !lastSampleValueSet && lastTime == EARLIEST && !headChunkClosed
    {
      chunkDescs, headChunkClosed := [], false;
      lastSampleValueSet, lastTime, lastSampleValue := false, EARLIEST, 0.0;
      accepted, dropped, captured, snapshot, spans := [], [], [], [], [];
    }

    /** Chunks are sorted by start time and do not overlap, and their descriptors say when their
        samples begin and end. */
    ghost predicate Ordered()
      reads this`spans
    {
      InOrder(spans)
    }

    /** The samples a new one would be put with: those of the head chunk while it is open. */
    ghost function OpenHead(): Chunk
      reads this`spans, this`headChunkClosed
    {
      Head(spans, headChunkClosed, 0).c
    }

    /** The start of add: makes sure there is a head chunk that may be written to. */
    method StartHead(t: int)
      requires Linked()
      modifies this`chunkDescs, this`headChunkClosed, this`spans
      ensures Linked() && chunkDescs != [] && !headChunkClosed && SameUpTo(chunkDescs, old(chunkDescs), |old(chunkDescs)|)
      ensures spans == Started(old(spans), old(headChunkClosed), t)
      ensures forall k :: |old(chunkDescs)| <= k < |chunkDescs| ==> fresh(chunkDescs[k])
    {
      ghost var after := Started(spans, headChunkClosed, t);
      if |chunkDescs| == 0 || headChunkClosed {
        var newHead := new Desc(Chunk([]), t, t);
        headChunkClosed := false;
        chunkDescs := chunkDescs + [newHead];
      }
      spans := after;
    }

    /** The single-chunk case: the head chunk is replaced in place. */
    method ReplaceHead(c: Chunk, t: int)
      requires Linked() && chunkDescs != []
      modifies this`spans, chunkDescs[|chunkDescs| - 1]
      ensures Linked() && spans == old(spans)[..|chunkDescs| - 1] + [Span(old(spans)[|chunkDescs| - 1].first, t, c)]
    {
      var head := chunkDescs[|chunkDescs| - 1];
      assert forall k :: 0 <= k < |chunkDescs| - 1 ==> chunkDescs[k] != head;
      head.lastTime := t;
      head.c := c;
      spans := spans[..|chunkDescs| - 1] + [Span(head.firstTime, t, c)];
    }

    /** The other case: the head chunk gives way to new descriptors. */
    method SplitHead(chunks: seq<Chunk>)
      requires Linked() && chunkDescs != []
      requires forall k :: 0 <= k < |chunks| ==> chunks[k].samples != []
      modifies this`chunkDescs, this`spans
      ensures Linked() && SameUpTo(chunkDescs, old(chunkDescs), |old(chunkDescs)| - 1)
      ensures spans == old(spans)[..|old(chunkDescs)| - 1] + TimedSpans(chunks)
      ensures forall k :: |old(chunkDescs)| - 1 <= k < |chunkDescs| ==> fresh(chunkDescs[k])
    {
      var added := NewDescs(chunks);
      chunkDescs := chunkDescs[..|chunkDescs| - 1] + added;
      spans := spans[..|spans| - 1] + TimedSpans(chunks);
    }

    /** The end of add: the chunks take the place of the head chunk. */
    method PutChunks(chunks: seq<Chunk>, t: int)
      requires Linked() && chunkDescs != []
      requires forall k :: 0 <= k < |chunks| ==> chunks[k].samples != []
      modifies this`chunkDescs, this`spans, chunkDescs[|chunkDescs| - 1]
      ensures Linked() && SameUpTo(chunkDescs, old(chunkDescs), |old(chunkDescs)| - 1)
      ensures spans == old(spans)[..|old(chunkDescs)| - 1] + PutFor(old(spans)[|old(chunkDescs)| - 1].first, t, chunks)
      ensures chunkDescs == old(chunkDescs) || forall k :: |old(chunkDescs)| - 1 <= k < |chunkDescs| ==> fresh(chunkDescs[k])
    {
      if |chunks| == 1 {
        ReplaceHead(chunks[0], t);
      } else {
        SplitHead(chunks);
      }
    }

    /** The loop of add over the chunks. */
    method NewDescs(chunks: seq<Chunk>) returns (descs: seq<Desc>)
      requires forall k :: 0 <= k < |chunks| ==> chunks[k].samples != []
      ensures |descs| == |chunks| && forall k :: 0 <= k < |chunks| ==> fresh(descs[k])
      ensures Distinct(descs) && Describe(descs, TimedSpans(chunks))
    {
      descs := [];
      for k := 0 to |chunks|
        invariant |descs| == k && Distinct(descs)
        invariant forall j :: 0 <= j < k ==> fresh(descs[j]) && SpanOf(descs[j]) == TimedSpan(chunks[j])
      {
        var c := chunks[k];
        var d := new Desc(c, c.samples[0].timestamp, c.samples[|c.samples| - 1].timestamp);
        descs := descs + [d];
      }
    }

    /** add: whatever happens, the chunks a flush has in hand are left as they are; a sample that
        is appended comes after all others, and any other outcome changes no samples. Chunks that
        were in order stay so exactly when the appended sample comes later. */
    method Add(v: Sample, outcome: Option<seq<Chunk>>) returns (r: Added)
      requires Valid() && Extends(OpenHead(), v, outcome)
      modifies this, chunkDescs
      ensures Valid() && dropped == old(dropped) && captured == old(captured) && snapshot == old(snapshot)
      ensures accepted == if r.Appended? then old(accepted) + [v] else old(accepted)
      ensures forall k :: 0 <= k < |captured| ==> captured[k].c == old(captured[k].c) && captured[k].lastTime == old(captured[k].lastTime)
      ensures lastTime == old(lastTime) && lastSampleValueSet == old(lastSampleValueSet) && lastSampleValue == old(lastSampleValue)
      ensures r.Ignored? <==> lastSampleValueSet && v.timestamp == lastTime && v.value == lastSampleValue
      ensures r.ErrOutOfOrder? <==> v.timestamp < lastTime
      ensures v.timestamp == lastTime ==> r.Ignored? || r.ErrDuplicateSample?
      ensures v.timestamp > lastTime ==> r == if outcome.Some? then Appended else ErrChunk
      ensures v.timestamp <= lastTime ==> chunkDescs == old(chunkDescs) && headChunkClosed == old(headChunkClosed)
      ensures v.timestamp <= lastTime ==> spans == old(spans)
      ensures v.timestamp > lastTime ==> spans == AfterAdding(old(spans), old(headChunkClosed), v, outcome) && !headChunkClosed
      ensures r.Appended? ==> EndsWith(spans, v)
      ensures r.Appended? && old(Ordered()) ==> (Ordered() <==> Later(old(spans), old(headChunkClosed), v))
      ensures forall k :: 0 <= k < |chunkDescs| ==> fresh(chunkDescs[k]) || (k < |old(chunkDescs)| && chunkDescs[k] == old(chunkDescs)[k])
    {
      if lastSampleValueSet && v.timestamp == lastTime && v.value == lastSampleValue {
        return Ignored;
      }
      if v.timestamp == lastTime {
        return ErrDuplicateSample;
      }
      if v.timestamp < lastTime {
        return ErrOutOfOrder;
      }
      if outcome.Some? {
        Grows(spans, headChunkClosed, v, outcome);
      }
      Append(v, outcome);
      r := if outcome.Some? then Appended else ErrChunk;
    }

    lemma CapturedAsSeen()
      requires Valid()
      ensures forall k :: 0 <= k < |captured| ==> captured[k].c == snapshot[k].c && captured[k].lastTime == snapshot[k].last
    {
      assert forall k :: 0 <= k < |captured| ==> spans[k] == SpanOf(captured[k]);
    }

    /** The rest of add, for a sample later than the last. */
    method Append(v: Sample, outcome: Option<seq<Chunk>>)
      requires Valid() && Extends(OpenHead(), v, outcome)
      modifies this`chunkDescs, this`headChunkClosed, this`spans, this`accepted, chunkDescs
      ensures Valid() && accepted == if outcome.Some? then old(accepted) + [v] else old(accepted)
      ensures spans == AfterAdding(old(spans), old(headChunkClosed), v, outcome) && !headChunkClosed
      ensures forall k :: 0 <= k < |chunkDescs| ==> fresh(chunkDescs[k]) || (k < |old(chunkDescs)| && chunkDescs[k] == old(chunkDescs)[k])
      ensures forall k :: 0 <= k < |captured| ==> captured[k].c == old(captured[k].c) && captured[k].lastTime == old(captured[k].lastTime)
    {
      CapturedAsSeen();
      AppendSample(v, outcome);
      CapturedAsSeen();
    }

    /** Puts the sample with the head chunk, a new one if need be. */
    method AppendSample(v: Sample, outcome: Option<seq<Chunk>>)
      requires Valid() && Extends(OpenHead(), v, outcome)
      modifies this`chunkDescs, this`headChunkClosed, this`spans, this`accepted, chunkDescs
      ensures Valid() && accepted == if outcome.Some? then old(accepted) + [v] else old(accepted)
      ensures spans == AfterAdding(old(spans), old(headChunkClosed), v, outcome) && !headChunkClosed
      ensures forall k :: 0 <= k < |chunkDescs| ==> fresh(chunkDescs[k]) || (k < |old(chunkDescs)| && chunkDescs[k] == old(chunkDescs)[k])
    {
      KeptAfter(spans, headChunkClosed, accepted, dropped, snapshot, outcome, v);
      PutSample(v, outcome);
      if outcome.Some? {
        accepted := accepted + [v];
      }
    }

    /** The changes to the chunks that this makes. */
    method PutSample(v: Sample, outcome: Option<seq<Chunk>>)
      requires Linked() && Extends(OpenHead(), v, outcome)
      modifies this`chunkDescs, this`headChunkClosed, this`spans, chunkDescs
      ensures Linked() && !headChunkClosed
      ensures SameUpTo(chunkDescs, old(chunkDescs), |old(Front(spans, headChunkClosed))|)
      ensures |old(Front(spans, headChunkClosed))| < |chunkDescs|
      ensures spans == AfterAdding(old(spans), old(headChunkClosed), v, outcome)
      ensures forall k :: 0 <= k < |chunkDescs| ==> fresh(chunkDescs[k]) || (k < |old(chunkDescs)| && chunkDescs[k] == old(chunkDescs)[k])
    {
      ghost var before, closed := spans, headChunkClosed;
      StartHead(v.timestamp);
      if outcome.Some? {
        StartedThenPut(before, closed, v, outcome.value);
        PutChunks(outcome.value, v.timestamp);
      }
    }

    method CloseHead()
      modifies this`headChunkClosed
      ensures headChunkClosed
    {
      headChunkClosed := true;
    }

    /** setChunks: takes over the chunks of another ingester, if it has none of its own. An empty
        list makes the code panic. Only here is the last time ever set. */
    method SetChunks(descs: seq<Desc>) returns (r: Set)
      requires Valid() && Distinct(descs)
      modifies this
      ensures r == if old(chunkDescs) != [] then ErrHasChunks else if descs == [] then SetPanicked else Replaced
      ensures !r.SetPanicked? ==> Valid()
      ensures r.ErrHasChunks? ==> chunkDescs == old(chunkDescs) && spans == old(spans) && accepted == old(accepted)
      ensures r.Replaced? ==> chunkDescs == descs && spans == SpansOf(descs) && accepted == old(accepted) + Held(spans)
      ensures r.Replaced? ==> lastSampleValueSet && lastTime == descs[|descs| - 1].lastTime
      ensures headChunkClosed == old(headChunkClosed) && lastSampleValue == old(lastSampleValue)
      ensures !r.Replaced? ==> lastSampleValueSet == old(lastSampleValueSet) && lastTime == old(lastTime)
    {
      if |chunkDescs| != 0 {
        return ErrHasChunks;
      }
      if |descs| == 0 {
        return SetPanicked;
      }
      assert Held(spans) == [];
      spans := SpansOf(descs);
      accepted := accepted + Held(spans);
      chunkDescs := descs;
      lastSampleValueSet := true;
      lastTime := descs[|descs| - 1].lastTime;
      r := Replaced;
    }

    // ------------------------------------------------ flushing

    /** The first locked phase of flushUserSeries: takes the chunks to flush, all of them after
        closing the head chunk or all but the head. Whether the series and its head are due is
        for the clock to say. */
    method BeginFlush(immediate: bool, firstDue: bool, headDue: bool) returns (chunks: seq<Desc>)
      requires Valid() && captured == []
      modifies this`headChunkClosed, this`captured, this`snapshot
      ensures Valid() && chunks == captured && accepted == old(accepted) && dropped == old(dropped)
      ensures chunks == if !immediate && |chunkDescs| <= 1 && !(|chunkDescs| == 1 && firstDue) then []
                        else if immediate || headDue then chunkDescs
                        else chunkDescs[..|chunkDescs| - 1]
      ensures headChunkClosed <==> || old(headChunkClosed) || immediate
                                   || (headDue && (|chunkDescs| > 1 || (|chunkDescs| == 1 && firstDue)))
    {
      if !(immediate || |chunkDescs| > 1 || (|chunkDescs| > 0 && firstDue)) {
        snapshot := [];
        return [];
      }
      chunks := chunkDescs;
      if immediate || (|chunks| > 0 && headDue) {
        CloseHead();
      } else {
        chunks := chunks[..|chunks| - 1];
      }
      captured := chunks;
      snapshot := spans[..|captured|];
    }

    /** What flushChunks reads at any moment of the unlocked phase is what was taken. */
    method WireChunks(chunks: seq<Desc>) returns (wire: seq<Span>)
      requires Valid() && chunks == captured
      ensures wire == snapshot
    {
      wire := [];
      for k := 0 to |chunks|
        invariant wire == snapshot[..k]
      {
        assert chunks[k] == chunkDescs[k];
        wire := wire + [Span(chunks[k].firstTime, chunks[k].lastTime, chunks[k].c)];
      }
    }

    /** The last locked phase: chunks leave memory only when the store has taken them; true when
        the series has become empty and is to be removed. */
    method EndFlush(chunks: seq<Desc>, stored: bool) returns (empty: bool)
      requires Valid() && chunks == captured && chunks != []
      modifies this`chunkDescs, this`spans, this`captured, this`snapshot, this`dropped
      ensures Valid() && captured == [] && accepted == old(accepted)
      ensures chunkDescs == if stored then old(chunkDescs)[|chunks|..] else old(chunkDescs)
      ensures spans == if stored then old(spans)[|chunks|..] else old(spans)
      ensures dropped == if stored then old(dropped) + Held(old(snapshot)) else old(dropped)
      ensures empty <==> stored && chunkDescs == []
      ensures old(Ordered()) ==> Ordered()
    {
      if !stored {
        captured, snapshot := [], [];
        return false;
      }
      KeptByDropping(spans, accepted, dropped, snapshot);
      DescribeRest(chunkDescs, spans, |chunks|);
      RestInOrder(spans, |chunks|);
      dropped := dropped + Held(snapshot);
      captured, snapshot := [], [];
      chunkDescs, spans := chunkDescs[|chunks|..], spans[|chunks|..];
      empty := |chunkDescs| == 0;
    }

    // ------------------------------------------------ reading

    /** The search for a chunk that starts after a time. */
    method FirstAfter(t: int) returns (i: nat)
      requires Linked()
      ensures StartsAfter(spans, i, t)
    {
      var descs := chunkDescs;
      var f := (k: int) requires 0 <= k < |descs| => descs[k].firstTime > t;
      i := Storage.SearchAny(|descs|, f);
    }

    /** samplesForRange: the samples in the interval of some of the chunks, in order; those of all
        chunks when these are in order, or at least apart. None for a series without chunks, on
        which the code panics. */
    method SamplesForRange(from: int, through: int) returns (r: Option<seq<Sample>>)
      requires Linked()
      ensures r.None? <==> chunkDescs == []
      ensures r.Some? ==> Answers(spans, from, through, r.value)
      ensures r.Some? && |chunkDescs| == 1 && chunkDescs[0].firstTime <= from && chunkDescs[0].lastTime < from ==> r.value == []
    {
      if |chunkDescs| == 0 {
        return None;
      }
      var fromIdx := FirstAfter(from);
      var throughIdx := FirstAfter(through);
      ghost var n, i, j := |chunkDescs|, fromIdx, throughIdx;
      if fromIdx == |chunkDescs| && chunkDescs[|chunkDescs| - 1].lastTime < from {
        NoneRead(spans, from, through);
        AllRead(spans, i, j, from, through, n, n, []);
        return Some([]);
      }
      if fromIdx > 0 {
        fromIdx := fromIdx - 1;
      }
      if throughIdx == |chunkDescs| {
        throughIdx := throughIdx - 1;
      }
      var values := ReadChunks(fromIdx, throughIdx + 1, from, through);
      AllRead(spans, i, j, from, through, fromIdx, throughIdx + 1, values);
      r := Some(values);
    }

    /** The loop of samplesForRange over the chunks it reads. */
    method ReadChunks(lo: nat, hi: nat, from: int, through: int) returns (values: seq<Sample>)
      requires Linked() && lo <= |chunkDescs| && hi <= |chunkDescs|
      ensures ReadFrom(spans, lo, hi, from, through, values)
    {
      values := [];
      ghost var all := Slice(spans, lo, hi);
      var idx := lo;
      while idx < hi
        invariant lo <= idx && (idx <= hi || idx == lo)
        invariant values == InRange(Held(all[..idx - lo]), from, through)
      {
        InRangeOneMore(all, idx - lo, from, through);
        assert all[idx - lo] == spans[idx];
        values := values + InRange(chunkDescs[idx].c.samples, from, through);
        idx := idx + 1;
      }
      assert all[..idx - lo] == all;
    }
  }

  /** A sample older than the last one is appended, as the last time is not kept up to date; the
      chunk is then out of order, and reading at the time of the first sample finds nothing. */
  method AcceptedOutOfOrder(a: real, b: real) returns (s: MemorySeries, read: Option<seq<Sample>>)
    ensures s.Valid() && s.accepted == [Sample(5, a), Sample(3, b)] && s.dropped == [] && !s.Ordered()
    ensures InRange(Held(s.spans), 5, 5) == [Sample(5, a)] && read == Some([])
  {
    var v, w := Sample(5, a), Sample(3, b);
    s := OneSample(v);
    ConcatOne(Chunk([v, w]));
    var second := s.Add(w, Some([Chunk([v, w])]));
    assert s.spans == [Span(5, 3, Chunk([v, w]))];
    OlderInOneChunk(v, w);
    read := s.SamplesForRange(5, 5);
  }

  /** A new series with its first sample. */
  method OneSample(v: Sample) returns (s: MemorySeries)
    requires v.timestamp > EARLIEST
    ensures fresh(s) && s.Valid() && s.accepted == [v] && s.dropped == [] && !s.headChunkClosed
    ensures !s.lastSampleValueSet && s.lastTime == EARLIEST && s.spans == [Span(v.timestamp, v.timestamp, Chunk([v]))]
    ensures forall k :: 0 <= k < |s.chunkDescs| ==> fresh(s.chunkDescs[k])
  {
    s := new MemorySeries();
    ConcatOne(Chunk([v]));
    var first := s.Add(v, Some([Chunk([v])]));
  }

  lemma OlderInOneChunk(v: Sample, w: Sample)
    requires w.timestamp < v.timestamp
    ensures var spans := [Span(v.timestamp, w.timestamp, Chunk([v, w]))];
            && !InOrder(spans)
            && InRange(Held(spans), v.timestamp, v.timestamp) == [v]
  {
    var spans := [Span(v.timestamp, w.timestamp, Chunk([v, w]))];
    HeldOne(spans[0]);
    assert [v, w][..1] == [v] && [v][..0] == [];
    assert InRange([v], v.timestamp, v.timestamp) == [v];
    assert !InOrder(spans) by {
      assert spans[|spans| - 1].first > spans[|spans| - 1].last;
    }
  }

  /** A first sample at the earliest time is refused and leaves the series without chunks, which
      reading does not survive. */
  method RefusedFirst(a: real) returns (r: Added, read: Option<seq<Sample>>)
    ensures r.ErrDuplicateSample? && read.None?
  {
    var s := new MemorySeries();
    r := s.Add(Sample(EARLIEST, a), None);
    read := s.SamplesForRange(EARLIEST, EARLIEST);
  }

  ghost function SpansOf(descs: seq<Desc>): (r: seq<Span>)
    reads descs
    ensures |r| == |descs| && forall k :: 0 <= k < |descs| ==> r[k] == SpanOf(descs[k])
  {
    seq(|descs|, k requires 0 <= k < |descs| reads descs => SpanOf(descs[k]))
  }

  /** The descriptors hold what the spans say. */
  ghost predicate Describe(descs: seq<Desc>, spans: seq<Span>)
    reads descs
  {
    |descs| == |spans| && forall k :: 0 <= k < |descs| ==> SpanOf(descs[k]) == spans[k]
  }

  lemma DescribeRest(descs: seq<Desc>, spans: seq<Span>, n: nat)
    requires Distinct(descs) && Describe(descs, spans) && n <= |descs|
    ensures Distinct(descs[n..]) && Describe(descs[n..], spans[n..])
  {
    var rest, after := descs[n..], spans[n..];
    assert forall k :: 0 <= k < |rest| ==> rest[k] == descs[n + k] && after[k] == spans[n + k];
  }

  function SpanOf(d: Desc): (r: Span)
    reads d
  {
    Span(d.firstTime, d.lastTime, d.c)
  }
}

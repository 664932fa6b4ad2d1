/** When Get is exact. What Get shows of a store (`Shown`) is compared with what a query asks for
    (`Answers`): the two ways in which they differ are given by conditions on the chunk, the
    query and the schemas alone, and Get is exact if and only if no chunk of the store meets one. */
module Exactness {
  import opened ByteStrings
  import opened SortedLists
  import opened Schema
  import opened SchemaCoverage
  import opened ExternalKeys
  import opened Sightings
  import opened Matchers
  import opened ChunkIndex
  import opened ChunkStore

  /** A query that names a metric, for an interval, and whose labels are in order. */
  datatype Request = Request(user: Bytes, from: int, through: int, all: seq<Matcher>)
  {
    function Name(): Bytes
      requires Extract(NonFilters(all)).Name?
    {
      Extract(NonFilters(all)).name
    }

    function Rest(): seq<Matcher>
      requires Extract(NonFilters(all)).Name?
    {
      Extract(NonFilters(all)).rest
    }

    function Asks(): Ask
      requires Extract(NonFilters(all)).Name?
    {
      Ask(user, Name(), from, through)
    }

    ghost predicate Clean() {
      CleanQuery(user, all) && from <= through
    }
  }

  ghost predicate IsShown(env: Env, c: Chunk, q: Request)
    requires env.Valid() && GoodChunk(c) && q.Clean()
  {
    Shown(env, c, q.user, q.from, q.through, q.all)
  }

  ghost predicate IsAnswer(c: Chunk, q: Request) {
    Answers(c, q.user, q.from, q.through, q.all)
  }

  /** Of the user, in the interval, and past the filters: what Get checks of a chunk itself. */
  ghost predicate Passes(c: Chunk, q: Request) {
    c.ref.user == q.user && Overlaps(c.ref, q.from, q.through) && MatchesAll(c.metric, Filters(q.all))
  }

  /** A chunk of another metric that Get returns: without further matchers, one whose name, a colon
      and one of whose labels make up the name asked for, if its rows from v4 on are seen; with
      further matchers, one whose name is the name asked for, a colon and the label of each. */
  ghost predicate Misleads(env: Env, c: Chunk, q: Request)
    requires env.Valid() && GoodChunk(c) && q.Clean()
  {
    && Passes(c, q)
    && if q.Rest() == [] then Collides(c, q.Name()) && NewSeen(env, c, q.Asks())
       else forall k :: 0 <= k < |q.Rest()| ==> Mistaken(env, c, q.Asks(), q.Rest()[k])
  }

  /** An answer that Get does not return: without further matchers, a chunk with nothing but a name
      none of whose rows from v4 on are seen; with further matchers, any, if one of them is on the
      metric name again. */
  ghost predicate Overlooked(env: Env, c: Chunk, q: Request)
    requires env.Valid() && GoodChunk(c) && q.Clean()
  {
    && IsAnswer(c, q)
    && if q.Rest() == [] then !HasOtherLabel(c) && !NewSeen(env, c, q.Asks()) else !OneName(q.all)
  }

  lemma LongerName(a: Bytes, ln: Bytes)
    ensures a + [COLON] + ln != a
  {
    assert |a + [COLON] + ln| > |a|;
  }

  /** An answer passes, is of the metric, and satisfies the further matchers. */
  lemma AnswerParts(c: Chunk, q: Request)
    requires GoodChunk(c) && q.Clean()
    ensures IsAnswer(c, q) <==> Passes(c, q) && NameOf(c) == q.Name() && MatchesAll(c.metric, q.Rest())
  {
    OverlapsIff(c.ref, q.from, q.through);
    assert MatchesAll(c.metric, q.all) <==> forall k :: 0 <= k < |q.all| ==> q.all[k].Match(ValueOf(c.metric, q.all[k].name));
    SplitKeepsMeaning(c.metric, q.all);
    ExtractKeepsMeaning(c.metric, NonFilters(q.all));
  }

  /** For a chunk of the metric, a further matcher on another label is satisfied exactly when the
      chunk carries a value for it; one on the metric name never shows it. */
  lemma RestCarries(env: Env, c: Chunk, q: Request, k: nat)
    requires env.Valid() && GoodChunk(c) && q.Clean() && k < |q.Rest()| && NameOf(c) == q.Name()
    ensures var m := q.Rest()[k];
            && (MatcherShows(env, c, q.Asks(), m) <==> Carries(c, q.Asks(), m))
            && (m.name != METRIC_NAME ==> (Carries(c, q.Asks(), m) <==> m.Match(ValueOf(c.metric, m.name))))
  {
    var m := q.Rest()[k];
    RestIsNonFilter(q.all, k);
    LongerName(q.Name(), m.name);
  }

  /** Get shows a chunk that is no answer exactly when the chunk misleads. */
  lemma WrongChunks(env: Env, c: Chunk, q: Request)
    requires env.Valid() && GoodChunk(c) && q.Clean()
    ensures IsShown(env, c, q) && !IsAnswer(c, q) <==> Misleads(env, c, q)
  {
    AnswerParts(c, q);
    if q.Rest() == [] {
      forall ln ensures NameOf(c) + [COLON] + ln != NameOf(c) {
        LongerName(NameOf(c), ln);
      }
    } else if NameOf(c) == q.Name() {
      forall k: nat | k < |q.Rest()| ensures !Mistaken(env, c, q.Asks(), q.Rest()[k]) {
        LongerName(q.Name(), q.Rest()[k].name);
      }
      assert !Mistaken(env, c, q.Asks(), q.Rest()[0]);
      forall k: nat | k < |q.Rest()| && MatcherShows(env, c, q.Asks(), q.Rest()[k])
        ensures q.Rest()[k].Match(ValueOf(c.metric, q.Rest()[k].name))
      {
        RestCarries(env, c, q, k);
      }
    }
  }

  /** Get leaves out an answer exactly when it is overlooked. */
  lemma MissingChunks(env: Env, c: Chunk, q: Request)
    requires env.Valid() && GoodChunk(c) && q.Clean()
    ensures IsAnswer(c, q) && !IsShown(env, c, q) <==> Overlooked(env, c, q)
  {
    AnswerParts(c, q);
    if IsAnswer(c, q) && q.Rest() == [] {
      forall ln ensures NameOf(c) + [COLON] + ln != NameOf(c) {
        LongerName(NameOf(c), ln);
      }
    } else if IsAnswer(c, q) {
      forall k: nat | k < |q.Rest()| ensures MatcherShows(env, c, q.Asks(), q.Rest()[k]) <==> q.Rest()[k].name != METRIC_NAME {
        RestCarries(env, c, q, k);
      }
    }
  }

  /** Every Put has succeeded: the list is what Get returns. */
  ghost predicate Returned(env: Env, full: set<Chunk>, q: Request, chunks: seq<Chunk>)
    requires env.Valid() && (forall c :: c in full ==> GoodChunk(c)) && q.Clean()
  {
    Answered(env, full, full, q.user, q.from, q.through, q.all, chunks)
  }

  /** The list has exactly the answers. */
  ghost predicate Exact(full: set<Chunk>, q: Request, chunks: seq<Chunk>) {
    forall c :: c in chunks <==> c in full && IsAnswer(c, q)
  }

  /** What Get returns is determined by the chunks put: it does not depend on the order in which
      goroutines deliver. */
  lemma AnswerIsUnique(env: Env, full: set<Chunk>, q: Request, x: seq<Chunk>, y: seq<Chunk>)
    requires env.Valid() && (forall c :: c in full ==> GoodChunk(c)) && q.Clean()
    requires Returned(env, full, q, x) && Returned(env, full, q, y)
    ensures x == y
    ensures forall c :: c in x <==> c in full && IsShown(env, c, q)
  {
    ChunkBeforeIsStrictOrder();
    SortedIsUnique(ChunkBefore, x, y);
  }

  /** Get is exact if and only if no chunk in the store misleads or is overlooked. */
  lemma GetIsExactIff(env: Env, full: set<Chunk>, q: Request, chunks: seq<Chunk>)
    requires env.Valid() && (forall c :: c in full ==> GoodChunk(c)) && q.Clean() && Returned(env, full, q, chunks)
    ensures Exact(full, q, chunks) <==> forall c :: c in full ==> !Misleads(env, c, q) && !Overlooked(env, c, q)
  {
    AnswerIsUnique(env, full, q, chunks, chunks);
    forall c: Chunk | c in full
      ensures (c in chunks <==> IsAnswer(c, q)) <==> !Misleads(env, c, q) && !Overlooked(env, c, q)
    {
      WrongChunks(env, c, q);
      MissingChunks(env, c, q);
    }
  }

  // -------------------------------------------------- schemas that change at midnight

  /** With schemas that change at midnight no chunk misleads a query with further matchers. */
  lemma NotMistaken(env: Env, c: Chunk, q: Request)
    requires env.Valid() && GoodChunk(c) && q.Clean() && AtMidnight(env.schemas) && q.Rest() != []
    ensures !Misleads(env, c, q)
  {
    if Misleads(env, c, q) {
      assert Mistaken(env, c, q.Asks(), q.Rest()[0]);
      NeverOld(env.schemas);
      assert false;
    }
  }

  /** The chunk has an instant in the interval at which v4 or a later version is in force. */
  ghost predicate SharesNewInstant(env: Env, c: Chunk, q: Request)
    requires env.Valid()
  {
    SharesNew(env.schemas, c.ref.from, c.ref.through, q.from, q.through)
  }

  /** With schemas that change at midnight, a query by name alone is exact if and only if, of the
      chunks that overlap it and pass its filters, none whose name, a colon and a label make up the
      name asked for shares an instant of v4 or later with it, and every one of the metric that has
      no other label does. */
  lemma NameQueryIsExactIff(env: Env, full: set<Chunk>, q: Request, chunks: seq<Chunk>)
    requires env.Valid() && (forall c :: c in full ==> GoodChunk(c)) && q.Clean() && Returned(env, full, q, chunks)
    requires AtMidnight(env.schemas) && q.from <= q.through && q.Rest() == []
    ensures Exact(full, q, chunks) <==> forall c :: c in full && Passes(c, q) ==>
              && (Collides(c, q.Name()) ==> !SharesNewInstant(env, c, q))
              && (NameOf(c) == q.Name() && !HasOtherLabel(c) ==> SharesNewInstant(env, c, q))
  {
    GetIsExactIff(env, full, q, chunks);
    forall c: Chunk | c in full && Passes(c, q)
      ensures NewSeen(env, c, q.Asks()) <==> SharesNewInstant(env, c, q)
    {
      SeenAtMidnight(env.schemas, c.ref.from, c.ref.through, q.from, q.through);
    }
    forall c: Chunk | c in full ensures IsAnswer(c, q) <==> Passes(c, q) && NameOf(c) == q.Name() {
      AnswerParts(c, q);
    }
  }

  /** With further matchers it is exact if and only if none of them is on the metric name again, or
      there is no answer. */
  lemma LabelQueryIsExactIff(env: Env, full: set<Chunk>, q: Request, chunks: seq<Chunk>)
    requires env.Valid() && (forall c :: c in full ==> GoodChunk(c)) && q.Clean() && Returned(env, full, q, chunks)
    requires AtMidnight(env.schemas) && q.Rest() != []
    ensures Exact(full, q, chunks) <==> OneName(q.all) || forall c :: c in full ==> !IsAnswer(c, q)
  {
    GetIsExactIff(env, full, q, chunks);
    forall c: Chunk | c in full ensures !Misleads(env, c, q) {
      NotMistaken(env, c, q);
    }
  }

  /** Schemas built from dates change at midnight. */
  lemma CompositeAtMidnight(v2: Option<int>, v3: Option<int>, v4: Option<int>, v5: Option<int>, v6: Option<int>)
    requires forall d :: d in {v2, v3, v4, v5, v6} && d.Some? ==> d.value % MS_IN_DAY == 0
    requires NewComposite(v2, v3, v4, v5, v6).Some?
    ensures AtMidnight(NewComposite(v2, v3, v4, v5, v6).value)
  {
    var schemas := NewComposite(v2, v3, v4, v5, v6).value;
    forall k | 0 <= k < |schemas| ensures schemas[k].start % MS_IN_DAY == 0 {
      assert schemas[k] in [SchemaEntry(0, V1)] + Enabled(v2, V2) + Enabled(v3, V3) + Enabled(v4, V4)
                           + Enabled(v5, V5) + Enabled(v6, V6);
    }
  }

  // -------------------------------------------------- inputs on which Get is not exact

  /** v1 from the epoch on, or v6. */
  function ExampleEnv(v: Version): Env {
    Env(Config(false, 0, [], [116], 1), if v == V1 then [SchemaEntry(0, V1)] else [SchemaEntry(0, V1), SchemaEntry(0, v)])
  }

  function ExampleChunk(metric: Metric): Chunk {
    Chunk(ChunkRef([117], 1, 0, 1, Some(0)), metric, [])
  }

  function ByName(name: Bytes): Matcher {
    Matcher(METRIC_NAME, Equal, name)
  }

  /** By equality of the metric name, once or twice. */
  function ExampleRequest(name: Bytes, twice: bool): Request {
    Request([117], 0, 1, if twice then [ByName(name), ByName(name)] else [ByName(name)])
  }

  lemma ExampleMatchers(m: Matcher, n: Matcher)
    requires m.name == METRIC_NAME && m.kind == Equal && !m.IsFilter() && !n.IsFilter()
    ensures Filters([m]) == [] && NonFilters([m]) == [m] && Filters([m, n]) == [] && NonFilters([m, n]) == [m, n]
    ensures Extract([m]) == Name(m.value, []) && Extract([m, n]) == Name(m.value, [n])
  {
    assert [m][..0] == [];
    assert Filters([]) == [] && NonFilters([]) == [];
    assert [m, n][..1] == [m] && [m][0] == m && [m, n][1] == n;
    assert FirstName([m]) == 0 && FirstName([m, n]) == 0;
    assert [m][..0] + [m][1..] == [] && [m, n][..0] + [m, n][1..] == [n];
  }

  lemma ExampleIsClean(name: Bytes, twice: bool)
    requires name != []
    ensures var q := ExampleRequest(name, twice);
            q.Clean() && q.Name() == name && q.Rest() == (if twice then [ByName(name)] else []) && Filters(q.all) == []
  {
    ExampleMatchers(ByName(name), ByName(name));
    NameLabelIsGood(name);
  }

  lemma NameLabelIsGood(name: Bytes)
    ensures GoodLabel(name, METRIC_NAME)
  {
  }

  lemma ExampleEnvIsValid(v: Version)
    ensures ExampleEnv(v).Valid() && VersionAt(ExampleEnv(v).schemas, 0) == v && AtMidnight(ExampleEnv(v).schemas)
  {
    var schemas := ExampleEnv(v).schemas;
    assert Started(schemas, 0) == |schemas|;
  }

  /** A chunk of the metric `a`, with or without a label `b`. */
  function Labelled(b: bool): Chunk {
    ExampleChunk(if b then map[METRIC_NAME := [97], [98] := [120]] else map[METRIC_NAME := [97]])
  }

  lemma LabelledIsGood(b: bool)
    ensures GoodChunk(Labelled(b)) && NameOf(Labelled(b)) == [97] && HasOtherLabel(Labelled(b)) == b
    ensures b ==> Collides(Labelled(b), [97, COLON, 98])
  {
    var c := Labelled(b);
    NameLabelIsGood([97]);
    assert |[98]| != |METRIC_NAME|;
    if b {
      assert [98] in c.metric && NameOf(c) + [COLON] + [98] == [97, COLON, 98];
    }
  }

  /** Asked for the metric `a:b`, Get returns a chunk of the metric `a` that has a label `b`. */
  lemma ColonFails(chunks: seq<Chunk>)
    ensures var env, c, q := ExampleEnv(V6), Labelled(true), ExampleRequest([97, COLON, 98], false);
            && env.Valid() && GoodChunk(c) && q.Clean() && Misleads(env, c, q)
            && (Returned(env, {c}, q, chunks) ==> c in chunks && !IsAnswer(c, q))
  {
    var env, c, q := ExampleEnv(V6), Labelled(true), ExampleRequest([97, COLON, 98], false);
    ExampleEnvIsValid(V6);
    ExampleIsClean([97, COLON, 98], false);
    LabelledIsGood(true);
    assert SeesNew(env.schemas, 0, 0);
    WrongChunks(env, c, q);
  }

  /** Asked for the metric `a`, Get does not return a chunk of it that was written under v1 and has
      no other label. */
  lemma NameOnlyFails(chunks: seq<Chunk>)
    ensures var env, c, q := ExampleEnv(V1), Labelled(false), ExampleRequest([97], false);
            && env.Valid() && GoodChunk(c) && q.Clean() && Overlooked(env, c, q)
            && (Returned(env, {c}, q, chunks) ==> c !in chunks && IsAnswer(c, q))
  {
    var env, c, q := ExampleEnv(V1), Labelled(false), ExampleRequest([97], false);
    ExampleEnvIsValid(V1);
    ExampleIsClean([97], false);
    LabelledIsGood(false);
    AnswerParts(c, q);
    assert forall t :: t >= 0 ==> VersionAt(env.schemas, t) == V1;
    MissingChunks(env, c, q);
  }

  /** Asked for the metric `a` twice, Get returns nothing. */
  lemma SecondNameFails(chunks: seq<Chunk>)
    ensures var env, c, q := ExampleEnv(V6), Labelled(true), ExampleRequest([97], true);
            && env.Valid() && GoodChunk(c) && q.Clean() && Overlooked(env, c, q)
            && (Returned(env, {c}, q, chunks) ==> c !in chunks && IsAnswer(c, q))
  {
    var env, c, q := ExampleEnv(V6), Labelled(true), ExampleRequest([97], true);
    ExampleEnvIsValid(V6);
    ExampleIsClean([97], true);
    LabelledIsGood(true);
    AnswerParts(c, q);
    MissingChunks(env, c, q);
  }

  /** Asked for the metric `a` with the label `b` equal to `x`, on a day on which v3 gives way to v5
      at noon, Get returns a chunk of the metric `a:b` that has a label `c` equal to `x`. */
  lemma NoonFails(chunks: seq<Chunk>)
    ensures var env, c, q := NoonEnv(), NoonChunk(), NoonRequest();
            && env.Valid() && GoodChunk(c) && q.Clean() && Misleads(env, c, q)
            && (Returned(env, {c}, q, chunks) ==> c in chunks && !IsAnswer(c, q))
  {
    NoonMisleads();
    WrongChunks(NoonEnv(), NoonChunk(), NoonRequest());
  }

  lemma NoonMisleads()
    ensures var env, c, q := NoonEnv(), NoonChunk(), NoonRequest();
            env.Valid() && GoodChunk(c) && q.Clean() && Misleads(env, c, q)
  {
    var c, q := NoonChunk(), NoonRequest();
    NoonIsClean();
    NoonIsGood();
    assert [99] in c.metric && q.Rest()[0].Match(c.metric[[99]]);
    NoonSees();
    assert Inside(0, c.ref.from, c.ref.through) && Inside(NOON, q.from, q.through);
  }

  const NOON: int := 43_200_000

  function NoonEnv(): Env {
    Env(Config(false, 0, [], [116], 1), [SchemaEntry(0, V1), SchemaEntry(0, V3), SchemaEntry(NOON, V5)])
  }

  function NoonChunk(): Chunk {
    ExampleChunk(map[METRIC_NAME := [97, COLON, 98], [99] := [120]])
  }

  function NoonRequest(): Request {
    Request([117], 0, NOON, [ByName([97]), Matcher([98], Equal, [120])])
  }

  lemma NoonSees()
    ensures NoonEnv().Valid() && SeesOld(NoonEnv().schemas, 0, NOON, true)
  {
    var schemas := NoonEnv().schemas;
    assert Started(schemas, 0) == 2 && Started(schemas, NOON) == 3;
  }

  lemma NoonIsClean()
    ensures var q := NoonRequest();
            q.Clean() && q.Name() == [97] && q.Rest() == [Matcher([98], Equal, [120])] && Filters(q.all) == []
  {
    ExampleMatchers(ByName([97]), Matcher([98], Equal, [120]));
    assert CleanLabel([98]) && PlainLabel([98]);
  }

  lemma NoonIsGood()
    ensures NoonEnv().Valid() && GoodChunk(NoonChunk()) && NameOf(NoonChunk()) == [97] + [COLON] + [98]
  {
    NameLabelIsGood([97, COLON, 98]);
    assert |[99]| != |METRIC_NAME|;
    assert CleanLabel([99]) && PlainLabel([99]);
  }
}

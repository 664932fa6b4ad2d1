/** A store with one chunk in it, asked once: the inputs on which Get is not exact, from an empty
    store on. */
module StoreRuns {
  import opened ByteStrings
  import opened SortedLists
  import opened Storage
  import opened Schema
  import opened SchemaCoverage
  import opened ExternalKeys
  import opened Matchers
  import opened ChunkIndex
  import opened Placement
  import opened ChunkStore
  import opened Exactness

  /** All rows of all buckets are in the one table. */
  lemma OneTable(env: Env, user: Bytes, name: Bytes, from: int, through: int, b: Bucket)
    requires env.Valid() && !env.cfg.usePeriodicTables && from <= through
    requires b in Buckets(env.cfg, env.schemas, user, name, from, through)
    ensures b.table == env.cfg.originalTableName
  {
    var seg, i := AllBucketsMember(env.cfg, user, name, Segments(env.schemas, from, through), b);
  }

  lemma OneTableForRows(env: Env, c: Chunk, e: Entry)
    requires env.Valid() && !env.cfg.usePeriodicTables && GoodChunk(c) && Indexes(env, c, e)
    ensures e.table == env.cfg.originalTableName
  {
    var b :| b in BucketsOfChunk(env, c) && e in WriteRows(b, c.metric, Key(c.ref));
    RowTable(b, c.metric, Key(c.ref), e);
    OneTable(env, c.ref.user, c.metric[METRIC_NAME], c.ref.from, c.ref.through, b);
  }

  /** A chunk can be put into an empty store with that table. */
  lemma FirstIsPuttable(env: Env, tables: Tables, c: Chunk)
    requires env.Valid() && VersionsDiffer(env.schemas) && !env.cfg.usePeriodicTables && GoodChunk(c) && !Unwritable(env, c)
    requires env.cfg.originalTableName in tables && Consistent(env, tables, {}, {})
    ensures Puttable(env, tables, [c])
  {
    forall e | Indexes(env, c, e) ensures e.table in tables {
      OneTableForRows(env, c, e);
    }
    assert Provided(env, tables, c) && [c][0] == c;
    NewChunksArePuttable(env, tables, {}, {}, [c]);
  }

  lemma ServedFromOneTable(env: Env, tables: Tables, full: set<Chunk>, tried: set<Chunk>, a: Ask, l: Lookup)
    requires env.Valid() && !env.cfg.usePeriodicTables && Consistent(env, tables, full, tried) && CleanAsk(a, l)
    requires CanRead(env, a, l) && env.cfg.originalTableName in tables && Free(a.user, SLASH)
    ensures Served(env, tables, a, l)
  {
    forall b | b in BucketsOfAsk(env, a) && ReadQuery(b, l).Some? ensures Readable(tables, a.user, ReadQuery(b, l).value) {
      OneTable(env, a.user, a.name, a.from, a.through, b);
      LookupIsReadable(env, tables, full, tried, a, l, b);
    }
  }

  /** The chunk and the request can be given to a store that keeps everything in one table. */
  ghost predicate CanRun(env: Env, c: Chunk, q: Request) {
    && env.Valid() && VersionsDiffer(env.schemas) && !env.cfg.usePeriodicTables
    && GoodChunk(c) && !Unwritable(env, c)
    && q.Clean() && Free(q.user, SLASH) && q.from <= q.through
    && forall k :: 0 <= k < |q.Rest()| ==> CanRead(env, q.Asks(), LookupFor(q.Rest()[k]))
  }

  /** A store with the chunk in it. */
  method PutOne(env: Env, c: Chunk) returns (store: Store)
    requires env.Valid() && VersionsDiffer(env.schemas) && !env.cfg.usePeriodicTables && GoodChunk(c) && !Unwritable(env, c)
    ensures store.Valid() && store.env == env && store.full == store.tried == {c}
    ensures env.cfg.originalTableName in store.storage.tables
  {
    var storage := new MockStorage({env.cfg.originalTableName});
    store := new Store(env, storage);
    FirstIsPuttable(env, storage.tables, c);
    assert [c][0] == c && (set x | x in [c]) == {c};
    var put := store.Put([c]);
  }

  lemma AllServedFromOneTable(env: Env, tables: Tables, c: Chunk, q: Request)
    requires CanRun(env, c, q) && Consistent(env, tables, {c}, {c}) && env.cfg.originalTableName in tables
    ensures AllServed(env, tables, q.Asks(), q.Rest())
  {
    var a, rest := q.Asks(), q.Rest();
    if rest == [] {
      ServedFromOneTable(env, tables, {c}, {c}, a, ByMetric);
    } else {
      forall k | 0 <= k < |rest| ensures Served(env, tables, a, LookupFor(rest[k])) {
        ServedFromOneTable(env, tables, {c}, {c}, a, LookupFor(rest[k]));
      }
    }
  }

  /** Put the chunk into an empty store, then Get. */
  method PutThenGet(env: Env, c: Chunk, q: Request) returns (r: GetResult)
    requires CanRun(env, c, q)
    ensures r.Chunks? && Returned(env, {c}, q, r.chunks)
  {
    var store := PutOne(env, c);
    AllServedFromOneTable(env, store.storage.tables, c, q);
    r := store.Get(q.user, q.from, q.through, q.all);
  }

  /** With a slash in the user ID, a chunk that a query shows makes it fail. */
  method ShownUnderSlash(env: Env, c: Chunk, q: Request) returns (r: GetResult)
    requires env.Valid() && VersionsDiffer(env.schemas) && !env.cfg.usePeriodicTables && GoodChunk(c) && !Unwritable(env, c)
    requires q.Clean() && q.from <= q.through && IsShown(env, c, q) && !Free(q.user, SLASH)
    ensures r == ErrStorage
  {
    var store := PutOne(env, c);
    r := store.Get(q.user, q.from, q.through, q.all);
    assert c in store.full;
  }

  lemma NothingOrIt(env: Env, c: Chunk, q: Request, chunks: seq<Chunk>)
    requires env.Valid() && GoodChunk(c) && q.Clean() && Returned(env, {c}, q, chunks)
    ensures chunks == if c in chunks then [c] else []
  {
    ChunkBeforeIsStrictOrder();
    forall k | 0 <= k < |chunks| ensures chunks[k] == c {
      assert chunks[k] in chunks;
      assert chunks[k] in {c};
    }
    if |chunks| == 1 {
      assert chunks == [chunks[0]];
    } else if |chunks| > 1 {
      assert ChunkBefore(chunks[0], chunks[1]) && Compared(c, c, c);
      assert false;
    }
  }

  lemma PlainValues(env: Env, c: Chunk)
    requires env.Valid() && GoodChunk(c) && forall ln :: ln in c.metric ==> Free(c.metric[ln], NUL)
    ensures !Unwritable(env, c)
  {
  }

  lemma ValueIsReadable(env: Env, a: Ask, l: Lookup)
    requires env.Valid() && a.from <= a.through && (l.ByValue? ==> Free(l.value, NUL))
    ensures CanRead(env, a, l)
  {
  }

  lemma LabelledIsWritable(v: Version, b: bool)
    ensures ExampleEnv(v).Valid() && GoodChunk(Labelled(b)) && !Unwritable(ExampleEnv(v), Labelled(b))
  {
    ExampleEnvIsValid(v);
    LabelledIsGood(b);
    PlainValues(ExampleEnv(v), Labelled(b));
  }

  lemma ExampleVersions(v: Version)
    ensures VersionsDiffer(ExampleEnv(v).schemas) && !ExampleEnv(v).cfg.usePeriodicTables
  {
  }

  lemma ExampleCanRun(v: Version, b: bool, name: Bytes, twice: bool)
    requires name != [] && Free(name, NUL)
    ensures CanRun(ExampleEnv(v), Labelled(b), ExampleRequest(name, twice))
  {
    var env, c, q := ExampleEnv(v), Labelled(b), ExampleRequest(name, twice);
    ExampleEnvIsValid(v);
    ExampleIsClean(name, twice);
    LabelledIsWritable(v, b);
    ExampleVersions(v);
    assert Free(q.user, SLASH) && q.from <= q.through;
    forall k | 0 <= k < |q.Rest()| ensures CanRead(env, q.Asks(), LookupFor(q.Rest()[k])) {
      ValueIsReadable(env, q.Asks(), LookupFor(q.Rest()[k]));
    }
  }

  /** With a chunk of the metric `a` that has a label `b` put, Get for the metric `a:b` returns it. */
  method ColonAtGet() returns (r: GetResult)
    ensures r == Chunks([Labelled(true)]) && !IsAnswer(Labelled(true), ExampleRequest([97, COLON, 98], false))
  {
    ExampleCanRun(V6, true, [97, COLON, 98], false);
    r := PutThenGet(ExampleEnv(V6), Labelled(true), ExampleRequest([97, COLON, 98], false));
    ColonFails(r.chunks);
    NothingOrIt(ExampleEnv(V6), Labelled(true), ExampleRequest([97, COLON, 98], false), r.chunks);
  }

  /** With a chunk of the metric `a` without other labels put under v1, Get for it returns nothing. */
  method NameOnlyAtGet() returns (r: GetResult)
    ensures r == Chunks([]) && IsAnswer(Labelled(false), ExampleRequest([97], false))
  {
    ExampleCanRun(V1, false, [97], false);
    r := PutThenGet(ExampleEnv(V1), Labelled(false), ExampleRequest([97], false));
    NameOnlyFails(r.chunks);
    NothingOrIt(ExampleEnv(V1), Labelled(false), ExampleRequest([97], false), r.chunks);
  }

  /** With a chunk of the metric `a` put, Get for the metric `a` stated twice returns nothing. */
  method SecondNameAtGet() returns (r: GetResult)
    ensures r == Chunks([]) && IsAnswer(Labelled(true), ExampleRequest([97], true))
  {
    ExampleCanRun(V6, true, [97], true);
    r := PutThenGet(ExampleEnv(V6), Labelled(true), ExampleRequest([97], true));
    SecondNameFails(r.chunks);
    NothingOrIt(ExampleEnv(V6), Labelled(true), ExampleRequest([97], true), r.chunks);
  }

  lemma NoonCanRun()
    ensures CanRun(NoonEnv(), NoonChunk(), NoonRequest())
  {
    var env, c, q := NoonEnv(), NoonChunk(), NoonRequest();
    NoonIsClean();
    NoonIsWritable();
    NoonVersions();
    assert Free(q.user, SLASH) && q.from <= q.through;
    forall k | 0 <= k < |q.Rest()| ensures CanRead(env, q.Asks(), LookupFor(q.Rest()[k])) {
      ValueIsReadable(env, q.Asks(), LookupFor(q.Rest()[k]));
    }
  }

  lemma NoonVersions()
    ensures VersionsDiffer(NoonEnv().schemas) && !NoonEnv().cfg.usePeriodicTables
  {
  }

  lemma NoonIsWritable()
    ensures NoonEnv().Valid() && GoodChunk(NoonChunk()) && !Unwritable(NoonEnv(), NoonChunk())
  {
    NoonIsGood();
    PlainValues(NoonEnv(), NoonChunk());
  }

  /** With a chunk of the metric `a:b` that has a label `c` equal to `x` put, on a day on which v3
      gives way to v5 at noon, Get for the metric `a` with `b` equal to `x` returns it. */
  method NoonAtGet() returns (r: GetResult)
    ensures r == Chunks([NoonChunk()]) && !IsAnswer(NoonChunk(), NoonRequest())
  {
    NoonCanRun();
    r := PutThenGet(NoonEnv(), NoonChunk(), NoonRequest());
    NoonFails(r.chunks);
    NothingOrIt(NoonEnv(), NoonChunk(), NoonRequest(), r.chunks);
  }

  function SlashChunk(): Chunk {
    Chunk(ChunkRef([117, SLASH], 1, 0, 1, Some(0)), map[METRIC_NAME := [97], [98] := [120]], [])
  }

  function SlashRequest(): Request {
    Request([117, SLASH], 0, 1, [ByName([97])])
  }

  lemma SlashIsGood()
    ensures GoodChunk(SlashChunk()) && NameOf(SlashChunk()) == [97] && HasOtherLabel(SlashChunk())
  {
    NameLabelIsGood([97]);
    assert |[98]| != |METRIC_NAME|;
    assert [98] in SlashChunk().metric;
  }

  lemma SlashIsClean()
    ensures var q := SlashRequest(); q.Clean() && q.Name() == [97] && q.Rest() == [] && Filters(q.all) == [] && !Free(q.user, SLASH)
  {
    ExampleMatchers(ByName([97]), ByName([97]));
    assert SlashRequest().user[1] == SLASH;
  }

  lemma SlashIsShown()
    ensures ExampleEnv(V6).Valid() && GoodChunk(SlashChunk()) && SlashRequest().Clean()
    ensures IsShown(ExampleEnv(V6), SlashChunk(), SlashRequest()) && IsAnswer(SlashChunk(), SlashRequest())
  {
    ExampleEnvIsValid(V6);
    SlashIsGood();
    SlashIsClean();
    AnswerParts(SlashChunk(), SlashRequest());
    MissingChunks(ExampleEnv(V6), SlashChunk(), SlashRequest());
  }

  /** With a chunk of a user whose ID has a slash put, Get for it fails. */
  method SlashAtGet() returns (r: GetResult)
    ensures r == ErrStorage && IsAnswer(SlashChunk(), SlashRequest())
  {
    SlashIsShown();
    SlashIsClean();
    PlainValues(ExampleEnv(V6), SlashChunk());
    r := ShownUnderSlash(ExampleEnv(V6), SlashChunk(), SlashRequest());
  }
}

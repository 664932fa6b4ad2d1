# Cortex in Dafny

Cortex is a sharded, replicated time-series store. This project models the parts of it whose
specification is simple and whose code is not, and proves that the one agrees with the other.

**The chunk index.** Six schema versions, switched by time, turn a chunk into index rows and a
query into row scans. The trivial specification is: all chunks put that overlap the interval and
satisfy every matcher. `ChunkStore` proves what Get returns on every store, through the split by
schema and bucket, the range keys, base64 and hexadecimal codecs, the ordered row store with its
binary searches, and the merge and intersection of results that arrive in any order; `Exactness`
says on which stores that is the specification, and on which exactly it is not; `Placement` says
when Put succeeds; `StoreRuns` takes the failing inputs through Put and Get from an empty store on;
`Composite` says which version is in force when, and `BucketTables` which tables rows go to and that
these have throughput when they are written.
Files: `bytes`, `delimited`, `numbers`, `base64`, `range_key`, `external_key`, `sorted_lists`,
`by_key`, `storage`, `schema`, `composite`, `schema_coverage`, `sightings`, `matchers`, `chunk_index`,
`placement`, `chunk_store`, `exactness`, `store_runs`, `bucket_tables`.

**Quorum writes and reads on the ring.** `Ring` walks the tokens; `PushRun` and `Query` are the
goroutines of a write and of a read as interleaved atomic steps on counters and channels;
`PushProgress` says when a write can be left waiting; `Quorum` says when quorums meet; `Distributor`
puts them together, and `Unread` says when an acknowledged sample can go unread. `Consul` is the
compare-and-swap loop of any number of clients, and `ConsulRuns` says when its calls return and with
what.
Files: `sums`, `ring`, `quorum`, `push`, `push_run`, `push_progress`, `samples`, `query`,
`distributor`, `unread`, `consul`, `consul_runs`.

**The ingester's memory.** Fingerprint collision resolution, the inverted index, per-metric counts
and limits, and a series whose chunks are flushed without its lock while samples are added.
Files: `metric_strings`, `inverted_index`, `mapper`, `user_state`, `spans`, `series`.

**The rule scheduler.** A binary heap with a map from key to position, and its run loop.
Files: `scheduling_queue`, `scheduler`.

**Batched writes and table management.** Files: `batch_write`, `batch_runs`, `table_manager`.

A run of a protocol is a sequence of states with the steps between them (`IsRun`), in any
interleaving; theorems about runs hold at every state of every run. A class method that keeps
`Valid()` may be called in any order, so what `Valid()` says holds after any sequence of calls. The
order in which goroutines deliver and in which Go maps are visited is arbitrary (`:|`).

## What turned out false, and exactly when it holds

- *Get is exact.* `Exactness.GetIsExactIff`: it is if and only if no chunk in the store misleads the
  query or is overlooked by it, two conditions on the chunk, the query and the schemas
  (`Exactness.WrongChunks`, `Exactness.MissingChunks`). With schemas that change at midnight, as dates
  given as flags do (`util/flags.go:27-53`), they come to this. By name alone
  (`Exactness.NameQueryIsExactIff`): no chunk `a` with a label `ln` such that `a:ln` is the name asked
  for shares an instant of v4 or later with the query (`util/validate.go:11` allows `:` in names), and
  every chunk of the metric without other labels does, as versions 1 to 3 write nothing for it
  (`SchemaCoverage.NothingWritten`). With further matchers (`Exactness.LabelQueryIsExactIff`): none of
  them is on the metric name again, or there is no answer. If a version may change within a day,
  matchers are not safe either: under v4 and later a label scan takes in old rows of a metric named
  `a:ln` (`Exactness.NoonFails`). `StoreRuns.ColonAtGet`, `StoreRuns.NameOnlyAtGet`,
  `StoreRuns.SecondNameAtGet` and `StoreRuns.NoonAtGet` put one chunk into an empty store and get the
  wrong answer.
- *Every external key reads back.* With `/` in the user ID none does: `ExternalKeys.KeyRoundTrip`.
  Keys are distinct all the same: `ExternalKeys.KeyInjective`. A lookup for such a user fails if and only
  if a table is missing or it takes in any row (`ChunkIndex.LookupIsReadable`); so Get returns nothing
  or fails, and fails when there is a chunk to show (`StoreRuns.SlashAtGet`).
- *Get never panics.* It does exactly when every matcher accepts the empty value
  (`ChunkStore.Store.Get`).
- *A read meets every acknowledged write.* The comment at `ring/ring.go:171-176` says the replica set
  is widened for reads as for writes; the code counts a LEAVING ingester toward n on a read
  (`ring/ring.go:177-183`). `Quorum.LeavingAndQuorums`: on every ring, with w replicas written and r
  read, k of these LEAVING, quorums are sure to meet if and only if w or r is 0 or
  max(0, ms(w) - (w - (r - k))) + max(0, ms(r) - k) > r - k, where ms(x) is the majority of x. With all
  n replicas written (`Quorum.LeavingWithAllWritten`) that is k = 0, or k = 1 and n even; with every
  replica written also read (`Quorum.LeavingWithFewWritten`), as with three ingesters of which one is
  LEAVING at replication 3, they meet if and only if w = 0 or ms(w) + max(0, ms(w + k) - k) > w.
  `Unread.LostIff`: if and only if they need not meet, there are runs of Push and of a query in which an
  acknowledged sample is not in the answer.
- *Push always returns.* A replica without a heartbeat counts in the quorum but is sent nothing.
  `Distributor.PushHangsIff`: some run leaves Push waiting forever if and only if a sample has such a
  replica.
- *A CAS call commits at most once.* Not when an error hides a commit (`Consul.HiddenCommitRepeats`).
  `Consul.CommitsInRun` counts exactly, in terms of the steps of the run; a call commits at most once
  if no applied swap of its own is reported to it as an error (`Consul.CommitsAtMostOnce`), and so does
  every call on a store that reports none, as the repository's own (`Consul.WithoutErrorsAtMostOnce`).
- *A CAS call whose callback succeeds gets its value in.* `ConsulRuns.CallsAccount`: in every run a call
  gives up if and only if ten of its attempts have failed, and succeeds if and only if a swap of its own
  went through. An attempt that no write to the key disturbs succeeds
  (`ConsulRuns.UndisturbedSucceeds`); but errors of the store, or writes of others alone, may make any
  call give up (`ConsulRuns.MayGiveUp`, `ConsulRuns.MayStarve`).
- *A row is in the table of the times it is for.* `BucketTables.DaysShareTablesIff`: all times of a day
  have the table of its start, which is where rows go, if and only if periodic tables begin at midnight
  and last whole days. `BucketTables.RowsHaveThroughput`: then every row of a chunk of recent times is in
  a table that is expected with the throughput for writing.
- *Tables that are written to have throughput.* `TableManager.HasThroughputIff`: if and only if the
  configured start is a multiple of the table period; otherwise the original table is made inactive
  while times before the start may still be written.
- *BatchWrite gives up after its retries.* Rounds whose items come back unprocessed are not counted as
  retries. `BatchWrites.BatchWrite`: with n items there are at most n + 20(n + 1) rounds, and one more
  if the last is fatal, besides those that stall, sending back all they were sent; so it ends against
  every server that takes something whenever it sends something back, and never against one that
  sends everything back. `BatchRuns.EndlessIffStalling`: a run of the loop never ends if and only if its
  stalled rounds have no bound.
- *metricToUniqueString is unique.* Not with the separator byte in a label value
  (`MetricStrings.SeparatorConfuses`). `MetricStrings.SameStringIff`: two metrics have one string if
  and only if the fields of their sorted parts are the same; without the separator that is if and only
  if they are the same metric (`MetricStrings.UniqueStringInjective`). `MetricStrings.ConfusableIff`:
  some other metric has the string of a metric if and only if it has two labels or more, or a single
  one whose value reads as a value, the separator and another label that sorts later.
- *No two metrics share a series.* Twins can: metrics with one raw fingerprint and one string.
  `UserStates.UserState.UnlockedGet`: a metric is given the series of another if and only if it is not
  in memory itself and the other is, under the fingerprint that the string of both is mapped to; never
  when neither has the separator in a value. `UserStates.TwinsShare` does it with any two such metrics.
- *The chunks of a series stay in order.* `add` never updates `lastTime`.
  `Series.MemorySeries.Add`: chunks in order stay so if and only if the sample comes later than the
  last chunk ends, or goes into an open head chunk that is still empty and begins no later.
  `Series.AcceptedOutOfOrder` adds a sample at 5 and one at 3, after which reading at 5 finds nothing;
  `Series.MemorySeries.SamplesForRange` is exact on chunks in order.
- *Series without chunks can be read.* `samplesForRange` panics on one, and a refused first sample
  leaves one behind (`Series.RefusedFirst`: a sample at the earliest time).

## Model

| member | source | states |
|---|---|---|
| `ByteStrings.PrefixRunIsContiguous` | chunk/inmemory_storage_client.go:159-171 | the strings with a given prefix are one run of the byte order |
| `Delimited.SplitJoin` | chunk/chunk.go:123-128 | splitting undoes joining for parts without the delimiter |
| `Numerals.UintRoundTrip` | chunk/chunk.go:129-145 | every number below the limit reads back from its numeral |
| `Numerals.IntRoundTrip` | chunk/chunk.go:132-141 | every signed 64-bit number reads back from its numeral |
| `Base64.RoundTrip` | chunk/schema.go:676-690 | unpadded base64 decodes every byte string it encodes |
| `Base64.EncodeIsNulFree` | chunk/schema.go:676-681 | encoded values never contain the component delimiter |
| `RangeKeys.BuildRangeKey` | chunk/schema.go:663-674 | the preallocated buffer is filled exactly with the components, each followed by NUL |
| `RangeKeys.ComponentsOfRangeKey` | chunk/schema.go:692-705 | the components of a built key are those it was built from |
| `RangeKeys.ParseRangeValue` | chunk/schema.go:692-745 | the scan and the version switch parse what the components say, errors included |
| `RangeKeys.ParseOfRangeKey` | chunk/schema.go:692-745 | a built key parses by its components |
| `RangeKeys.EncodeTimeOrder` | chunk/schema.go:529-537 | hexadecimal offsets sort as byte strings the way they sort as uint32 |
| `RangeKeys.TimeRoundTrip` | chunk/schema.go:529-543 | decodeTime undoes encodeTime |
| `RangeKeys.ScanStart` | chunk/schema.go:630-661 | a v6 row that ends at or after the query's start is at or above the scan start |
| `RangeKeys.ScanStartIff` | chunk/schema.go:630-661 | a row is at or above the v6 scan start exactly when it ends at or after the query's start |
| `ExternalKeys.KeyRoundTrip` | chunk/chunk.go:84-172 | a checksummed key parses back to user, fingerprint, times and checksum; to an error for another user, and for everybody when the user has a slash |
| `ExternalKeys.LegacyRoundTrip` | chunk/chunk.go:98-121 | a legacy chunk ID parses back for whoever asks |
| `ExternalKeys.KeyInjective` | chunk/chunk.go:161-172 | distinct chunks have distinct keys, with or without checksums and with any user ID |
| `ExternalKeys.KeyNulFree` | chunk/chunk.go:161-172 | a key fits into a range key exactly when the user ID does |
| `SortedLists.Unique` | chunk/by_key.go:11-29 | sorted without repeats, nothing invented, no key lost |
| `SortedLists.Merge` | chunk/by_key.go:33-56 | the sorted union by key, the first list winning a tie |
| `SortedLists.Intersect` | chunk/by_key.go:70-85 | exactly the elements whose key is in both lists |
| `SortedLists.NWayIntersect` | chunk/by_key.go:59-92 | exactly the elements of the first list whose key is in every list |
| `SortedLists.SortedIsUnique` | chunk/by_key.go:33-92 | a sorted list is determined by its elements, whatever order it was built in |
| `ByKey.SortUnique` | chunk/chunk_store.go:344-346 | one index query's chunks in key order, each once |
| `ByKey.MergeArrivals` | chunk/chunk_store.go:311-328 | the union of the results of goroutines in whatever order they arrive |
| `ByKey.IntersectArrivals` | chunk/chunk_store.go:281-300 | the intersection of the results in whatever order they arrive |
| `Storage.Search` | chunk/inmemory_storage_client.go:121-124 | binary search finds the first index at which a monotone test is true |
| `Storage.SearchAny` | ingester/series.go:124-131 | on any test, the search stops where the test is true and the one before is false |
| `Storage.Write` | chunk/inmemory_storage_client.go:106-138 | the ordered insert adds exactly the entry, or refuses exactly a missing table or a repeated range value |
| `Storage.MockStorage.BatchWrite` | chunk/inmemory_storage_client.go:106-138 | every row stays strictly sorted; success writes all entries, and comes exactly when the tables refuse none of them and no two go to one place; a failure has written the entries up to one that the tables, as they then are, refuse |
| `Storage.AcceptableOneMore` | chunk/inmemory_storage_client.go:106-138 | what the tables have become refuses an entry exactly when they refused it before or it goes to the place of an entry of the batch |
| `Storage.QueryPages` | chunk/inmemory_storage_client.go:141-203 | exactly the row's items with the prefix, or at or above the start, in order |
| `Storage.PrefixBounds` | chunk/inmemory_storage_client.go:159-171 | the two searches bound exactly the run of items with the prefix |
| `Storage.PrefixRun` | chunk/inmemory_storage_client.go:159-171 | going up the order, a string stays after the start and after the end of a prefix run |
| `Schema.ForSchemas` | chunk/schema.go:207-261 | the callbacks of the loop are the segments of the interval |
| `Schema.SegmentsPartition` | chunk/schema.go:207-261 | the segments are contiguous, disjoint, non-empty and in order, cover the interval from the first schema on, and each lies in the reign of its schema, equal starts and negative times included |
| `Schema.PartitionCovers` | chunk/schema.go:207-261 | every instant is in a segment of the version in force |
| `Composite.CompositeIff` | chunk/schema.go:175-205 | there is a composite schema exactly when no version starts before one that came earlier |
| `Composite.LatestIsInForce` | chunk/schema.go:175-261 | the version in force at a time is the latest one whose start date has come |
| `Schema.BucketLoop` | chunk/schema.go:110-156 | the hourly and daily loops visit exactly the buckets of a segment; which these are in terms of instants is for `BucketTables` to say |
| `Schema.VisitBuckets` | chunk/schema.go:263-285 | the composite visits the buckets of all segments in order |
| `Schema.WriteEntries` | chunk/schema.go:385-628 | each version's write entries are exactly its rows, each in a place of its own, and are refused exactly for NUL in a v1 or v2 label value |
| `SchemaCoverage.DailyOffsets` | chunk/schema.go:129-156 | offsets within a day never wrap in uint32 |
| `SchemaCoverage.HourlyOffsets` | chunk/schema.go:110-127 | in an hourly bucket the first offset is a true one, the last is counted from the start of the day with the number of the hour and wraps around |
| `SchemaCoverage.OffsetsUnused` | chunk/schema.go:385-527 | before v5 neither rows nor scans depend on the offsets |
| `SchemaCoverage.SharedInstant` | chunk/schema.go:110-261 | a chunk and a query that share an instant visit a common bucket, the query starting no later than the chunk ends |
| `SchemaCoverage.LabelRowIsFound` | chunk/schema.go:404-661 | in a common bucket every version's label scans take in the chunk's label row |
| `SchemaCoverage.MetricRowIsFound` | chunk/schema.go:497-639 | in a common bucket the metric scan takes in the chunk's metric row |
| `SchemaCoverage.LabelRowParses` | chunk/schema.go:385-745 | every label row parses back to its chunk and value, arbitrary bytes from v3 on |
| `SchemaCoverage.MetricRowParses` | chunk/schema.go:472-745 | every metric row parses back to its chunk and the empty value |
| `SchemaCoverage.RowsMeet` | chunk/schema.go:385-661 | a row that a query reads is in the bucket and user of the query and under the name it asks for |
| `SchemaCoverage.LabelScan` | chunk/schema.go:404-661 | a label row that a label scan takes in is of the label and metric asked for, or an old row of a metric named like it, a colon and the label |
| `SchemaCoverage.OldRowScanned` | chunk/schema.go:489-661 | such old rows are taken in |
| `SchemaCoverage.NewRowScanned` | chunk/schema.go:459-661 | when a metric scan takes in a row of v4 or later under its hash key |
| `SchemaCoverage.HashKeyInjective` | chunk/schema.go:110-156 | hash keys determine user, bucket and metric name |
| `SchemaCoverage.RowsCollide` | chunk/schema.go:489 | a metric row and a label row share a hash key exactly when one metric's name is the other's, a colon and the label |
| `SchemaCoverage.LabelHashKeyInjective` | chunk/schema.go:472-524 | label hash keys determine user, bucket, metric name and label |
| `SchemaCoverage.NothingWritten` | chunk/schema.go:385-457 | no row is written exactly for a name-only chunk under v1 to v3 |
| `Sightings.SeenByBuckets` | chunk/schema.go:110-261 | buckets of a chunk and a query show new rows only when two instants of one day do |
| `Sightings.BucketsOfInstants` | chunk/schema.go:110-261 | two instants of one day give a write bucket and a read bucket that meet |
| `Sightings.OneVersionADay` | util/flags.go:27-53 | schemas that change at midnight have one version a day |
| `Sightings.SeenAtMidnight` | chunk/schema.go:110-285 | then overlapping intervals see new rows exactly when they share an instant of v4 or later, and old rows never |
| `BucketTables.BucketHasInstant` | chunk/schema.go:100-285 | with tables of whole days, every bucket visited for an interval is that of one of its instants: version in force, hour or day in the hash key, table of its time |
| `BucketTables.InstantHasBucket` | chunk/schema.go:100-285 | and every instant of the interval has its bucket among those visited |
| `BucketTables.TableOfInstant` | chunk/schema.go:100-156 | an hourly or daily bucket is in the table of every instant in it |
| `BucketTables.DaysShareTablesIff` | chunk/schema.go:100-156 | every time has the table of the start of its day if and only if tables begin at midnight and last whole days |
| `BucketTables.RowHasInstant` | chunk/schema.go:100-628 | every row of a chunk is in the table of an instant of the chunk |
| `BucketTables.RowsHaveThroughput` | chunk/table_manager.go:213-269 | every row of a chunk whose times are recent and after the first periodic table is in a table that is expected with the throughput for writing |
| `Matchers.SplitFiltersAndMatchers` | util/matchers.go:11-20 | matchers that accept the empty value are the filters, order kept |
| `Matchers.FiltersSelect` | util/matchers.go:11-20 | the filters are the selection, in order, of the matchers that accept the empty value |
| `Matchers.NonFiltersSelect` | util/matchers.go:11-20 | the others are the selection, in order, of those that do not |
| `Matchers.SplitKeepsMeaning` | util/matchers.go:11-20 | splitting loses no condition |
| `Matchers.ExtractMetricNameFromMatchers` | util/matchers.go:33-48 | the first name matcher is taken out, or the error or panic the code has |
| `Matchers.ExtractKeepsMeaning` | util/matchers.go:33-48 | taking the name out loses no condition |
| `ChunkIndex.RowSpeaksForChunk` | chunk/chunk_store.go:349-382 | a stored row that a lookup scans is a row of a chunk of that user and bucket under the name asked for, and reads as that chunk with the value of the label the row is for |
| `ChunkIndex.OverlapsIff` | chunk/chunk_store.go:198-208 | the overlap test is true exactly when chunk and query share an instant |
| `ChunkIndex.LookupIsReadable` | chunk/chunk_store.go:331-382 | a lookup fails exactly for a missing table, or when it takes in any row of a user whose ID has a slash |
| `ChunkIndex.LookupIsSound` | chunk/chunk_store.go:246-382 | a lookup finds only chunks that were put and that it shows: those its matcher accepts, and those that colons in metric names confuse with them |
| `ChunkIndex.LabelLookupIsComplete` | chunk/chunk_store.go:246-382 | a label lookup that does not fail finds every overlapping chunk that it shows, those whose label the matcher accepts among them |
| `ChunkIndex.MetricLookupIsComplete` | chunk/chunk_store.go:246-382 | a metric lookup that does not fail finds every overlapping chunk that it shows: of the metric with another label, or with new rows in sight |
| `ChunkStore.ProcessResponse` | chunk/chunk_store.go:349-382 | exactly the chunks of the items the matcher accepts, or an error for an unreadable item |
| `ChunkStore.LookupEntry` | chunk/chunk_store.go:331-347 | exactly what the index query finds, in key order |
| `ChunkStore.LookupEntries` | chunk/chunk_store.go:303-329 | the union of what all queries find, in key order |
| `ChunkStore.LookupMatchers` | chunk/chunk_store.go:246-301 | the intersection of what the matchers look up |
| `ChunkStore.CalculateWrites` | chunk/chunk_store.go:162-182 | exactly the rows of all chunks, in different places exactly when the chunks' rows are; or an error for a chunk that cannot be written |
| `ChunkStore.BatchKeepsConsistent` | chunk/chunk_store.go:151-182 | a batch, whole or partial, keeps the index consistent with the chunks tried and those put |
| `ChunkStore.FetchChunkData` | chunk/chunk_store.go:384-416 | the chunks behind all references in whatever order they arrive |
| `ChunkStore.Store.Put` | chunk/chunk_store.go:93-182 | after any sequence of Puts the index agrees with the history; it succeeds exactly when each chunk has a name, labels its schemas take and rows in different places that no table refuses, and no two chunks have rows for one place; a failed Put adds nothing that counts as put |
| `Placement.NewChunksArePuttable` | chunk/chunk_store.go:93-182 | new chunks can be put exactly when each has a name, labels its schemas take and tables for its rows |
| `Placement.MeetsOnlyItself` | chunk/schema.go:385-628 | rows of different chunks never go to one place |
| `Placement.RowsAreClear` | chunk/schema.go:207-628 | rows of one chunk never go to one place, in every bucket and under every schema, even if versions change within a day |
| `Placement.CompositeVersionsDiffer` | chunk/schema.go:175-205 | a composite schema has each version once at most |
| `Placement.EntriesOfBuckets` | chunk/schema.go:263-285 | the rows of all buckets, or an error when one refuses the labels; in different places exactly when the buckets are clear |
| `ChunkStore.Store.Get` | chunk/chunk_store.go:185-244 | for any metric name, and with or without a slash in the user ID, in key order exactly the chunks its lookups show, among those put and those tried; nothing with a second matcher on the name and schemas that change at midnight, nor with a slash in the user ID; and the exact error and panic conditions |
| `Exactness.AnswerIsUnique` | chunk/chunk_store.go:185-244 | with every Put successful the answer is determined, independent of arrival order |
| `Exactness.GetIsExactIff` | chunk/chunk_store.go:185-244 | the answer is exactly the chunks asked for, those of the user that share an instant with the interval and whose value of every label each matcher accepts, if and only if no chunk misleads or is overlooked |
| `Exactness.WrongChunks` | chunk/chunk_store.go:185-301 | a chunk that is no answer is returned exactly when it misleads |
| `Exactness.MissingChunks` | chunk/chunk_store.go:185-301 | an answer is left out exactly when it is overlooked |
| `Exactness.NameQueryIsExactIff` | chunk/chunk_store.go:185-244 | by name alone, with schemas that change at midnight: exact if and only if no colliding chunk, and every chunk of the metric without other labels, shares an instant of v4 or later |
| `Exactness.LabelQueryIsExactIff` | chunk/chunk_store.go:246-301 | with further matchers: exact if and only if none is on the metric name, or there is no answer |
| `Exactness.CompositeAtMidnight` | chunk/schema.go:175-205 | schemas made from dates change at midnight |
| `Exactness.ColonFails` | util/validate.go:11 | whatever Get returns for `a:b` holds a chunk of `a` with a label `b` |
| `Exactness.NameOnlyFails` | chunk/schema.go:385-457 | whatever Get returns leaves out a name-only chunk of v1 |
| `Exactness.SecondNameFails` | util/matchers.go:33-48 | whatever Get returns for a name stated twice leaves the chunk out |
| `Exactness.NoonFails` | chunk/schema.go:207-285 | whatever Get returns on a day of two versions holds a chunk of another metric |
| `StoreRuns.PutThenGet` | chunk/chunk_store.go:93-244 | one chunk put into an empty store, then one query: both succeed |
| `StoreRuns.ColonAtGet` | util/validate.go:11 | the wrong answer, from an empty store on |
| `StoreRuns.NameOnlyAtGet` | chunk/schema.go:385-457 | the missing answer, from an empty store on |
| `StoreRuns.SecondNameAtGet` | util/matchers.go:33-48 | the missing answer, from an empty store on |
| `StoreRuns.NoonAtGet` | chunk/schema.go:207-285 | the wrong answer, from an empty store on |
| `StoreRuns.SlashAtGet` | chunk/chunk.go:84-128 | the failure for a user ID with a slash, from an empty store on |
| `Ring.Search` | ring/ring.go:209-217 | the first token greater than the key, with wraparound |
| `Ring.GetInternal` | ring/ring.go:149-188 | despite the moving bound, exactly the first n distinct owners clockwise from the key that are ACTIVE, or for a read ACTIVE or LEAVING: in the order they are met, all of them when fewer than n, and any left out is met after all those returned |
| `Ring.ReplicasAreFirst` | ring/ring.go:149-188 | the same of the replicas of any walk |
| `Ring.ReplicasAreDistinct` | ring/ring.go:149-188 | replicas are distinct and eligible, and all there are when fewer than n |
| `Ring.ReadsMeetWrites` | ring/ring.go:177-183 | read and write replicas coincide exactly when no replica read is LEAVING |
| `Ring.BatchGet` | ring/ring.go:134-147 | the replicas of every key in the order of the keys; an error exactly for an empty ring |
| `Ring.Desc.AddIngester` | ring/model.go:30-48 | tokens stay sorted and owners registered; exactly the new tokens are added |
| `Ring.Desc.RemoveIngester` | ring/model.go:51-60 | the ingester and exactly its tokens go |
| `Ring.WithoutOwnerSelects` | ring/model.go:51-60 | what is left is the selection, in order, of the tokens of others |
| `Ring.Desc.ClaimTokens` | ring/model.go:64-73 | exactly the tokens of one ingester change owner; owners stay registered exactly when the new one is or there was nothing to claim |
| `Ring.Desc.TokensFor` | ring/model.go:100-109 | the ingester's tokens in order, and all tokens (the second result is not "those for others") |
| `Ring.TokensOfSelects` | ring/model.go:64-109 | the tokens of an ingester are the selection, in order, of those it owns |
| `Ring.HandOver` | ring/model.go:51-73 | claim into an ingester without tokens, then remove: no token lost, and every key's walk is the same with one ingester renamed |
| `Ring.CountTokens` | ring/ring.go:226-240 | how many tokens each ingester has; uint32 arithmetic never wraps, each ingester gets its widths, and widths sum to MaxUint32 |
| `Quorum.QuorumsMeetIff` | distributor/distributor.go:306-308 | the exact condition for every quorum of one set to meet every quorum of another |
| `Quorum.SameReplicasMeet` | distributor/distributor.go:306-308 | two quorums of one replica set share an ingester |
| `Quorum.ReadAgainstWrite` | ring/ring.go:149-188 | on every ring the replicas read that are not written are exactly the LEAVING ones |
| `Quorum.LeavingAndQuorums` | ring/ring.go:171-183 | on every ring reads are sure to meet writes exactly when the numbers of replicas written, read and LEAVING say so |
| `Quorum.LeavingWithAllWritten` | ring/ring.go:171-183 | with all n written: exactly with no LEAVING replica, or one of an even n |
| `Quorum.LeavingWithFewWritten` | ring/ring.go:171-183 | with every replica written also read: exactly when a quorum of the written ones leaves fewer than a read must take of them |
| `Quorum.ReplicaCountIsUniform` | ring/ring.go:149-188 | every key of a ring has the same number of replicas |
| `Push.Prepare` | distributor/distributor.go:303-331 | quorums count dead replicas, exactly the live ones are sent each sample, and an error exactly when some sample lacks a live quorum |
| `PushRun.StepKeeps` | distributor/distributor.go:364-393 | every atomic step keeps the counters equal to the votes and the signals right |
| `PushRun.SignalsAreRight` | distributor/distributor.go:303-393 | in every interleaving at most one signal in all: done only with a quorum for every sample, err only with too many failures for one |
| `PushRun.NotBoth` | distributor/distributor.go:303-311 | no sample both reaches its quorum and fails |
| `PushRun.CompletedOutcome` | distributor/distributor.go:333-393 | a completed run returns success, an error or nothing, each exactly when the counts say so |
| `PushProgress.RunsAreFinite` | distributor/distributor.go:364-393 | every run is finite, with a bound |
| `PushProgress.AllLiveAnswers` | distributor/distributor.go:303-393 | with all replicas live every completed run sends exactly one signal and Push returns it |
| `PushProgress.HangsIff` | distributor/distributor.go:306-331 | some run leaves Push waiting forever exactly when a sample has a dead replica |
| `Samples.MergeSamples` | util/util.go:6-29 | the two-index loop computes the merge |
| `Samples.MergeCovers` | util/util.go:6-29 | for any lists, no time is lost and no sample invented |
| `Samples.MergeIsSorted` | util/util.go:6-29 | sorted lists merge into a sorted list, one sample a time, the first list's on a tie |
| `Query.QueryReturns` | distributor/distributor.go:453-507 | every query at rest has returned a quorum of distinct results or one error, and no goroutine is blocked |
| `Query.QueryIsFinite` | distributor/distributor.go:453-507 | every query comes to rest within three steps an ingester |
| `Query.ResultsAreAQuorum` | distributor/distributor.go:476-500 | results returned are those of a quorum of distinct ingesters |
| `Query.AnyMayFail` | distributor/distributor.go:453-507 | whichever ingesters fail, some query comes to rest with exactly their errors, and it returns an error exactly when they are more than it tolerates |
| `Query.MergeResults` | distributor/distributor.go:476-506 | for every fingerprint, every time any result has and no sample none has; the metric of the first result, and the samples of all results merged in the order they arrived |
| `Query.FirstResultCounts` | distributor/distributor.go:476-506 | results in order merge into one in order, and of several samples at one time the one that arrived first counts |
| `Distributor.RingBatch` | distributor/distributor.go:292-331 | replicas looked up in one ring are distinct and as many for every sample |
| `Distributor.PushHangsIff` | distributor/distributor.go:292-348 | the same condition for batches taken from a ring |
| `Distributor.QuorumRead` | distributor/distributor.go:256-507 | if quorums always meet, an acknowledged sample's time is in the merged answer |
| `Distributor.AcknowledgedIsRead` | distributor/distributor.go:256-507 | every acknowledged sample's time is in every later successful query, when the numbers of replicas written, read and LEAVING make quorums meet |
| `Distributor.NoneLeaving` | ring/ring.go:149-188 | without LEAVING replicas they do |
| `Unread.LostIff` | distributor/distributor.go:256-507 | runs of Push and of a query in which an acknowledged sample goes unread exist if and only if the numbers of replicas written, read and LEAVING do not make quorums meet |
| `Unread.AcknowledgedBy` | distributor/distributor.go:303-393 | Push is acknowledged when exactly a given quorum takes the sample |
| `Unread.HeardFrom` | distributor/distributor.go:453-507 | a query returns the results of any quorum, in any order |
| `Consul.MockKV.CAS` | ring/consul_client_mock.go:69-94 | writes under a new index unless the key has another index |
| `Consul.MockKV.Put` | ring/consul_client_mock.go:47-67 | writes under a new index, the create index kept |
| `Consul.MockKV.Get` | ring/consul_client_mock.go:96-121 | the stored pair, if any |
| `Consul.StepKeeps` | ring/consul_client.go:126-184 | every step of any client keeps the chain of commits |
| `Consul.NoUpdateIsLost` | ring/consul_client.go:126-184 | every commit is its callback applied to the value committed just before; a call commits once if it succeeds and not otherwise, hidden commits apart |
| `Consul.CommitsInRun` | ring/consul_client.go:126-184 | in every run a call commits once for its success and once for each applied swap reported to it as an error |
| `Consul.CommitsAtMostOnce` | ring/consul_client.go:126-184 | at most once, and exactly if it returned success, when no such swap is among the steps |
| `Consul.WithoutErrorsAtMostOnce` | ring/consul_client_mock.go:69-94 | so for every call of a store that reports no applied swap as an error |
| `Consul.CallsAreSerial` | ring/consul_client.go:126-184 | the store holds what running the committed callbacks one after another gives |
| `Consul.CallbacksKeep` | ring/consul_client.go:126-184 | what every callback keeps holds of the stored value in every run |
| `Consul.HiddenCommitRepeats` | ring/consul_client.go:165-181 | an error after the fact makes one call commit twice |
| `ConsulRuns.CallsAccount` | ring/consul_client.go:126-184 | in every run a call gives up exactly at ten failed attempts, succeeds exactly when a swap of its own went through, returns its callback's error exactly when that is not to be retried, and panics exactly when its callback gave nothing |
| `ConsulRuns.CanGoOn` | ring/consul_client.go:126-184 | a call that has not returned can read or swap |
| `ConsulRuns.ReturnsInTwenty` | ring/consul_client.go:126-184 | a call returns within twenty steps of its own |
| `ConsulRuns.UndisturbedSucceeds` | ring/consul_client.go:126-184 | an attempt whose read and swap no write to the key separates, and whose callback gives a value that can be encoded, succeeds and writes that value |
| `ConsulRuns.MayGiveUp` | ring/consul_client.go:126-184 | from every state of every run, errors of the store may make a call give up that has not returned |
| `ConsulRuns.MayStarve` | ring/consul_client.go:126-184 | so may the writes of others, without any error |
| `MetricStrings.MetricToUniqueString` | ingester/mapper.go:142-149 | the same string whatever order the labels are visited in, for any label values |
| `MetricStrings.UniqueStringInjective` | ingester/mapper.go:135-149 | separator-free metrics with one string are one metric |
| `MetricStrings.SameStringIff` | ingester/mapper.go:135-149 | two metrics have one string if and only if the fields of their sorted parts are the same |
| `MetricStrings.ConfusableIff` | ingester/mapper.go:135-149 | another metric has the string of a metric if and only if it has two labels or more, or one whose value reads as a value and another label |
| `MetricStrings.SeparatorConfuses` | ingester/mapper.go:142-149 | with the separator in a value two different metrics get the same string from the function |
| `InvertedIndex.Index.Add` | ingester/index.go:22-41 | the index agrees with the series map plus the series |
| `InvertedIndex.Index.Delete` | ingester/index.go:87-118 | the index agrees with the series map without the series, no empty list or map kept |
| `InvertedIndex.Index.Lookup` | ingester/index.go:43-70 | exactly the series with every label asked for, in fingerprint order |
| `InvertedIndex.Index.LookupLabelValues` | ingester/index.go:72-85 | exactly the values some series has, each once |
| `InvertedIndex.Merge` | ingester/index.go:142-161 | the sorted union of disjoint lists |
| `InvertedIndex.IntersectWith` | ingester/index.go:122-138 | the sorted intersection, nil standing for everything |
| `InvertedIndex.OneMoreLabel` | ingester/index.go:22-41 | one ordered insert keeps index and series map in agreement |
| `InvertedIndex.OneLabelLess` | ingester/index.go:87-118 | one removal keeps index and series map in agreement |
| `Mapper.FpMapper.NextMappedFP` | ingester/mapper.go:127-133 | the next reserved fingerprint, or a panic past the range |
| `Mapper.FpMapper.MaybeAddMapping` | ingester/mapper.go:91-125 | an existing or new mapping in 1..2^20 that is in memory under a twin at most; a panic exactly when a new one is needed and none is left |
| `Mapper.FpMapper.MapFP` | ingester/mapper.go:50-86 | a live metric gets its own fingerprint; another gets a live one exactly when it is mapped to it, which then is a twin's, and never without the separator in values; mapped ones stay injective; a mapping, under the next number, is added exactly when needed and never taken back |
| `Mapper.NewMapping` | ingester/mapper.go:91-125 | a new mapping moves no live series and is shared by none |
| `Mapper.MappedIsAlone` | ingester/mapper.go:50-125 | a mapped metric shares its fingerprint in memory with a twin at most, with none if neither has the separator in a value |
| `Mapper.GivenIsRight` | ingester/mapper.go:50-86 | the fingerprint given is the metric's own, free, or a twin's, and a twin's exactly for a metric that borrows |
| `UserStates.UserState.UnlockedGet` | ingester/user_state.go:180-219 | a live metric's own series, a new one, the first limit met, or a twin's series exactly when it borrows; index, mapper, counts and limits stay right; without the separator in values everything stays under the fingerprint it belongs under |
| `UserStates.TwinsShare` | ingester/user_state.go:180-219 | any two metrics with one string and one reserved raw fingerprint get one series |
| `UserStates.UserState.CanAddSeriesFor` | ingester/user_state.go:221-230 | counts one more unless at the limit |
| `UserStates.UserState.RemoveSeries` | ingester/user_state.go:232-250 | exactly the series goes; index and counts stay exact, none kept at zero |
| `UserStates.UserState.ForSeriesMatching` | ingester/user_state.go:254-283 | visits exactly the series satisfying all matchers, once, in order, up to a failing callback; none when every matcher accepts the empty value |
| `UserStates.Created` | ingester/user_state.go:197-230 | counts and limits after adding a series |
| `UserStates.Removed` | ingester/user_state.go:232-250 | counts and limits after removing a series |
| `Series.MemorySeries.Add` | ingester/series.go:55-102 | the new chunks and descriptor times in full; a refused sample changes nothing; an appended one comes last, in memory and in the last chunk with its time; chunks in order stay so if and only if it comes later; chunks in a flush's hands are untouched; `lastTime` is not updated |
| `Series.MemorySeries.SetChunks` | ingester/series.go:161-170 | chunks are taken over only by an empty series, with the last time of the last chunk; nothing else changes |
| `Series.MemorySeries.BeginFlush` | ingester/ingester_flush.go:125-150 | which chunks are taken, and exactly when the head is closed |
| `Series.MemorySeries.WireChunks` | ingester/ingester_flush.go:173-186 | what is stored at any moment of the unlocked phase, chunks and times, is what was taken |
| `Series.MemorySeries.EndFlush` | ingester/ingester_flush.go:156-171 | only stored chunks leave memory; dropped followed by in-memory samples are all accepted ones in order; chunks in order stay so |
| `Series.MemorySeries.SamplesForRange` | ingester/series.go:122-159 | the samples in the interval of all chunks, though only some are read, when these are in order or at least apart; of some chunks in a row otherwise; a panic exactly without chunks |
| `Spans.InRangeSelects` | ingester/series.go:146-156 | the samples in the interval are the selection, in order, of those from its start to its end, both included |
| `Series.KeptByAdding` | ingester/series.go:77-99 | replacing or splitting the head, or starting a chunk, adds one sample at the end |
| `Series.KeptByDropping` | ingester/ingester_flush.go:163-164 | dropping stored chunks moves their samples from memory to dropped |
| `Series.AcceptedOutOfOrder` | ingester/series.go:55-102 | an older sample is appended, chunks are out of order, and reading misses the first |
| `Series.RefusedFirst` | ingester/series.go:55-73 | a first sample at the earliest time is refused, and reading then panics |
| `Spans.GrownOrder` | ingester/series.go:77-99 | replacing, splitting or starting a chunk keeps the order exactly when the sample comes later |
| `Spans.GrownHolds` | ingester/series.go:77-99 | it adds the sample after all others |
| `Spans.TimedOrder` | ingester/series.go:90-98 | new descriptors keep the order exactly when all their samples are in the order of time and later than the chunks before |
| `Spans.OrderOfRest` | ingester/ingester_flush.go:163-164 | dropping the first chunks keeps the order |
| `Spans.AllRead` | ingester/series.go:122-159 | the chunks between the two searches hold all samples of the interval, when chunks are in order or apart |
| `SchedulingQueue.QueueState.Swap` | ruler/scheduling_queue.go:59-63 | positions stay exact, contents unchanged |
| `SchedulingQueue.QueueState.Enqueue` | ruler/scheduling_queue.go:65-75 | the queue by key gets exactly this item, heap and positions kept |
| `SchedulingQueue.QueueState.Dequeue` | ruler/scheduling_queue.go:77-81 | an earliest item, and only it, leaves |
| `SchedulingQueue.QueueState.Front` | ruler/scheduling_queue.go:83-85 | an earliest item |
| `SchedulingQueue.QueueState.RemoveLast` | ruler/scheduling_queue.go:42-49 | the last item and its key go |
| `SchedulingQueue.QueueState.HeapPush` | ruler/scheduling_queue.go:52-57 | a new key is added, heap and positions kept |
| `SchedulingQueue.HoleUp` | ruler/scheduling_queue.go:37-75 | moving up keeps the rest a heap |
| `SchedulingQueue.HoleDown` | ruler/scheduling_queue.go:37-81 | moving to the earlier child keeps the rest a heap |
| `SchedulingQueue.FirstIsEarliest` | ruler/scheduling_queue.go:83-85 | the first item of a heap is an earliest |
| `Scheduler.EveryItemOnce` | ruler/scheduling_queue.go:116-176 | in every run each item is delivered once when due, still queued, or replaced by the next with its key; next is closed only after add and when empty |
| `Scheduler.DeliveredInTime` | ruler/scheduling_queue.go:116-176 | in every run, of two items received by the time one is delivered, the one due first is delivered first |
| `Scheduler.RunLoop.Select` | ruler/scheduling_queue.go:116-145 | what the loop waits for: items only when nothing is queued, a reader for an earliest item when that is due, and otherwise a timer until it is |
| `Scheduler.RunLoop.Iterate` | ruler/scheduling_queue.go:116-164 | one iteration on the real heap waits for that, and does what the event asks: queues an item, delivers the one offered, closes or goes round again |
| `BatchWrites.DictLen` | chunk/aws_storage_client.go:441-447 | the number of requests in all tables |
| `BatchWrites.TakeReqs` | chunk/aws_storage_client.go:450-466 | terminates; moves each table's first requests to the end of the other batch, as many as fit |
| `BatchWrites.FillRound` | chunk/aws_storage_client.go:150-152 | a round takes 25 requests or all there are, the first of the unprocessed ones before the first of the others |
| `BatchWrites.MovedBags` | chunk/aws_storage_client.go:450-466 | moving loses and doubles no request |
| `BatchWrites.RoundConserves` | chunk/aws_storage_client.go:149-190 | a round keeps outstanding, unprocessed and committed together equal to the input |
| `BatchWrites.BatchWrite` | chunk/aws_storage_client.go:145-205 | 1 to 25 items a request; nil only when every request was committed exactly once; conservation otherwise; giving up only after 20 throughput errors; at most n + 20(n + 1) rounds besides those that send back all they were sent; the states it goes through begin a run of the loop |
| `BatchWrites.PacedNext` | chunk/aws_storage_client.go:149-190 | every round commits an item, raises the retry count, or stalls |
| `BatchWrites.StepKeeps` | chunk/aws_storage_client.go:149-190 | every step of the loop keeps conservation, the pace of rounds and the retry count |
| `BatchWrites.OneRound` | chunk/aws_storage_client.go:150-189 | the body of the loop makes a step, and puts what was not committed after what was unprocessed |
| `BatchRuns.RoundsInRun` | chunk/aws_storage_client.go:145-205 | in every run the bound on rounds, the end when the server makes headway, and no end when all comes back |
| `BatchRuns.EndlessIffStalling` | chunk/aws_storage_client.go:145-205 | every run of the loop, whatever order tables are visited in, is endless if and only if its stalled rounds have no bound |
| `TableManager.CalculateExpectedTables` | chunk/table_manager.go:213-269 | exactly the expected tables, sorted by name |
| `TableManager.EveryBucketHasItsTable` | chunk/table_manager.go:213-269 | every table a bucket up to now plus grace can name is expected |
| `TableManager.TablesInUseHaveThroughput` | chunk/table_manager.go:251-264 | the table of every time still written to has the active throughput |
| `TableManager.ThroughputWhileInUse` | chunk/table_manager.go:236-264 | a periodic table, and the original one, has the throughput for writing exactly while a time that may still be written falls in its period, or before the first period; and the other throughput otherwise |
| `TableManager.HasThroughputIff` | chunk/table_manager.go:213-269 | the table of every time that may still be written has the throughput for writing, whatever the time is now, if and only if the first periodic table begins at a multiple of the period |
| `TableManager.ExpectedIff` | chunk/table_manager.go:213-269 | the expected tables are exactly the original one and the table of every time from the first periodic table up to now plus grace, each with the throughput of its use |
| `TableManager.GoDivTruncates` | chunk/schema.go:100-106 | the quotient that names a table is cut off towards zero |
| `TableManager.BucketAndTimeShareTable` | chunk/schema.go:100-106 | with periods of whole days a day's bucket and its times share a table |
| `TableManager.PartitionTables` | chunk/table_manager.go:272-305 | exactly the missing tables and exactly the existing ones |
| `TableManager.TableClient.CreateTables` | chunk/table_manager.go:307-317 | the calls are made one after the other up to the first that fails |
| `TableManager.TableClient.UpdateTables` | chunk/table_manager.go:319-353 | the calls are made one after the other up to the first that fails; nothing is changed when all have their capacities |
| `TableManager.CreatesUpToFailure` | chunk/table_manager.go:307-317 | missing tables are created with their capacities exactly up to the first that is down, others are untouched, and success comes exactly when none is down |
| `TableManager.UpdatesUpToFailure` | chunk/table_manager.go:319-353 | existing tables get their capacities if they are active, exactly up to the first that is down, others are untouched, and success comes exactly when none is down |
| `TableManager.SyncTables` | chunk/table_manager.go:185-199 | success, which comes exactly when no expected table is down, leaves every expected table with its capacities, inactive ones alone; unexpected tables are never touched, nor existing ones when a missing one is down; nothing to do means nothing done |

## Left out

- gRPC, HTTP, the real Consul, DynamoDB, S3 and memcache clients, flags, metrics, logging and deployment: input and output around unseen libraries.
- Chunk encoding, checksums and the chunk cache: a chunk's data is opaque, its checksum part of its key, and the cache always misses.
- Index rows whose metadata is kept in the row itself (chunk/chunk_store.go:366-373): reading one is an error here.
- Prometheus chunk internals: `Add` is assumed to give back the old samples and the new one in non-empty chunks or an error, and `LastTimestamp` to succeed.
- Regular expressions in matchers: an arbitrary test of the value.
- The user in the request context and the rate limiter: a parameter, and not modelled.
- ChunkStore.Store.Get: stated for user IDs without `:` and NUL, labels without `:` and NUL that with a `:` in the metric name also begin with no digit (all that util/validate.go:10 lets through), and chunk times from 0 up to before `model.Latest`.
- ChunkStore.ProcessResponse: a row with metadata of its own, which the code reads, is an error here.
- ChunkStore.Store.Put: putting objects always succeeds; chunks are as for Get, and that one key is not put with two contents is required.
- RangeKeys.TimeRoundTrip: decodeTime is modelled on eight bytes only.
- Sharing of slices' backing arrays, in by_key, index and series: lists are values, except chunk descriptors, which are objects.
- Overflow of int32 counters in the distributor and of Consul's uint64 index: counters are unbounded.
- Ring.Desc.AddIngester: the order of tokens with equal values is left open, as Go's sort leaves it.
- Distributor.AcknowledgedIsRead: that an ingester which took a sample gives it back when asked is assumed; the ring is fixed between the write and the read.
- Consul.StepKeeps: keys are never deleted, as nothing in the repository deletes one.
- InvertedIndex.Index.Delete: only series in memory are deleted; for others the code would cut another list entry.
- MetricStrings.MetricToUniqueString: label names are without the separator byte, as util/validate.go:10 has them; values are arbitrary.
- UserStates.UserState.UnlockedGet: sequential; the race on the series limit that its comment admits is not modelled, nor are fingerprint locks.
- Series.MemorySeries.BeginFlush: one flush at a time for a series, as one queue serves each fingerprint; whether chunks are due is a parameter for the clock.
- Sweeping, flush queues and their priorities, and the removal of empty users.
- The transfer of chunks between ingesters: the receiver acknowledges before it claims tokens, so that only claim followed by removal is covered.
- Series.MemorySeries.SamplesForRange: reading a chunk gives its samples in the interval, also from a chunk whose samples are out of order, where the Prometheus iterator promises nothing.
- SchedulingQueue.QueueState.Enqueue: the heap operations follow Go's container/heap, which is not part of the repository.
- BatchWrites.BatchWrite: the server is a function of the round and the requests, run for a given number of rounds; back-off times are left out.
- TableManager.SyncTables: the original table must not be named like a periodic one.
- The plain priority queue, rates and histograms: they would only add easy members.

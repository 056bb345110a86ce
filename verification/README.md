# EAVT database: storage stack, caches, query machine and wire, verified

A Dafny model of the Go implementation of an EAVT database. It follows the program
module by module and proves what its layers promise each other and their users.

| module (file) | models |
|---|---|
| `Bytes`, `MachineInts` | byte-lexicographic order, prefixes and their ends; arithmetic that wraps around |
| `PageSplit`, `PageTrees`, `PageStore` (`Pages`, `PageTree`, `PageStore`) | the copy-on-write page tree: splitting, merging sorted keys into a tree of any height, prefix reads |
| `PageCodec` | varints, prefix-compressed leaf and index pages, the arena decoder, in machine integers |
| `PageGc` | root names and clocks, choice of roots, reachability, deletion |
| `Runs`, `MemTables`, `Drain` (`MemTable`, `Drain`) | the run ladder of the memtable, point lookups, k-way drains |
| `Cursor` | the binary heap and the merged cursor |
| `Journal`, `Wal` | journal records and their resynchronising reader; the segmented log over sessions |
| `KvStore`, `Recovery` | memtable, pages and log together, with the three-step flush and whole runs; crashes, reopening and sessions |
| `SchemeVm` | the frame-stack machine with yield and resume against a big-step meaning |
| `AnchorCache`, `AnchorIndex` | the anchor index: an LRU cache under a byte budget, and the hash table that implements it |
| `Keys`, `Versions`, `Hydrated` | key encodings, the active-version scan, the hydrated entity cache |
| `Engine` | one write path, one read path and flushes over store, cache and anchors |
| `Saves`, `Transactions` | saving values and whole transactions, through the engine, into all four indexes |
| `Rebuild` | index keys derived by replicas and at a restart |
| `Runner` | the single-flight flush and collection runner |
| `Replication` | the replica stream from registration to delivery |
| `FloatValues`, `FloatText` | the numbers behind floats and decimals; floats as text and read back |
| `RangeValues`, `Ranges` | values, their order and their bytes; predicates as intervals and the scanner's use of them |
| `Msgpack` | the MessagePack codec and in-place pair injection |

Main results:

- **Nothing disappears, nothing is invented.** `KvStore.KVStore.Run` takes any interleaving of
  writes, scans, captures, prepares, publishes, aborts, log cycles and collections and refines a run on
  three sets of keys: every scan shows, and every abort loses, exactly what that run says, and if the
  clock does not step back the disk holds every visible datom when the run stops. `Recovery.Sessions`
  carries that over any number of crashes and reopenings: nothing is shown that was not written, and
  everything is but keys of aborted flushes; without aborted flushes it is exactly what was written.
- **One write, one truth.** `Engine.EavtEngine.BatchWrite`, `Engine.EavtEngine.ScanPrefixActive` and
  `Engine.EavtEngine.AbortFlush` say exactly when cache and store answer alike, for writes in any order
  and for lost ones; `Transactions.Transact` keeps them alike and every index the exact mirror of the
  datoms it carries, and `Saves.TransactionExact` says what a transaction leaves active.
  `Rebuild.RecoveredExact` says when a restart brings the indexes back.
- **The machine means what its programs mean.** `SchemeVm.MachineMeets` and `SchemeVm.MeaningMeets`
  relate the frame-stack machine and a big-step semantics in both directions: rows, host calls,
  bindings and errors; `SchemeVm.Stream` carries that through any batch sizes.
- **The replica gets the log.** `Replication.Feed.Run`: in every interleaving with registration,
  snapshot, roots, responses and failing or successful sends, what is sent is the captured log
  continued without gap or repeat, and all of it once nothing is left to drain, which a working connection
  brings about (`Replication.Feed.Settle`). The backlog counter is exact but for what marks and log frames
  are charged wrongly (`Replication.Subscriber.AppendWal`).
- **Every request is served.** `Runner.EveryFlushIsServed`, `Runner.PublishedWasPrepared` and
  `Runner.PublishIsCollected`: however clients and the runner interleave, a flush request is followed by a
  capture, only what was captured and prepared is published, and a publish is followed by a collection.
- **What caches serve.** `AnchorIndex.Replay`: a hit is always the latest surviving put, and
  `AnchorCache.RecentlyUsedStay`: what was used recently enough to fit is a hit.
  `Hydrated.BatchExact`: a batch keeps an entity current exactly when the last write of each datom can be
  followed.
- **Floats through text.** `FloatText.SaveStores`, from `FloatValues.ShortestWhole`: whatever the parser and
  the printer of decimals, exactly the integers below a million are stored as integers.
- **One value, many spellings.** `Msgpack.SpellingDecodes` and `Msgpack.DecodedIsSpelled`: the decoder takes
  every spelling of a value to it, and nothing else to anything.
- **Round trips, refusals and losses are exact**, as equivalences wherever the code loses something;
  they are listed below.

How the source is rendered:

- A blob store is a map from identifiers to immutable pages; a fresh identifier stands for a new
  UUID, 0 for none. Compression is the identity and input and output succeed. Pages are held
  decoded; that the bytes carry them is what `PageCodec` proves.
- A root name is the 64-bit number its file name spells. Clock readings, in seconds and nanoseconds,
  and random identifiers are parameters.
- A panic of the program is an outcome of its own, called a fault.
- A float is its 64-bit pattern, ordered by sign and magnitude. Reading and printing decimals are any
  functions that take a decimal to a nearest float and a float to a shortest decimal that reads back.
- A deterministic host of the query machine is a function of the calls made so far.
- Locks become atomic steps: each method, or each step of a state machine, is one critical section,
  and an invariant kept by every one of them holds in every interleaving.
- An object whose links form a list keeps them as the source does in `AnchorIndex`; the two link
  fields of a record are a second sequence beside the records.
- Where code and comments differ the code is followed. The comment on the hydrated cache in
  `go/internal/eavt/write.go:1-4` says it is absent from the write path; the code mirrors every datom.
  The comment in `go/internal/kvstore/kvstore.go:695-698` says the datoms of an aborted flush remain
  recoverable from the log; the next successful flush makes the log delete them.
  `ParseRootUs` in `go/internal/pagestore/types.go:187-196` returns nanoseconds.
  The comment in `go/internal/transactor/server.go:338-344` says the collection queued by a publish is
  consumed in the same round; a manual one queued before it goes first (`Runner.OldestIsTaken`).
  The comment in `go/internal/replication/replication.go:178-181` says the backlog tracks pending bytes.

What does not hold, with the exact condition:

- The age limit of a collection counts thousandths of seconds: root names carry nanoseconds and the
  limit is taken as microseconds (`PageGc.KeptByAge`). The decision is the one asked for exactly when
  a root's age is not between a thousandth of the limit and the limit (`PageGc.AgeLimitMet`); with
  43200 seconds a root 44 seconds older than the newest goes
  (`PageGc.TwelveHoursAreFortyThreeSeconds`).
- A limit that wraps to a negative number drops every root, and only such a limit does
  (`PageGc.AllRootsLostByWrap`, `PageGc.LeastWrappingLimit`).
- A flush under a clock that stepped back is lost by the next log cycle and a crash, and only then
  (`Recovery.FlushSurvives`); a collection that keeps one root drops the published one exactly when it
  is not the newest (`KvStore.CountOneKeepsNewest`).
- A datom whose flush was given up is lost by the next flush and log cycle unless it is written again
  (`Recovery.AbortSurvives`).
- Saving the value a single-valued attribute already has leaves the attribute without a value in the
  store, while the cache shows the value (`Saves.ResaveLosesValue`); a save holds, and cache and store
  agree, exactly when the value was not active and its datom not retracted at the same time
  (`Saves.SaveExact`, `Transactions.SaveWithT`).
- Two values for one single-valued attribute in one transaction both stay (`Saves.TwoValuesStay`); at most
  one stays exactly when no two remaining operations disagree (`Saves.OneValueExact`).
- After an aborted flush the cache can answer with datoms the store has lost; it does not exactly when the
  loss is unseen (`Engine.EavtEngine.AbortFlush`, `Hydrated.LossExact`).
- A saved float that is an integer of magnitude below a million is stored as an integer: a saved 3.0 lies
  below the bound 1.5 (`RangeValues.ThreeBelowOneAndAHalf`) and reads back as another number
  (`RangeValues.SavedFloatReads`).
- A page of 65536 keys or more loses keys (`PageCodec.PageRoundTrip`); keys of nine bytes rule it out.
- A page with a length that overflows makes the decoders panic instead of refusing it
  (`PageCodec.TwelveBytesFault`, `PageCodec.EntryFaults`); written pages never do
  (`PageCodec.BuildPagesRoundTrip`). An arena of 2^31 bytes or more does not return its keys
  (`PageCodec.FlatExact`).
- A journal record whose key exceeds the limit of the reader is written and never read back
  (`Journal.RecordReplaysExactly`).
- Reading a value found in a key-only column family panics (`MemTables.MemTable.GetValue`).
- A binding form in an argument position hands its value on to the frames below it exactly when one of
  them waits for a value (`SchemeVm.ArgumentApart`), and enclosing bindings then receive the argument
  (`SchemeVm.NestedBindingLeaks`); compiled programs do not contain one (`SchemeVm.Compiled`).
- The snapshot need not be the first frame of a replica: a root can come before it, log bytes cannot
  (`Replication.RootFirst`, `Replication.StreamIsLog`). A seal mark caused by a write stands behind bytes
  of the next segment unless the write is empty (`Replication.Feed.Sink`).
- The backlog of a replica is not its pending bytes: every delivered seal leaves 22 to 30 bytes behind and
  every root 10 to 18, so an idle replica is closed after enough of them (`Replication.IdleIsClosed`), and
  log frames give 19 to 22 bytes too much back, so more than the limit can be pending
  (`Replication.PendingBeyondLimit`). Without marks among the frames sent a subscriber is closed only by a
  failed write or more than 64 MiB pending (`Replication.NoMarksNoSurplus`); the bounds in general are those
  of `Replication.Subscriber.AppendWal`.
- A restart does not bring back the reverse keys of retractions nor any index key of the time of a
  transaction; an index agrees with the datoms again exactly if the log held none of these
  (`Rebuild.RecoveredExact`), and otherwise shows references that were retracted
  (`Rebuild.RetractedReferenceShows`).
- Joining intervals of different alternatives can lose the part above a bounded second interval or a
  shared start (`Ranges.JoinExact`).
- Range predicates see stored values on the wrong side of a bound for booleans, keywords and strings that
  differ behind a NUL (`RangeValues.BoolsAgree`, `RangeValues.KeywordsAgree`, `RangeValues.StringsAgree`),
  and for floats depending on the path that wrote them: NaN on both, zeros of opposite sign from a
  transaction, small integers from a save (`RangeValues.SentFloatsAgree`,
  `RangeValues.SavedFloatsAgree`). The empty string ends a range scan (`Ranges.EmptyStringEndsScan`).

`dafny verify dfyconfig.toml` checks the whole project.

## Model

| member | source | states |
|---|---|---|
| Bytes.CmpSeq | go/internal/pagestore/types.go:34-54 | the three-way comparison decides the byte-lexicographic order: negative, zero and positive exactly for below, equal and above |
| Bytes.PrefixEnd | go/internal/pagestore/types.go:212-223 | the returned bound is exclusive and exact: the keys with the prefix are the keys from the prefix up to it; no bound exactly for prefixes of 0xff bytes |
| Bytes.PrefixEndBound | go/internal/pagestore/types.go:212-223 | for every prefix and key, having the prefix is lying between the prefix and its end |
| PageSplit.ChunksPartition | go/internal/pagestore/pages.go:115-131 | halving a key list until it fits cuts it into non-empty consecutive parts that concatenate to the list |
| PageSplit.ChunksFit | go/internal/pagestore/pages.go:115-131 | with keys of at least nine bytes no leaf page holds 65536 keys or more |
| PageSplit.ChunksSized | go/internal/pagestore/pages.go:115-131 | a leaf page holds one key or at most 512 KiB of keys, and a list that fits is one page |
| PageTrees.SplitPartition | go/internal/pagestore/types.go:166-176 | index pages hold the entries in order, none is empty, every count fits sixteen bits |
| PageTrees.SplitFits | go/internal/pagestore/types.go:166-176 | every index page of a split is at most 512 KiB or has one entry |
| PageTrees.SplitHalves | go/internal/pagestore/types.go:166-176 | with keys below 64 KiB a level of two or more entries has at most half as many pages, so building the tree ends |
| PageTrees.KeysFrame | go/internal/pagestore/store.go:194-275 | copy on write: adding blobs never changes what a well-formed tree of any height holds |
| PageTrees.KeysAscending | go/internal/pagestore/store.go:405-441 | a well-formed tree lists a non-empty strictly ascending key sequence |
| PageTrees.WfForestConcat | go/internal/pagestore/store.go:616-666 | well-formed forests whose keys do not overlap join into a well-formed forest |
| PageCodec.WriteVarint | go/internal/pagestore/pages.go:26-36 | the loop appends exactly the unsigned LEB128 encoding (section 7.6 of DWARF 5) |
| PageCodec.ReadVarint | go/internal/pagestore/pages.go:39-57 | the loop computes exactly the varint at the offset as a 64-bit machine integer, errors included, on every byte string |
| PageCodec.VarintRoundTrip | go/internal/pagestore/pages.go:26-57 | every number comes back from its varint with the right length, whatever follows |
| PageCodec.EntryRoundTrip | go/internal/pagestore/pages.go:60-112 | a prefix-compressed entry decodes to its key against the same previous key, whatever follows, anywhere in a page |
| PageCodec.SerializePage | go/internal/pagestore/pages.go:60-74 | the loop writes the specified page image |
| PageCodec.DeserializePage | go/internal/pagestore/pages.go:77-112 | the loop, with its 64-bit offset arithmetic, computes exactly what the page grammar says: keys, an error, or the fault of an overflowing or negative length |
| PageCodec.EntryFaults | go/internal/pagestore/pages.go:87-103 | reading an entry faults if and only if its suffix length is negative as a machine integer or ends past the largest one, or its prefix length is negative and the suffix fits |
| PageCodec.PageFaults | go/internal/pagestore/pages.go:77-112 | a page faults if and only if one of its entries is reached and faults |
| PageCodec.LongSuffixFaults | go/internal/pagestore/pages.go:87-103 | every page of one entry whose suffix length ends past the largest machine integer faults instead of being refused |
| PageCodec.TwelveBytesFault | go/internal/pagestore/pages.go:87-103 | a twelve-byte page that faults |
| PageCodec.PageRoundTrip | go/internal/pagestore/pages.go:60-112 | a leaf page that fits a slice reads back its keys if and only if their number is below 65536; otherwise exactly the first count mod 65536 come back |
| PageCodec.BuildPagesRoundTrip | go/internal/pagestore/pages.go:115-131 | the pages of a key list never fault and decode to the list if and only if every page count fits sixteen bits |
| PageCodec.BuildPagesLossless | go/internal/pagestore/pages.go:115-131 | for every list of keys of at least nine bytes the decoded pages concatenate to the list |
| PageCodec.DecodePageFlat | go/internal/pagestore/flat.go:75-117 | the arena decoder gives errors and faults exactly where the nested decoder does and otherwise holds the same keys, with their offsets cut to 32 bits |
| PageCodec.FlatExact | go/internal/pagestore/flat.go:14-35 | the accessor of an arena returns every key if and only if the keys are less than 2^31 bytes in all |
| PageCodec.BuiltPagesFlat | go/internal/pagestore/pages.go:115-131 | every page written for keys below 2^31 bytes decodes without fault to less than 2^31 bytes, so its arena returns every key |
| PageCodec.SerializeIndexPage | go/internal/pagestore/types.go:108-123 | the loop writes the specified index page image |
| PageCodec.DeserializeIndexPage | go/internal/pagestore/types.go:126-163 | the loop, with its 64-bit offset arithmetic, computes exactly what the index page grammar says: entries, an error, or the fault of an overflowing or negative length |
| PageCodec.IndexPageRoundTrip | go/internal/pagestore/types.go:108-163 | an index page reads back its entries if and only if their number is below 65536 |
| PageCodec.IndexPageSizeExact | go/internal/pagestore/types.go:108-123 | the size that splitting decides on is the length of the written page |
| PageStore.MergeKeys | go/internal/pagestore/store.go:668-716 | the two-pointer merge of ascending lists gives their ascending union, equal keys once |
| PageStore.Store.BlobPut | go/internal/pagestore/store.go:194-202 | a page goes under an identifier never used before; every existing page is unchanged |
| PageStore.Store.PutPageList | go/internal/pagestore/store.go:252-275 | leaf pages of an ascending list form a well-formed forest holding exactly the list |
| PageStore.Store.PutIndexPages | go/internal/pagestore/store.go:279-302 | index pages over a forest form a forest one level up holding the same keys |
| PageStore.Store.WriteIndexLevel | go/internal/pagestore/store.go:616-627 | one level of index pages over a forest holds the same keys, in one page if that fits; every page written is at most 512 KiB or has one entry |
| PageStore.Store.BuildIndexTree | go/internal/pagestore/store.go:629-666 | a forest of any size becomes one well-formed tree, higher than its children, holding exactly its keys |
| PageStore.Store.StackLevels | go/internal/pagestore/store.go:645-665 | stacking levels ends with one page and the same keys |
| PageStore.Store.PutIndexPage | go/internal/pagestore/store.go:629-643 | one index page over a forest is a tree of the same keys |
| PageStore.Store.MergeLeaf | go/internal/pagestore/store.go:668-716 | merging pending keys into a leaf gives a forest of exactly the old keys and the pending keys below the range end |
| PageStore.Store.MergeSubtree | go/internal/pagestore/store.go:718-763 | merging into a subtree of any height gives a forest of exactly the old keys and the pending keys below the range end; untouched children are reused |
| PageStore.Store.MergeChildren | go/internal/pagestore/store.go:729-755 | child by child: the pieces before a child hold exactly what was merged below its successor |
| PageStore.Store.MergeTree | go/internal/pagestore/store.go:800-838 | merging one column family gives a well-formed tree of exactly old and new keys, also from no tree and for no keys |
| PageStore.Store.PrepareMerge | go/internal/pagestore/store.go:790-845 | for every complete store and ascending requests the new trees are well-formed and hold exactly old and new keys per column family; existing blobs and trees are unchanged, every page added is at most 512 KiB or has one key, and the roots gain exactly the new one, whatever its name |
| PageStore.Store.Open | go/internal/pagestore/store.go:117-134 | an opened store has the trees of the newest root, empty ones for column families it does not know, and every page and root as found |
| PageStore.Store.CollectKeysFromIndex | go/internal/pagestore/store.go:405-441 | collects exactly the keys of the subtree with the prefix, ascending |
| PageStore.Store.GetKeysInPrefix | go/internal/pagestore/store.go:444-467 | returns exactly the keys of the column family with the prefix, in order; nothing for a column family that does not exist |
| PageStore.PartitionPoint | go/internal/pagestore/types.go:198-209 | the binary search returns the boundary between entries below the target and entries at or above it |
| PageStore.FindPrefixRange | go/internal/pagestore/types.go:226-244 | no child outside the returned range holds a key with the prefix, and every child in it but the first begins with the prefix |
| PageStore.FilterPrefix | go/internal/pagestore/store.go:412-424 | keeps exactly the keys with the prefix, in order |
| PageStore.TreesFrame | go/internal/pagestore/store.go:194-275 | older trees read back the same keys after any merge |
| PageGc.MakeRootName | go/internal/pagestore/types.go:179-196 | the number parsed from a root name is the nanoseconds since the epoch it was made from, in 64 bits |
| PageGc.RootNamesNewestFirst | go/internal/pagestore/types.go:179-196 | of two 64-bit times the later one sorts first if and only if both lie on the same side of the epoch |
| PageGc.ClassifyRoots | go/internal/pagestore/gc.go:8-25 | every root goes to exactly one side of the split, removed exactly when the guard on age or count says so; the kept ones stay newest first |
| PageGc.NewestRootKept | go/internal/pagestore/gc.go:8-25 | the newest root is kept if and only if the age limit, in 64-bit microseconds, is not negative |
| PageGc.KeptByAge | go/internal/pagestore/gc.go:8-25 | for roots written at any 64-bit times a root within the count is kept if and only if its age in nanoseconds is at most the limit in seconds times one million, after wrap-around |
| PageGc.AgeLimitMet | go/internal/pagestore/gc.go:8-25 | the decision is the one the limit in seconds asks for if and only if the age does not lie between a thousandth of the limit and the limit |
| PageGc.TwelveHoursAreFortyThreeSeconds | go/internal/pagestore/gc.go:8-25 | with the default limit of 43200 seconds a root is removed exactly when it is more than 43.2 seconds older than the newest |
| PageGc.AllRootsLostByWrap | go/internal/pagestore/gc.go:8-25 | every root is removed if and only if the limit wraps to a negative number |
| PageGc.LeastWrappingLimit | go/internal/pagestore/gc.go:8-25 | 9223372036855 seconds is the least limit that wraps to a negative number |
| PageGc.MaxAgeInRange | go/internal/pagestore/gc.go:8-25 | limits up to 9223372036854 seconds do not wrap |
| PageGc.ReachFrame | go/internal/pagestore/gc.go:29-51 | a tree depends only on the pages it reaches |
| PageGc.CollectTreeUuids | go/internal/pagestore/gc.go:29-51 | adds exactly the pages reachable from the tree, at every height |
| PageGc.CollectRoots | go/internal/pagestore/gc.go:86-104 | the live set is exactly what the kept roots reach |
| PageGc.ListRoots | go/internal/pagestore/gc.go:78-81 | the listing is every root once, newest first |
| PageGc.Sweep | go/internal/pagestore/gc.go:105-127 | drops exactly the removed roots and the pages no kept root reaches |
| PageGc.DeleteDead | go/internal/pagestore/gc.go:112-126 | deletes exactly the blobs outside the live set and counts them |
| PageGc.GcFull | go/internal/pagestore/gc.go:74-139 | kept roots are exactly those not removable; every kept root reads back exactly what it held; exactly the unreachable pages are gone; a dry run or a refusal changes nothing; all five counters and the dry-run mark are exact |
| Runs.SortDedup | go/internal/memtable/memtable.go:237-274 | sorting a buffer with ties by age and keeping the last of each key gives a sorted run that answers every lookup as the buffer did |
| MemTables.MemTable.Materialize | go/internal/memtable/memtable.go:237-274 | a buffer that is not empty becomes one more run behind the others and is empty afterwards; no lookup changes, other column families are untouched |
| MemTables.MemTable.MaybeMerge | go/internal/memtable/memtable.go:276-311 | more than eight active runs become one, and only then; no lookup changes, other column families are untouched |
| MemTables.MemTable.AppendRec | go/internal/memtable/memtable.go:154-190 | appends one write to the history of its column family: to the buffer, or, when that reaches 65536 writes, to at most eight runs with the buffer empty |
| MemTables.MemTable.Put | go/internal/memtable/memtable.go:193-198 | appends a key-only write to its column family |
| MemTables.MemTable.PutKv | go/internal/memtable/memtable.go:201-206 | appends a write with its value |
| MemTables.MemTable.DeleteKv | go/internal/memtable/memtable.go:209-213 | appends a tombstone |
| MemTables.MemTable.Batch | go/internal/memtable/memtable.go:216-227 | appends the entries of a batch per column family in order; column families that do not exist are skipped |
| MemTables.MemTable.SnapshotRuns | go/internal/memtable/memtable.go:344-353 | the runs of a snapshot answer every lookup as the whole history does |
| MemTables.MemTable.FreezeAllCapture | go/internal/memtable/memtable.go:358-375 | freezing moves the live history to the frozen one and captures exactly its runs |
| MemTables.MemTable.Publish | go/internal/memtable/memtable.go:378-385 | drops the frozen runs only |
| MemTables.MemTable.LookupKv | go/internal/memtable/memtable.go:429-459 | returns the last write of the key: value, tombstone or absent |
| MemTables.MemTable.GetValue | go/internal/memtable/memtable.go:462-482 | returns the value of the last write of the key, nothing if that is a tombstone or absent, and faults exactly when a live write is found in a column family below 10, whose records hold no value |
| MemTables.FindRun | go/internal/memtable/memtable.go:412-426 | binary search in a sorted run finds the record of the key or shows there is none |
| MemTables.LadderMaterialized | go/internal/memtable/memtable.go:237-274 | the ladder invariant survives materializing |
| MemTables.LadderMerged | go/internal/memtable/memtable.go:276-311 | the ladder invariant survives merging the active runs into one |
| MemTables.LadderFrozen | go/internal/memtable/memtable.go:358-375 | the ladder invariant survives freezing |
| MemTables.SnapshotLookups | go/internal/memtable/memtable.go:344-353 | draining runs before live runs is the whole history |
| Drain.PickBest | go/internal/memtable/memtable.go:506-528 | the best head has the least key, and among equals the youngest run |
| Drain.DrainSorted | go/internal/memtable/memtable.go:506-552 | the k-way drain emits every key of the runs once, strictly ascending |
| Drain.DrainKvSorted | go/internal/memtable/memtable.go:556-607 | the k-way drain emits exactly the winning writes: live ones as pairs, tombstones as deletions, each strictly ascending |
| Cursor.Push | go/internal/cursor/cursor.go:34-46 | keeps the heap order and adds exactly the entry |
| Cursor.Pop | go/internal/cursor/cursor.go:48-74 | takes the root, keeps the heap order and removes exactly that entry |
| Cursor.Smallest | go/internal/cursor/cursor.go:55-65 | the smallest of a position and its children |
| Cursor.SeedHeap | go/internal/cursor/cursor.go:386-393 | the heap holds exactly one entry per source that is not exhausted |
| Cursor.RootLeast | go/internal/cursor/cursor.go:48-74 | the root of a heap is its least key |
| Cursor.SeekSource | go/internal/memtable/run_cursor.go:18-29 | the first position at or above the target |
| Cursor.MergedCursor.constructor | go/internal/cursor/cursor.go:246-256 | a fresh cursor will deliver exactly the keys of its sources |
| Cursor.MergedCursor.Advance | go/internal/cursor/cursor.go:268-305 | moves to the least key not delivered last, or to the end exactly when none is left |
| Cursor.MergedCursor.Next | go/internal/cursor/cursor.go:323-329 | delivers the least pending key and removes exactly that one |
| Cursor.MergedCursor.Seek | go/internal/cursor/cursor.go:385-402 | what is pending afterwards is exactly the keys of the sources at or above the target |
| Cursor.MergedCursor.Collect | go/internal/cursor/cursor.go:323-402 | Seek and repeated Next give the strictly ascending union of any number of sources from any target on, each key once |
| Journal.ParseJournalRecords | go/internal/kvstore/kvstore.go:297-320 | the reader with its resynchronisation over damaged bytes computes the specified parse |
| Journal.MeasureChain | go/internal/kvstore/kvstore.go:258-270 | counts exactly the records that stand one after the other from a position, and stops where no record starts |
| Journal.FindResync | go/internal/kvstore/kvstore.go:272-294 | returns the least later position where records plausibly start again, that is three in a row or some that reach the end of the data; none exactly when there is no such position |
| Journal.ResyncIsLeast | go/internal/kvstore/kvstore.go:272-294 | the resynchronisation point is the least plausible start |
| Journal.LogReplays | go/internal/kvstore/kvstore.go:297-320 | a segment of readable records parses back to exactly the records written, in order, from any offset |
| Journal.RecordReplaysExactly | go/internal/kvstore/kvstore.go:233-320 | a single record comes back if and only if its key is within the limit of the reader |
| Journal.RecordFound | go/internal/kvstore/kvstore.go:365-394 | where the image of a record with any key, value and column family within the limits stands and ten bytes are left, the reader finds a record of its length |
| Journal.RecordIsImage | go/internal/kvstore/kvstore.go:258-320 | every record the reader finds is such an image |
| Journal.OversizedSkipped | go/internal/kvstore/kvstore.go:233-320 | no record longer than the limit is ever read out of any bytes |
| Journal.DamageLosesItself | go/internal/kvstore/kvstore.go:258-320 | a log with a damaged part between readable records reads back as exactly the records around it if no record is seen at its start and records do not plausibly start inside it |
| Wal.Serialize | go/internal/wal/wal.go:109-130 | writes the record bytes of the entries one after the other |
| Wal.Writer.constructor | go/internal/wal/wal.go:73-99 | attaching opens an empty segment behind all found ones |
| Wal.Writer.WriteLive | go/internal/wal/wal.go:161-179 | moves exactly the first buffered bytes to the end of the live segment |
| Wal.Writer.Rotate | go/internal/wal/wal.go:180-197 | closes the live segment at the boundary and opens the next; announces it |
| Wal.Writer.DrainLocked | go/internal/wal/wal.go:159-210 | everything buffered reaches the segments, a pending boundary closes exactly one segment there, older segments are untouched, one rotation is announced |
| Wal.Writer.Sink | go/internal/wal/wal.go:103-142 | appends exactly the records, announces their bytes before any rotation, and leaves nothing buffered; a stopped log changes nothing |
| Wal.Writer.Seal | go/internal/wal/wal.go:145-150 | the boundary is the current end of the log |
| Wal.Writer.DeleteDurable | go/internal/wal/wal.go:212-225 | deletes exactly the leading sealed segments that end at or before the durable position; the deleted position is the end of the last of them |
| Wal.RetainedSuffix | go/internal/wal/wal.go:103-225 | sealed segments, live segment and buffer always concatenate to the log from the deleted position on |
| Wal.WalReplays | go/internal/wal/wal.go:103-225 | reading the segments back gives exactly the records from the deleted position on, in order: every cut is between records |
| Wal.DiskReplays | go/internal/wal/wal.go:69-99 | reading every segment on disk back gives what earlier sessions left and then exactly the records of this session from the deleted position on |
| Wal.SnapshotLocked | go/internal/wal/wal.go:270-286 | the captured segments are everything on disk, in order, with the buffer written out first |
| Wal.SnapshotIsLog | go/internal/wal/wal.go:270-286 | a snapshot is the segments of earlier sessions followed by the log from the deleted position on |
| KvStore.KVStore.constructor | go/internal/kvstore/kvstore.go:169-211 | a store over opened pages and replayed segments satisfies the invariant and shows exactly the published keys and the replayed datoms |
| KvStore.KVStore.JournalOnly | go/internal/kvstore/kvstore.go:564-568 | journals exactly the datoms and keeps the invariant with them pending |
| KvStore.KVStore.ApplyBatch | go/internal/kvstore/kvstore.go:536-561 | makes exactly the keys of the batch visible per column family |
| KvStore.KVStore.BatchWrite | go/internal/eavt/write.go:19-50 | journals exactly the datoms, in order, before applying every entry; afterwards nothing is pending |
| KvStore.KVStore.CaptureFlush | go/internal/kvstore/kvstore.go:598-614 | fails exactly while a flush is in flight; freezing moves every live write to the captured ones, changes nothing visible, and the boundary covers only captured keys |
| KvStore.KVStore.AbortFlush | go/internal/kvstore/kvstore.go:700-706 | giving a flush up leaves exactly the pages and the live writes of every column family visible; what was frozen counts as lost, and the invariant holds |
| KvStore.KVStore.DrainBatch | go/internal/kvstore/kvstore.go:619-660 | per column family the requests hold exactly the captured keys, ascending |
| KvStore.KVStore.PrepareFlush | go/internal/kvstore/kvstore.go:664-677 | under any root name the prepared trees hold exactly the base and the captured keys, and nothing readers see changes |
| KvStore.KVStore.PublishFlush | go/internal/kvstore/kvstore.go:680-693 | nothing becomes visible or invisible; the durable position becomes the boundary and the log before it is covered by the pages |
| KvStore.KVStore.OpenScanCursor | go/internal/kvstore/kvstore.go:724-741 | the sources of a snapshot hold exactly the keys written so far, in the pages or in the runs |
| KvStore.KVStore.Scan | go/internal/kvstore/kvstore.go:724-741 | a scan returns exactly the written keys from the target on, strictly ascending |
| KvStore.KVStore.Gc | go/internal/transactor/server.go:376-416 | a collection between flushes that keeps the published root keeps the invariant: the published trees keep their contents, and the roots are exactly the kept ones |
| KvStore.CountOneKeepsNewest | go/internal/pagestore/gc.go:8-25 | a collection that keeps one root keeps the published one if and only if it is the newest |
| KvStore.KVStore.WalCycle | go/internal/wal/wal.go:227-242 | writing out and deleting durable segments keeps the invariant; a log that is durable and sealed to its end is gone entirely |
| KvStore.KVStore.Step | go/internal/kvstore/kvstore.go:536-741 | every step, with any clock, does to pages, captured and live keys of every column family exactly what the step on three sets says, and scans exactly what is shown; the root a reopened store would load stays the published or prepared one unless a prepare names an older root |
| KvStore.KVStore.Run | go/internal/kvstore/kvstore.go:536-741 | every interleaving of writes, scans, capture, prepare, publish, abort, log cycles and collections refines the run on three sets of keys: contents, every scan and the keys lost by aborts are exactly what it says; if the clock does not step back the disk recovers every visible datom and nothing that was not written |
| KvStore.ShownBounds | go/internal/kvstore/kvstore.go:536-741 | in every run nothing is shown that was not there or written, and everything is shown unless its flush was given up |
| KvStore.ShownWithoutAbort | go/internal/kvstore/kvstore.go:536-741 | without aborts nothing is lost and what is shown is what was there and exactly what the run has written |
| KvStore.RecoveryComplete | go/internal/kvstore/kvstore.go:322-363 | while the newest root is the published or prepared one, the tree it loads and the segments on disk give every visible or journaled datom and nothing but what was written |
| Recovery.ReplayJournals | go/internal/kvstore/kvstore.go:322-363 | reads the records of every segment on disk, in order |
| Recovery.Reopen | go/internal/kvstore/kvstore.go:169-211 | a store opened on the disk of one that stopped at any point satisfies the invariant and shows exactly the datoms on disk: all visible and journaled ones and at most aborted ones besides |
| Recovery.Sessions | go/internal/kvstore/kvstore.go:169-363 | over any number of sessions, each any interleaving with aborts ended by a crash wherever it stands, the last store shows nothing that was not there or written and everything but keys whose flush was given up; without aborted flushes exactly what was there and was written |
| Recovery.ContinuesBounds | go/internal/kvstore/kvstore.go:169-363 | if every session begins with what the one before showed and at most keys it had given up, the bounds hold for any number of sessions |
| Recovery.FlushSurvives | go/internal/pagestore/store.go:840-845 | a new datom that is flushed under a root of a given time survives the log cycle and a crash if and only if no earlier root is newer than that time |
| Recovery.AbortSurvives | go/internal/kvstore/kvstore.go:695-706 | a new datom whose flush is given up survives the next flush, the log cycle and a crash if and only if it is written again before that flush |
| KvStore.CaptureVisible | go/internal/kvstore/kvstore.go:598-614 | freezing only renames the live writes |
| KvStore.PublishVisible | go/internal/kvstore/kvstore.go:680-693 | publishing moves exactly the frozen keys into the tree |
| SchemeVm.SimpleAgrees | go/internal/scheme/scheme.go:1167-1207 | the machine evaluates literals, variables, host calls and range forms to their meaning and leaves the stack alone |
| SchemeVm.FormRuns | go/internal/scheme/scheme.go:513-811 | on top of any stack every compiled form runs to its meaning and hands its value to that stack |
| SchemeVm.MachineMeets | go/internal/scheme/scheme.go:513-811 | every program with a meaning runs to exactly it: same rows in the same order, same host calls, same final bindings, same error; a program that exceeds its rounds is still running after that many turns |
| SchemeVm.TestsDecide | go/internal/scheme/scheme.go:522-571 | void and false take the else branch, skip the body of a when and end a while; every other value, zero, the empty string and the empty list included, takes the branch, the body, one more round |
| SchemeVm.MachineBranches | go/internal/scheme/scheme.go:59-69 | the machine runs an if over any literal to the first branch unless the literal is void or false, and to the second then |
| SchemeVm.MeaningMeets | go/internal/scheme/scheme.go:513-811 | every run that stops is the run of the meaning of the program |
| SchemeVm.LoopRuns | go/internal/scheme/scheme.go:541-554 | a while loop runs to its meaning, its value is Void, and a row yielded inside it resumes in place |
| SchemeVm.HandedDown | go/internal/scheme/scheme.go:513-587 | a value leaves the stack it is handed to as it is if and only if a form or nothing is on top of it |
| SchemeVm.ArgumentApart | go/internal/scheme/scheme.go:589-621 | a binding form in an argument position touches nothing below it if and only if no frame waits for a value on top of the stack; then the argument is evaluated apart |
| SchemeVm.BindingsReceive | go/internal/scheme/scheme.go:589-621 | under any enclosing bindings such an argument uses them all up and each of them receives the argument |
| SchemeVm.NestedBindingLeaks | go/internal/scheme/scheme.go:513-621 | for every binding, call, argument binding and host outside the compiled programs: the enclosing binding receives the argument, so it holds the answer of the call if and only if the two are equal |
| SchemeVm.VmSession.constructor | go/internal/scheme/scheme.go:1233-1235 | what a session has to come is the meaning of its program |
| SchemeVm.VmSession.Feed | go/internal/scheme/scheme.go:513-587 | the loop hands a value down the stack as specified |
| SchemeVm.VmSession.EvalWithYield | go/internal/scheme/scheme.go:624-654 | runs to the next row, the end or the error of what was to come, and leaves exactly the rest |
| SchemeVm.VmSession.NextBatch | go/internal/scheme/scheme.go:1240-1260 | the rows returned and the list rows still to come are the list rows that were to come; a batch that is not the last has exactly the size asked for; an error returns no rows and no more |
| SchemeVm.ListRowsAre | go/internal/scheme/scheme.go:1250-1254 | the list rows are exactly the rows that are lists, in order |
| SchemeVm.Stream | go/internal/scheme/scheme.go:1240-1260 | for every sequence of positive batch sizes the batches are a prefix of the rows of the meaning; when finished they are all of them and the bindings are final |
| AnchorCache.HitsAreLatest | go/internal/anchor/anchor.go:208-376 | after any history whatever the cache holds is the latest put of that key with nothing removing it since |
| AnchorCache.RecentlyUsedStay | go/internal/anchor/anchor.go:208-376 | an anchor that was put is found, with the entity of its last put, as long as nothing removes it and it fits the budget together with all anchors put or found since |
| AnchorCache.WithinBudget | go/internal/anchor/anchor.go:305-376 | after any history the accounted bytes are within the budget or the cache is empty |
| AnchorCache.WithoutSize | go/internal/anchor/anchor.go:227-239 | removing a key gives back exactly its bytes |
| AnchorIndex.FnvValues | go/internal/anchor/anchor.go:112-122 | the hash of nothing and of one letter are the published values of 64-bit FNV-1a |
| AnchorIndex.XorBit | go/internal/anchor/anchor.go:112-122 | the exclusive or of the hash is that of every bit |
| AnchorIndex.AndMask | go/internal/anchor/anchor.go:183-203 | masking with a power of two less one is the remainder, so the walk wraps around the table |
| AnchorIndex.FnvOf | go/internal/anchor/anchor.go:112-122 | the hash of attribute and value is the FNV-1a hash of the stored key bytes |
| AnchorIndex.FnvAt | go/internal/anchor/anchor.go:256-262 | the hash of an arena slice is the FNV-1a hash of its bytes, so rehashing finds the same homes |
| AnchorIndex.AnchorKeyInjective | go/internal/anchor/anchor.go:124-140 | different pairs have different stored keys |
| AnchorIndex.FindSlot | go/internal/anchor/anchor.go:180-205 | finds the record of the key, or shows there is none and returns a free slot its walk reaches; the walk ends because an empty slot exists |
| AnchorIndex.KillKeeps | go/internal/anchor/anchor.go:227-239 | a tombstone keeps every other record reachable |
| AnchorIndex.InsertKeeps | go/internal/anchor/anchor.go:351-375 | filling a free slot of the walk keeps every record reachable and every key unique |
| AnchorIndex.Rebuild | go/internal/anchor/anchor.go:264-301 | rehashing and compacting the arena keeps every anchor, its order and its entity |
| AnchorIndex.Index.HasEmpty | go/internal/anchor/anchor.go:180-205 | there is always an empty slot although tombstones are over-counted on reuse |
| AnchorIndex.Index.LruUnlink | go/internal/anchor/anchor.go:144-158 | the links remain exactly the list without the record |
| AnchorIndex.Index.LruPush | go/internal/anchor/anchor.go:160-169 | the links become exactly the list with the record in front |
| AnchorIndex.Index.Touch | go/internal/anchor/anchor.go:171-176 | the record moves to the front of the list |
| AnchorIndex.Index.KillRec | go/internal/anchor/anchor.go:227-239 | the cache loses exactly that record; load, other slots and other records are kept |
| AnchorIndex.Index.Probe | go/internal/anchor/anchor.go:208-223 | answers as the cache does and moves a hit to the front |
| AnchorIndex.Index.Del | go/internal/anchor/anchor.go:242-252 | removes exactly the key |
| AnchorIndex.Index.Rehash | go/internal/anchor/anchor.go:264-301 | the cache is unchanged, the table has the new capacity and no tombstones |
| AnchorIndex.Index.TakeRec | go/internal/anchor/anchor.go:349-356 | a freed record or a new one, not live and no longer free |
| AnchorIndex.Index.Insert | go/internal/anchor/anchor.go:349-375 | evicts what does not fit and puts the new anchor in front |
| AnchorIndex.Index.Update | go/internal/anchor/anchor.go:339-344 | replaces the entity and moves the anchor to the front |
| AnchorIndex.Index.EvictUntilFits | go/internal/anchor/anchor.go:305-314 | drops exactly the least recently used anchors that do not fit |
| AnchorIndex.Index.Grow | go/internal/anchor/anchor.go:328-338 | afterwards one more insertion keeps the load below seven tenths |
| AnchorIndex.Index.Put | go/internal/anchor/anchor.go:319-376 | becomes exactly the cache after the put: update and touch, rejection, or eviction and insertion |
| AnchorIndex.Index.Clear | go/internal/anchor/anchor.go:379-395 | becomes the empty cache |
| AnchorIndex.Replay | go/internal/anchor/anchor.go:208-395 | after any commands the index is the cache it stands for and within its budget; every probe answers exactly what that cache holds, and a hit is the latest put with nothing removing it since |
| Keys.OrderIsNumeric | go/internal/eavt/keys.go:51-55 | byte strings of one length are ordered as the numbers they are |
| Keys.EncodeIntOrder | go/internal/eavt/keys.go:51-55 | the sign-flipped encoding of 64-bit integers is invertible and keeps the signed order |
| Keys.EncodeFloatOrder | go/internal/eavt/keys.go:61-72 | the float encoding is invertible and keeps the order of all numbers, with the negative zero before the positive one |
| Keys.SuffixOrder | go/internal/eavt/keys.go:27-33 | versions are ordered by time, a retraction after an assertion of the same time |
| Keys.SuffixRoundTrip | go/internal/eavt/keys.go:27-38 | a suffix gives back its retraction bit always and its time if and only if that is not negative |
| Keys.EncodeVariable | go/internal/eavt/keys.go:82-99 | the loop writes the block encoding of the string up to its first NUL |
| Keys.DecodeVariableStr | go/internal/eavt/keys.go:289-305 | the loop reads blocks up to the first that is not full |
| Keys.BlocksRoundTrip | go/internal/eavt/keys.go:82-99 | every non-empty string decodes to itself whatever bytes follow |
| Keys.ValueRoundTrip | go/internal/eavt/keys.go:289-305 | every string, the empty one included, decodes from its encoding alone |
| Keys.EmptyReadsOn | go/internal/eavt/keys.go:289-305 | the empty string has no block, so decoding reads what follows |
| Keys.BlocksPrefixFree | go/internal/eavt/keys.go:82-99 | no encoding of a non-empty string is a prefix of another encoding |
| Keys.BlocksOrder | go/internal/eavt/keys.go:82-99 | encodings are ordered exactly as the strings and are equal only for equal strings |
| Keys.ValuesPrefixFree | go/internal/eavt/keys.go:110-133 | within one value mode no encoded value is a proper prefix of another, except the empty string, after which the other value has a non-zero first byte and a non-zero control byte |
| Keys.LogicalPrefixFree | go/internal/eavt/keys.go:138-195 | in each of the four indexes a logical key that is a prefix of another is the key of the same datom, or of an empty string with a non-zero byte following in the other |
| Keys.VersionsByDatom | go/internal/eavt/keys.go:138-195 | in each of the four indexes and for every mix of modes, empty strings included, keys of different datoms are ordered as their logical keys |
| Keys.TimesInLimit | go/internal/eavt/resolver.go:40-74 | every allocated transaction time and every attribute identifier lies below the limit under which a suffix starts with a zero byte |
| Keys.DerivedAreStored | go/internal/eavt/eavt.go:448-472 | deriving index keys from the datom key gives exactly the index keys the write stored |
| Rebuild.DerivedIs | go/internal/eavt/eavt.go:448-472 | deriving from a datom key gives its version in attribute order, and in value and reverse order exactly as asked |
| Rebuild.Expand | go/internal/replica/replica.go:93-111 | a replica writes the datoms among the log records and with each exactly the index keys the primary stored |
| Rebuild.RecoverIndexes | go/internal/eavt/write.go:393-420 | a restart derives from the datoms exactly the versions each index carries, but none for the time of a transaction and no reverse key of a retraction |
| Rebuild.RecoveredExact | go/internal/eavt/write.go:393-420 | an index whose pages agreed with the datom pages agrees with all datoms after a restart if and only if no datom from the log is the time of a transaction or, in the reverse index, a retraction |
| Rebuild.RetractedReferenceShows | go/internal/eavt/write.go:403-410 | a reference asserted before a flush and retracted after it is shown by the reverse index after a restart although the datom is gone |
| Versions.VersionOrder | go/internal/eavt/keys.go:27-33 | versions of one datom are ordered by their suffixes |
| Versions.ActivePass | go/internal/eavt/eavt.go:207-259 | the backward loop and the reversal compute the specified pass |
| Versions.PassIsActive | go/internal/eavt/eavt.go:216-248 | on ascending keys the pass returns, ascending, exactly the newest asserted versions if and only if no asserted version is separated from a newer one |
| Versions.VersionsContiguous | go/internal/eavt/eavt.go:216-248 | with keys ordered by datom everything between two versions is a version of the same datom |
| Versions.ByDatomUnsplit | go/internal/eavt/eavt.go:216-248 | keys ordered by datom meet the condition |
| Versions.ScanPrefixActive | go/internal/eavt/eavt.go:207-259 | on every ascending list ordered by datom the answer is exactly the active datoms, in order |
| Versions.StoredKeysByDatom | go/internal/eavt/keys.go:138-195 | whatever is written, empty strings included, the keys of each of the four indexes are ordered by datom |
| Versions.ScanStored | go/internal/eavt/eavt.go:207-259 | an active scan of any of the four indexes over any written keys returns exactly the newest asserted versions, in order |
| Versions.OneDatom | go/internal/eavt/keys.go:138-195 | keys with equal logical keys are versions of one datom, ordered by time and then retraction; others are ordered by their logical keys |
| Versions.ActiveBelowPrefix | go/internal/eavt/eavt.go:207-259 | a prefix that does not reach into a version cuts the active set without changing it |
| Hydrated.PackedAt | go/internal/hydrated/hydrated.go:106-117 | offsets delimit exactly the packed keys |
| Hydrated.FindKeyPos | go/internal/hydrated/hydrated.go:169-183 | finds the stored version of the datom or shows there is none |
| Hydrated.ReplaceKeyAt | go/internal/hydrated/hydrated.go:185-205 | buffer and offsets become those of the list with the key replaced |
| Hydrated.InsertKeyAt | go/internal/hydrated/hydrated.go:207-224 | buffer and offsets become those of the list with the key inserted |
| Hydrated.RemoveKeyAt | go/internal/hydrated/hydrated.go:226-241 | buffer and offsets become those of the list without the key, and the freed length is returned |
| Hydrated.ShiftOffsets | go/internal/hydrated/hydrated.go:200-203 | adds the difference to exactly the offsets from a position on |
| Hydrated.InsertIndex | go/internal/hydrated/hydrated.go:452-456 | everything before the index is below the key and everything from it on above |
| Hydrated.ActiveAdds | go/internal/hydrated/hydrated.go:429-467 | a version that is not older replaces whatever was active of its datom, if it is an assertion |
| Hydrated.OlderAddsNothing | go/internal/eavt/eavt.go:216-248 | an older version changes nothing that is active |
| Hydrated.MirrorExact | go/internal/hydrated/hydrated.go:429-467 | mirroring one write leaves the active keys of the store with the write if and only if it is not older than what is stored or retracts what is not active |
| Hydrated.MirrorAllIs | go/internal/hydrated/hydrated.go:429-467 | after any writes in any order the cache answers with the last write of every datom, if that is an assertion, and with what it had of the others |
| Hydrated.BatchExact | go/internal/hydrated/hydrated.go:429-467 | a batch leaves the active keys of the store with the batch if and only if the last write of every datom in it is not older than anything stored or retracts what is not active |
| Hydrated.ApplyToEntry | go/internal/hydrated/hydrated.go:429-467 | whatever the order of writes, the entry becomes its keys without the datom of the write, with the write if it is an assertion, in order; the change in bytes is returned |
| Hydrated.Set.ProbeComplete | go/internal/hydrated/hydrated.go:254-267 | membership; a hit moves to the front of the order of use and nothing else moves |
| Hydrated.Set.LookupRange | go/internal/hydrated/hydrated.go:355-393 | returns exactly the stored keys with the prefix; for a fresh entry that is the active scan of the store unless the prefix reaches into a version, and for a whole entity it is that only if the entry is fresh |
| Hydrated.Set.KeysFrom | go/internal/hydrated/hydrated.go:398-423 | returns exactly the stored keys from the target on, ascending |
| Hydrated.Set.ApplyKey | go/internal/hydrated/hydrated.go:429-467 | the write becomes what its entity answers for its datom; every other entity and datom is unchanged |
| Hydrated.FreshExact | go/internal/hydrated/hydrated.go:429-467 | an entry that was fresh stays fresh after one write if and only if the write belongs to another entity or can be followed |
| Hydrated.Set.ApplyAll | go/internal/eavt/write.go:44-48 | after a batch in any order every entry holds the last write of each of its datoms; one that was fresh stays fresh if and only if each of those can be followed |
| Hydrated.Set.HydrateEmpty | go/internal/hydrated/hydrated.go:490-500 | an entity becomes hydrated without keys, which is fresh if and only if the store has no active datom of it, and is the most recently used |
| Hydrated.Set.Hydrate | go/internal/hydrated/hydrated.go:504-529 | installs the active keys exactly when they fit the budget, and the entry is fresh and the most recently used; entities already hydrated are kept as they are and used now |
| Hydrated.Set.EvictLruUntilFits | go/internal/hydrated/hydrated.go:477-486 | drops exactly a tail of the order of use, the shortest after which the bytes fit, or all; the others are unchanged |
| Hydrated.PackAll | go/internal/hydrated/hydrated.go:521-525 | buffer and offsets pack exactly the keys |
| Hydrated.Set.Evict | go/internal/hydrated/hydrated.go:532-538 | drops exactly the entity |
| Hydrated.Set.Clear | go/internal/hydrated/hydrated.go:541-548 | drops every entity |
| Hydrated.LossExact | go/internal/kvstore/kvstore.go:700-706 | losing datoms leaves what is active unchanged if and only if no lost key was the newest of its datom, except retractions of what is not active without them either |
| Hydrated.DatomKeysAreDatoms | go/internal/eavt/keys.go:138-150 | the keys of any datoms, empty strings included, are ordered by datom and long enough |
| Saves.SaveExact | go/internal/engine/write.go:76-118 | saving a value of a single-valued attribute makes it the only active one if and only if it was not active already and its datom was not retracted at the same time; otherwise the attribute is left without a value |
| Saves.ResaveLosesValue | go/internal/engine/write.go:76-118 | saving at any later time the value an attribute already has leaves the attribute without an active value |
| Saves.TransactionExact | go/internal/engine/write.go:255-318 | exactly what a transaction leaves active of an attribute: the old values unless a remaining operation replaces them, and the remaining assertions, each unless the transaction withdraws it |
| Saves.OneValueExact | go/internal/query/edn_tx.go:500-523 | a single-valued attribute written by a transaction has at most one value after it if and only if no two remaining operations that are not withdrawn give it different values |
| Saves.TwoValuesStay | go/internal/engine/write.go:255-290 | two different values for one single-valued attribute in one transaction both stay active, whatever was stored before |
| Transactions.HasDatom | go/internal/engine/write.go:323-351 | whether the cache or the store answers, the datom is reported present exactly when it is active, unless the cache entry is stale |
| Transactions.SaveInto | go/internal/engine/write.go:76-119 | the entries are those of the retractions of exactly the active values of a single-valued attribute, then of the assertion; each index gets exactly the versions it carries, the value index for indexed attributes and the reverse index for references |
| Transactions.EntriesComplete | go/internal/eavt/keys.go:203-249 | the entries of a version, asserted or retracted, hold it once in entity and attribute order, in value order exactly if the attribute is indexed, in reverse order exactly if it is a reference |
| Transactions.MirrorsExactly | go/internal/eavt/keys.go:203-249 | an index that mirrors a set of datoms holds a version if and only if the set does and the index carries its attribute |
| Transactions.RetractFound | go/internal/engine/write.go:97-105 | the retractions of the values found are complete in every index |
| Transactions.RetractEntries | go/internal/engine/write.go:292-318 | the retractions asked for are complete in every index and are exactly those of the operations that retract |
| Transactions.SaveWithT | go/internal/engine/write.go:121-162 | the store gains exactly the retractions and the assertion, and every index exactly the versions of them it carries; indexes that agree keep agreeing; the value is the only active one, and a hydrated entity agrees with the store, if and only if the save holds; the entity shows the value in any case |
| Transactions.Transact | go/internal/query/edn_tx.go:500-526 | a transaction whose lookups are not misled adds to the store exactly the remaining assertions, the retractions of what they replace and the retractions asked for, and every entity whose cache entry agreed with the store still does; whatever its lookups, every index gains exactly the versions it carries of what the store gains, and indexes that agree keep agreeing |
| Engine.EavtEngine.TellAnchors | go/internal/eavt/write.go:25-36 | every indexed entry reaches the anchor index, in order: an assertion as a put of its entity, a retraction as a removal |
| Engine.AnchorOpIs | go/internal/eavt/write.go:26-35 | an asserted version in the value index puts its entity under its attribute and value, a retracted one removes what is there |
| Engine.EavtEngine.BatchWrite | go/internal/eavt/write.go:19-50 | one batch in any order reaches log, memtable, cache and anchors: the log gains exactly the datoms and every column family exactly its keys; a hydrated entity then holds the last write of each of its datoms, and if it agreed with the store it still does if and only if each of those can be followed |
| Engine.EavtEngine.ScanPrefix | go/internal/eavt/eavt.go:171-204 | the merged cursor over pages and runs gives exactly the written keys of the column family with the prefix, in order |
| Engine.EavtEngine.ScanPrefixActive | go/internal/eavt/eavt.go:207-259 | in each of the four indexes the result is exactly the newest asserted versions among everything written below the prefix, in order, when the store answers or a fresh cache entry does; for a whole hydrated entity if and only if its entry is fresh |
| Engine.EavtEngine.HydrateEid | go/internal/eavt/write.go:264-273 | an entity not yet hydrated is hydrated afterwards, with a fresh entry, exactly when it has active datoms and they fit the budget; no other entry changes except by eviction |
| Engine.EavtEngine.LookupAnchor | go/internal/eavt/write.go:352-356 | an anchor hit names the entity of the last version ever written to the value index with that attribute and value, and that version was an assertion |
| Engine.EavtEngine.CaptureFlush | go/internal/transactor/server.go:433-439 | fails exactly while a flush is in flight; nothing written or cached changes and the engine invariant holds |
| Engine.EavtEngine.PublishFlush | go/internal/transactor/server.go:448-450 | publishing prepared trees changes nothing written or cached and keeps the engine invariant |
| Engine.EavtEngine.AbortFlush | go/internal/transactor/server.go:441-447 | giving a flush up leaves pages and live writes in every column family; an entity whose cache entry agreed with the store still does if and only if the loss is unseen |
| Engine.EavtEngine.RunFlush | go/internal/transactor/server.go:433-455 | a flush that publishes moves every live write to the pages under the new root and changes nothing written or fresh; one that fails leaves the pages only, and an entry stays fresh if and only if the loss is unseen |
| Runner.StartsIdle | go/internal/transactor/server.go:280-455 | the idle state satisfies the invariant |
| Runner.NextKeeps | go/internal/transactor/server.go:280-455 | every step of every participant keeps the invariant: one runner at most, pending work implies one, untaken flush requests keep the flag up, manual collections are accounted for once |
| Runner.RunsAreSafe | go/internal/transactor/server.go:280-455 | in every run at most one runner exists; pending work has one; when nobody runs every flush request was taken and every manual collection was answered exactly once |
| Runner.EveryFlushIsServed | go/internal/transactor/server.go:280-291 | in every run that ends with no runner, however others step in, every flush request is followed by a capture begun after it |
| Runner.FlagIsServed | go/internal/transactor/server.go:345-370 | a raised flag leads to a capture before the runner is gone |
| Runner.CapturedIsPublished | go/internal/transactor/server.go:433-450 | whoever steps in between, a capture and a prepare that both succeed bring the runner to publishing |
| Runner.PublishedWasPrepared | go/internal/transactor/server.go:433-450 | the runner publishes only after it began a capture and both the capture and the prepare succeeded |
| Runner.PublishQueues | go/internal/transactor/server.go:448-455 | after a publish an automatic collection is pending when the runner turns to collecting |
| Runner.PublishIsCollected | go/internal/transactor/server.go:338-361 | in every run that ends with no runner a publish is followed by an automatic collection |
| Runner.OldestIsTaken | go/internal/transactor/server.go:376-384 | before and after a flush the runner takes the oldest pending collection, so the one queued by a publish runs in the same round unless a manual one was queued before it |
| Runner.CollectionsGoFirst | go/internal/transactor/server.go:338-361 | a runner that is starting or between rounds gets to nothing else before the oldest pending collection is underway |
| Runner.AutosCoalesce | go/internal/transactor/server.go:316-326 | in every run at most one automatic collection is pending |
| Runner.ManualsAreQueued | go/internal/transactor/server.go:311-336 | in every run every manual request is queued, none is merged with another |
| Runner.SomeoneCanStep | go/internal/transactor/server.go:280-361 | clients can always ask, and while there is work or a runner someone can step |
| Runner.RunnerProgress | go/internal/transactor/server.go:345-361 | left alone every step of the runner lowers a rank built on the queue length and the flag |
| Runner.FlushLoop | go/internal/transactor/server.go:345-361 | without outside requests the loop ends with nothing left to do, whichever captures and prepares succeed; if the flag was up a capture was begun on the way, and if a publish was under way an automatic collection was run |
| Runner.NoOverlap | go/internal/transactor/server.go:338-361 | no collection runs while the runner is between capturing and publishing |
| Replication.Subscriber.constructor | go/internal/replication/replication.go:202-208 | a registered subscriber has queued, sent and been fed nothing |
| Replication.WireIsEncoded | go/internal/replication/replication.go:18-41 | the sizes counted for log, seal and root frames are four bytes and the length of their encoded maps |
| Replication.FrameCharges | go/internal/replication/replication.go:97-99 | seals are charged 22 to 30 bytes more than they weigh and roots 10 to 18, log frames 19 to 22 less, responses and the snapshot exactly |
| Replication.Subscriber.FlushBuf | go/internal/replication/replication.go:81-86 | buffered log bytes become one frame; the bytes queued are then all bytes fed, and as many are pending as before |
| Replication.Subscriber.Enqueue | go/internal/replication/replication.go:90-101 | a mark or response stands behind exactly the log bytes fed before it and is charged to the backlog; a closed subscriber queues nothing |
| Replication.Subscriber.AppendWal | go/internal/replication/replication.go:103-116 | feeds exactly the bytes unless closed; closes exactly when the counter passes 64 MiB, and then as much is pending but for the surplus of the marks sent; if it stays open no more is pending but for the excess of the log frames sent |
| Replication.Subscriber.Hear | go/internal/replication/replication.go:235-261 | the bytes of one log call are fed before the seal mark of the segment it closes; the mark stands behind exactly the bytes fed; a closed subscriber keeps its frames |
| Replication.Subscriber.Pump | go/internal/replication/replication.go:135-144 | the drain runs afterwards unless the subscriber is closed; an open subscriber with queued frames always has a drain running or owed |
| Replication.Subscriber.DrainTake | go/internal/replication/replication.go:151-161 | the running drain takes the whole queue in order, or stops exactly when nothing is queued or the subscriber is closed |
| Replication.Subscriber.DrainDone | go/internal/replication/replication.go:162-188 | a successful write sends exactly what was taken, in order, and takes its weight off the counter, never below zero; a failed one sends a first part of it and closes; the counter stays between pending bytes less excess and pending bytes plus surplus |
| Replication.NoMarksNoSurplus | go/internal/replication/replication.go:178-186 | if no seal or root was sent the counter never exceeds what is pending, nothing pending is nothing counted, and only a failed write or more than 64 MiB pending closed the subscriber |
| Replication.IdleIsClosed | go/internal/replication/replication.go:245-260 | 3,050,403 delivered seals with no log bytes leave a counter on which the next single log byte closes the replica |
| Replication.PendingBeyondLimit | go/internal/replication/replication.go:103-116 | an open replica can have more than 64 MiB pending |
| Replication.Feed.constructor | go/internal/transactor/server.go:494-507 | capture and registration under the lock of the writer: nothing is queued yet, and the stream will continue exactly where the captured log ends |
| Replication.Feed.SendSnapshot | go/internal/transactor/server.go:500-503 | queues the snapshot behind whatever was queued since registration, which holds no log bytes, and releases the writer |
| Replication.RootFirst | go/internal/transactor/server.go:500-503 | from every log a root published between registration and snapshot is the first frame and the snapshot the second |
| Replication.Feed.Sink | go/internal/wal/wal.go:103-142 | journaled bytes reach an open subscriber once, before the seal mark of a rotation they trigger; the mark stands at the boundary of its segment if and only if the batch is empty |
| Replication.Feed.Seal | go/internal/wal/wal.go:145-150 | a capture leaves the stream as it is |
| Replication.Feed.Cycle | go/internal/wal/wal.go:227-242 | a rotation in the background cycle is passed on with its mark at the boundary of its segment; the stream stays the log |
| Replication.Feed.Tell | go/internal/replication/replication.go:90-101 | a response or root stands behind all log bytes fed so far, also before the snapshot; the stream stays the log |
| Replication.Feed.DrainDone | go/internal/replication/replication.go:146-188 | sending keeps the invariant of the stream; what was sent grows by what was written |
| Replication.StreamIsLog | go/internal/replication/replication.go:81-188 | at any time the first frames sent are roots and responses up to the snapshot, and from it on the captured log followed by log bytes without gap or repeat; each mark or response stands behind exactly the log bytes fed before it was queued |
| Replication.Delivered | go/internal/replication/replication.go:135-188 | no frame is left behind: when no drain runs or is owed, an open replica has been sent every queued frame, and with the bytes still buffered that is the whole log |
| Replication.Feed.Settle | go/internal/replication/replication.go:146-189 | left to itself with a connection that works the drain ends, and an open replica has then been sent the whole log but the bytes still buffered |
| Replication.Feed.Step | go/internal/replication/replication.go:81-188 | each step that is possible is taken: the log grows by what is journaled unless the writer is held, what is told or captured is queued, pumps, takes and writes move the drain on |
| Replication.Feed.Run | go/internal/replication/replication.go:81-188 | in every interleaving of journaling, sealing, log cycles, responses, roots, snapshot, and successful or failing drain steps the stream sent is the captured log continued without gap or repeat, and all of it when nothing is left to drain |
| RangeValues.ComparesByPosition | go/internal/scheme/scheme.go:199-281 | values of any kinds that are not NaN compare by kind and then within it, byte strings by length first, exactly as their positions in one byte-wise order |
| RangeValues.IntsAgree | go/internal/scheme/scheme.go:124-197 | a stored integer lies on the same side of the bytes of a bound as the predicate says |
| RangeValues.StringsAgree | go/internal/scheme/scheme.go:147-172 | strings agree if and only if they differ before their first NULs or are equal |
| RangeValues.BytesAgree | go/internal/scheme/scheme.go:174-178 | byte strings below 2^32 bytes agree |
| FloatValues.ShortestWhole | go/internal/engine/engine.go:236-237 | for every parser to nearest floats and printer of shortest decimals, the shortest decimal of a float is an integer of at most six digits if and only if the float is an integer of magnitude below a million, and then it is that integer |
| FloatText.ShortReads | go/internal/engine/engine.go:236-237 | the text a save prints for a decimal spells that decimal, and reads as an integer exactly for integers of at most six digits |
| FloatText.PointedReads | go/internal/numfmt/numfmt.go:12-80 | the text a transaction prints for a decimal spells that decimal and never reads as an integer |
| FloatText.SaveStores | go/internal/eavt/keys.go:118-132 | through its text a saved float is stored as an integer exactly when it is one of magnitude below a million, zeros included, as the one NaN when it is a NaN, and as itself otherwise |
| FloatText.TxStores | go/internal/query/edn_tx.go:180-185 | through its text a float of a transaction is stored as the one NaN when it is a NaN and as itself otherwise |
| FloatText.NamesRead | go/internal/eavt/keys.go:118-132 | NaN and the infinities are read from their names in any case |
| RangeValues.SentFloatsAgree | go/internal/scheme/scheme.go:133-145 | a float of a transaction agrees with a bound if and only if both are numbers and not zeros of opposite sign, or it is a NaN and the bound the one NaN that is stored |
| RangeValues.SavedFloatsAgree | go/internal/scheme/scheme.go:133-145 | a saved float agrees with a bound if and only if both are numbers and the bound does not lie between a small integer and the float its bytes stand for, or it is a NaN and the bound the one NaN that is stored |
| RangeValues.ThreeBelowOneAndAHalf | go/internal/eavt/keys.go:125-130 | a saved 3.0 is an integer in the store and lies below the bound 1.5 |
| RangeValues.SavedFloatReads | go/internal/eavt/keys.go:325-328 | a saved float reads back as itself if and only if it is zero without sign, the one NaN, or a number that is no integer of magnitude below a million |
| RangeValues.BoolsAgree | go/internal/scheme/scheme.go:190-195 | booleans agree if and only if the stored one is true and the bound false, because bounds and stored values are encoded differently |
| RangeValues.KeywordsAgree | go/internal/scheme/scheme.go:180-197 | keywords agree if and only if the stored one is empty and below the bound or not empty and above it, because every keyword bound is eight zero bytes |
| RangeValues.KindsThatFail | go/internal/scheme/scheme.go:180-197 | not true accepts a stored true and rejects a stored false; at least 0.0 rejects a -0.0 of a transaction; all keyword bounds are one |
| RangeValues.BytesInOrder | go/internal/scheme/scheme.go:180-281 | for integers, strings without NUL and byte strings the bytes are ordered exactly as the values |
| Ranges.Tighten | go/internal/scheme/scheme.go:386-402 | the tightened interval is exactly the old one and the comparison, for values of any kinds |
| Ranges.Cut | go/internal/scheme/scheme.go:407-437 | the pieces cover exactly the interval without the value and are apart |
| Ranges.CutAll | go/internal/scheme/scheme.go:407-437 | excluding a value from separated intervals covers exactly the rest and keeps them apart |
| Ranges.OpsToIntervals | go/internal/scheme/scheme.go:360-440 | for every conjunction of >, >=, <, <= and != over values of any kinds but NaN the union of the intervals is exactly the satisfying set, they are apart and in order, and their ends are values of the conjunction |
| Ranges.SatisfiesByPosition | go/internal/scheme/scheme.go:228-281 | a value satisfies a conjunction as its position does |
| Ranges.JoinExact | go/internal/scheme/scheme.go:316-354 | joining two touching intervals covers exactly both if and only if the first is not unbounded above with a bounded second, and the second does not include a start the first leaves out |
| Ranges.MergeIntervals | go/internal/scheme/scheme.go:296-358 | sorting and joining never covers a value no interval covered; intervals that are apart come back as they are, lists whose ends are alike cover exactly the same values, and with ends of one kind and at most one interval without a lower end the result is apart, as the scanner needs it |
| Ranges.ValidateOrPropose | go/internal/query/scanner.go:644-718 | valid exactly for covered value bytes; at end only when there are no value bytes or nothing from them on is covered; a proposal always names a target and nothing before it is covered |
| Ranges.CheckValue | go/internal/query/scanner.go:644-718 | for stored integers, strings without NUL and byte strings against bounds of their kind: accepted exactly when every comparison holds of the value, no satisfying value is skipped, the end is announced only when none remains; the empty string ends the scan in any case |
| Ranges.EmptyStringEndsScan | go/internal/query/scanner.go:618-648 | the empty string, which has no value bytes, ends a scan although a greater string satisfies the predicate |
| Msgpack.DecodeExtends | go/internal/msgpack/msgpack.go:326-532 | decoding reads no further than the value, for every byte string that decodes |
| Msgpack.HeadReads | go/internal/msgpack/msgpack.go:326-468 | whatever follows, every way the formats have to announce an integer of any width, a float, a string, bytes, an extension, an array or a map is read as that: unsigned fields as the number, signed ones and the widest unsigned one as two's complement |
| Msgpack.SpellingDecodes | go/internal/msgpack/msgpack.go:326-532 | every spelling of every value tree, shortest or not, decodes to the value and leaves what follows, so all spellings of one value decode alike |
| Msgpack.DecodedIsSpelled | go/internal/msgpack/msgpack.go:326-532 | whatever decodes begins with a spelling of what it decodes to; everything else is refused |
| Msgpack.EncodesShortest | go/internal/msgpack/msgpack.go:86-258 | no spelling of a value is shorter than what the encoder writes |
| Msgpack.EncodeSpells | go/internal/msgpack/msgpack.go:86-258 | what the encoder writes is one of the spellings |
| Msgpack.RoundTrip | go/internal/msgpack/msgpack.go:86-532 | every value tree the wire can carry decodes from its encoding, with whatever follows left over |
| Msgpack.MarshalRoundTrip | go/internal/msgpack/msgpack.go:254-546 | Unmarshal of Marshal is the value |
| Msgpack.InjectAppends | go/internal/msgpack/scan.go:61-94 | splicing a pair into any bytes that decode to a map decodes to the map with the pair appended, across all header widths and promotions |
| Msgpack.InjectRefuses | go/internal/msgpack/scan.go:10-94 | refused exactly when the bytes do not start with a map header, or the count cannot grow |
| Msgpack.Encoder.Put | go/internal/msgpack/msgpack.go:214-251 | appends exactly the encoding of the value |
| Msgpack.Encoder.PutItems | go/internal/msgpack/msgpack.go:233-236 | appends the items one after the other |
| Msgpack.Encoder.PutPairs | go/internal/msgpack/msgpack.go:237-242 | appends keys and values one after the other |
| Msgpack.Decoder.Take | go/internal/msgpack/msgpack.go:316-323 | takes exactly the next bytes or fails when there are too few |
| Msgpack.Decoder.DecodeValue | go/internal/msgpack/msgpack.go:326-468 | reads exactly one value as specified and stops behind it, errors included; that every spelling of a value and nothing else is read as it is what the two rows on spellings state |
| Msgpack.Decoder.DecodeArray | go/internal/msgpack/msgpack.go:500-513 | reads exactly the announced items |
| Msgpack.Decoder.DecodeMap | go/internal/msgpack/msgpack.go:515-532 | reads exactly the announced pairs |

## Left out

- Sockets, S3, request signing, file layout, REPL, loaders, clients, logging and counters.
- Key-value column families (10 and up) in merged scans and tree merges: they stay empty in `KvStore`; their lookups and drains are in `MemTables` and `Drain`.
- Failed reads and writes of blobs and segments; a failed prepare is an abort, and pages it may have written are not reachable from any root.
- The page cursor that walks leaves for the merged cursor: the page source of a scan is the key list that `GetKeysInPrefix` returns.
- The root file codec, leaf counts, memory sizes, the time of the newest datom and page caches.
- Keys shorter than nine or of 65536 bytes and more in the page tree: datom keys have at least twenty bytes, and the journal reader refuses longer ones.
- Arena and buffer offsets as 32-bit numbers in the anchor index and the hydrated cache.
- The linked list of hydrated entries: the order of use is a sequence.
- The special forms print, assert, and, or, not, scanner-iterate and arithmetic of the query machine, and the final value a program returns: a loop at the bottom of the stack returns its false condition.
- `ranges-create` inside the machine is a parameter; the intervals it computes are in `Ranges`.
- The comparisons = and in, which overwrite earlier bounds.
- Replica state beyond the index keys it derives, and the byte form of replication frames beyond their sizes; segment paths in a snapshot stand for their contents.
- Join convergence, the planner, EXPLAIN, the Datalog translation and the Python engine.
- Identifier allocation, and the rebuilding of anchors after a crash; the index keys derived then are in `Rebuild`.
- Single-precision floats are decoded to their bits.
- Ranges.MergeIntervals: for lists that are neither apart nor alike it states only that nothing is gained, because joining can lose values; `Ranges.JoinExact` says when.
- Ranges.CheckValue: speaks of bounds of the kind of the stored value; what bytes of different kinds compare to is not stated.
- SchemeVm.VmSession.NextBatch: nothing is stated about calls after an error, when the source resumes with what is left on the stack.
- Resolving temporary identifiers, lookup references and schema operations of a transaction: its operations name resolved entities, attributes and encoded values.
- Values of another kind than their attribute, such as an integer for a float attribute.
- Decimal texts that no printer makes: hexadecimal, underscores and upper-case exponents.

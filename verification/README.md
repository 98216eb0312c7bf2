# Focal Vector, modelled in Dafny

Focal Vector is a durable, replicated vector store. This project models the parts
whose correctness is hard to see from any single function, and proves what they
are for: nothing acknowledged is lost, replicas agree, the fast search plans give
the answers of the slow ones, and every file reads back what was written.

## How the model is laid out

Single-node durability

- `Base`, `Filters`, `Collections`: errors, metadata values, filters, batches and
  the collection; `At(h, n)` is the collection after the first `n` batches of a history.
- `Durability`: disk, memory and flushes in flight as a transition system. Each
  durable action (frame append, segment rename, manifest swap, log truncation, file
  removal) is its own step, and a crash may follow any of them.
- `CrashSafety`, `PublishSafety`, `FlushGuard`, `PublishRuns`, `Backups`: theorems
  about all runs.
- `Reopening`: which directories open and what they open to, without the loops that do it.
- `ExactReplays`: when reopening gives the very vectors that were acknowledged.
- `FailedRollbacks`: frames that could not be cut off again.
- `CollectionStore`, `PersistentCollections`: the mutable objects. Every method is
  tied to steps of the transition system.

Search

- `Ranking`, `TopK`: exact top-k, its uniqueness and its merging.
- `MetadataIndexes`, `FilteredSearch`: the inverted index and the exact filtered plan.
- `Orders`, `GraphSearch`, `BestFirst`: graph search with heaps and generation marks, and
  the search without heaps that it refines.
- `HnswGraphs`, `HnswInsertion`, `HnswBuild`, `HnswIndexes`, `CompactGraphs`:
  construction of the HNSW graph, serial and batched, and its flattened form.
- `HnswScores`, `HnswLinks`: searching, planning and building in terms of scores and
  links alone.
- `GraphAnswers`: what the graphs contribute to a search of a persistent collection.
- `Quantization`, `Int8Dot`: the scale of a quantized vector, and the two machine forms
  of the quantized dot product.

Files

- `Checksums`, `Bytes`, `Framing`: CRC-32C, codecs with their inverses, framed logs.
- `WalCodec`, `LogRecovery`, `GraphCodec`, `GraphFiles`, `SegmentCodec`: what the
  readers accept of what the writers write.
- `FileLayouts`: the same files byte by byte.
- `DiskFiles`: a whole directory as bytes, opened to what the engine recovers.

Replication and sharding

- `RaftLog`: the journal and checkpoint of the Raft log.
- `ShardMachine`, `ShardReplicas`, `ShardSearch`, `ShardNodes`: the replicated shard.
- `Routing`, `Sharding`, `ShardedRequests`, `ShardedSearch`, `ShardedCollections`: a collection
  partitioned by ID over open persistent collections.

`dafny verify dfyconfig.toml` checks everything.

## Where the code does not do what one would expect

Twelve expectations are false of the code. Each has a failing input or run and the
exact condition under which the expectation does hold.

- Log replay prepares vectors that are prepared already (src/persistence.rs:1271). For
  the dot product and the Euclidean metric this changes nothing. The cosine metric
  normalises in single precision: a second pass may round differently, and the unit vector
  of `[1e-40, 0]` comes out as an infinity and a NaN, which are logged, acknowledged and
  refused on replay. An acknowledged frame replays to what was acknowledged if and only if
  its batch is `Stable` (`FrameReplaysIff`); otherwise the reopened collection differs or
  there is none (`SecondPreparationLoses`). Over all runs each reopening is exact if and
  only if every written batch is stable and every publication safe (`ExactRunsIff`). What
  holds for every metric is that an acknowledged batch stays or is, once and for all,
  replaced by its second preparation (`AcknowledgedForever`), and that the directory opens
  if and only if the batches that only the log holds can be prepared again (`CrashSafe`).
- The scale of a quantized vector is its largest component divided by 127. For a vector
  that is not zero but has no component of 64 units of 2^-149, such as `[1e-45, 0]`, it
  underflows to zero; the writer of a graph writes it and the reader refuses it
  (`TinyVectorIsRefused`). `publish_flush` decodes what it wrote, so every flush fails while
  such a point is in it. A graph reads back if and only if every vector is `Quantizable`
  and there are at most 100,000,000 nodes (`QuantizedGraphRoundTripsIff`).
- An append that fails is cut off again, but a failure of the cut is ignored
  (src/persistence.rs:592). The next acknowledged batch reuses the sequence number of the
  frame that stayed, and recovery skips it (`StrandedFrameWins`). The batch survives if and
  only if replaying the stranded one has the same effect (`StrandedIsHarmlessIff`), or a
  flush empties the log first (`FlushingClears`). The Raft log gets a failed record back
  (`StrandedRecordIsHarmlessIff`); the state journal is safe, as it decides the same again
  (`StrandedRecordIsHarmless`).
- `SharedCollection::flush` has no "nothing to do" guard. Called twice without a
  write in between it overwrites the newest segment and lists it twice, and the
  directory no longer opens (`FlushTwiceDestroys`). Publishing is crash safe if and
  only if `SafeToPublish` holds beforehand (`PublishIsSafeIff`), and a run, with any number
  of flushes in flight, loses nothing if and only if that holds at each of its publications
  (`SharedRunsRestoreIff`). `backup_to` opens with
  that flush: a backup works if and only if `BackupSafe` holds (`BackupWorksIff`), and a
  second one with no write in between only if its flush compacts (`SecondBackupWorksIff`).
- Compaction at an unchanged sequence of a chain of several segments is not crash
  safe between the rename and the manifest swap; this is one half of `PublishIsSafeIff`.
- The documentation of `PersistentCollection::flush` promises safety at every durable
  boundary. Over all runs of a single owner that uses the guard, I/O errors included, that
  holds if and only if every publication starts in a `PublishSafe` state
  (`GuardedRunsRestoreIff`). The guard does not see to that: when a delta flush fails after
  its manifest swap, the dirty set is still there, and the retry it lets pass lists the
  segment twice (`RetryAfterErrorDestroys`). While no publication fails that late, only the
  length of the chain can violate the condition (`SteadyRunsRestore`).
- Flushes that only delete never trigger compaction, so the manifest outgrows the
  nine names a reader accepts (`DeletesOutgrowTheManifest`).
- The writer of the log checks 32-bit lengths, the reader smaller limits. A delete of
  1,000,001 IDs is acknowledged and cannot be replayed (`LongDeleteIsLost`). A directory
  opens to its history if and only if every frame, and every batch that only the log
  holds, is within the reader's limits and can be prepared again (`OpenRestoresIff`). A segment
  that cannot be decoded is harmless while no manifest names it
  (`UndecodableFileIsHarmlessIff`), and `publish_flush` decodes it before it touches the
  manifest (src/persistence.rs:514), so a newer one leaves the directory as it was
  (`FailedPublishIsHarmless`).
- The checksum of a frame does not cover its length. A length field raised within the
  limit reads as a torn tail, and all acknowledged frames from there on are cut off
  without an error if and only if it announces more than the file still holds
  (`LengthDamageCutsIff`, `RaisedLengthLoses`).
- A request to a sharded collection is validated as a whole, but validation does not
  encode. A NaN in the metadata of one point is refused by its shard after earlier shards
  have committed theirs (`NaNSplitsRequest`). A request leaves all shards changed or none
  if and only if every shard accepts its part or the first that refuses is the first that
  gets one (`RequestIsAtomicIff`).
- A point that is inserted should link to the points closest to it. From point 4096 on, points are
  planned in batches of 512 against the graph from before the batch, so two points of one
  batch never plan each other. With at most `min(ef, 2m)` points two nodes are linked both
  ways on the base layer if and only if the earlier one was in the graph that the later one
  was planned against, which is every pair among the first 4096 (`SmallBuildIsLinked`).
- `build_snapshot` between the file half and the memory half of `install_snapshot`
  overwrites the newer snapshot before the journal is emptied
  (`BuildInsideInstallLoses`). Over every run the installs last if and only if each takes
  over while its own snapshot file is the current one (`InstallsLastIff`).

## Hypotheses

- `Legal` runs of `Durability` publish only when `SafeToPublish` holds, and those of
  `ShardReplicas` install only over their own snapshot file. The theorems named above say
  exactly when the code's own runs are of this kind.
- `BatchWritable`, `SegmentWritable`: what the writers check (32-bit lengths, finite
  metadata floats) and what their callers provide (vectors of the right length, of any
  single-precision numbers). `GraphWritable` holds for every graph the index builds
  (`BuiltGraphIsWritable`).
- `EncoderChecks`: the encoder accepts only writable batches; it may refuse more.
- Installed snapshots are of committed state and never older than the current snapshot
  file (`InstallFile` in `ShardReplicas`).
- `Platform`: UTF-8, the bits of doubles and the order of sorted maps come from the
  language; only their round trips are used.

## Model

| member | source | states |
|---|---|---|
| `CrashSafety.CrashSafe` | src/persistence.rs:418-597 | for every metric, at every state of every careful run, whatever step a crash follows, the segments hold the history up to their sequence and reopening yields the acknowledged batches plus at most one completely written one, those that only the log holds prepared once more; it fails if and only if one of these is refused then; memory holds exactly the acknowledged ones |
| `CrashSafety.AcknowledgedForever` | src/persistence.rs:574-597 | no later step, crash or reopening takes an acknowledged batch back; it stays as it was acknowledged or becomes what preparing it once more gives, and never anything else |
| `CrashSafety.SettledForever` | src/persistence.rs:1265-1275 | a batch that a segment holds, or that a reopening has prepared again, never changes any more |
| `CrashSafety.DeletedNeverReturns` | src/persistence.rs:234-251 | at every state of every careful run an ID deleted by a batch of the history and not upserted since is neither in memory nor in what any reopening gives |
| `CrashSafety.RunKeeps` | src/persistence.rs:432-597 | the engine's invariant over disk, chain, log, graphs, dirty set and pending flushes holds after every careful run |
| `CrashSafety.RecoverRestores` | src/persistence.rs:765-822 | segments followed by log replay give back the whole history from any sound disk, skipping frames the segments already contain and preparing the others again, and fail exactly when one of those is refused |
| `CrashSafety.RenameKeeps` | src/persistence.rs:506-512 | moving a safe segment into place keeps the old chain loadable and the log able to restore the rest |
| `CrashSafety.SwapKeeps` | src/persistence.rs:524-535 | after the manifest swap the new chain means the collection at the new sequence, also for deltas snapshotted before other flushes were published beneath them |
| `CrashSafety.CommitKeeps` | src/persistence.rs:537-562 | the in-memory half of a publication keeps every live point in a graph or in the dirty set |
| `CrashSafety.DeltaMeaning` | src/persistence.rs:432-462 | overlaying a delta's upserts and tombstones on any collection at or after the base of its dirty set gives the snapshotted collection |
| `CrashSafety.ManifestMeaning` | src/persistence.rs:765-822 | in every reachable state the manifest is readable and its full segment with its deltas loads to the historical collection at its sequence |
| `CrashSafety.ManifestNeverRegresses` | src/persistence.rs:498-506 | no step, stale publications included, lowers the manifest's sequence |
| `CrashSafety.SearchSeesEveryLivePoint` | src/persistence.rs:317-352 | every live point outside the dirty set is accepted from some graph, every accepted graph hit is the current version, and outside the dirty set the metadata index agrees with the live points |
| `CrashSafety.ReplaceIsInvisible` | src/collection.rs:382-392 | swapping in mapped copies by matching sequence numbers does not change the collection |
| `PublishSafety.PublishIsSafeIff` | src/persistence.rs:498-535 | both crash points of a publication restore the history if and only if the flush is newer than the manifest and the chain has room, or it compacts to a newer sequence or a chain of one |
| `PublishSafety.RunsRestoreIff` | src/concurrent.rs:73-77 | from any sound state, with any number of flushes in flight and any interleaving of writes, errors, crashes and reopenings, every state and both boundaries of every publication restore the history if and only if each publication meets that condition when it starts |
| `PublishSafety.SharedRunsRestoreIff` | src/concurrent.rs:73-77 | the same for every run from an empty directory |
| `PublishSafety.UnsafePublishLoses` | src/persistence.rs:498-535 | otherwise a full segment makes the directory unopenable after the rename, a delta after the manifest swap |
| `PublishSafety.IdleFlushDestroys` | src/concurrent.rs:73-77 | from any quiet state an unguarded delta flush with nothing new makes the directory unopenable |
| `PublishSafety.FlushTwiceDestroys` | src/concurrent.rs:73-77 | one upsert and two unguarded flushes from an empty directory lose an acknowledged collection |
| `FlushGuard.OwnerRunsRestoreIff` | src/persistence.rs:423-572 | from any sound state, a run of a single owner with crashes, reopenings and I/O errors at any point restores its history in every state and at both boundaries of every publication, if and only if each publication starts with no manifest, with an older manifest that has room or is replaced, or with a manifest of one segment that is replaced |
| `FlushGuard.RetryAfterErrorDestroys` | src/persistence.rs:423-542 | from every sound state whose next guarded flush is a safe delta, an error between the manifest swap and the clearing of the dirty set leaves a sound collection whose guard passes and whose next flush makes the directory unopenable |
| `FlushGuard.GuardedRunsRestoreIff` | src/persistence.rs:418-430 | the same if and only if for every run of an owner from an empty directory |
| `FlushGuard.SteadyPublishesSafely` | src/persistence.rs:423-434 | while no publication failed after its swap, the guard alone makes every publication within the chain bound safe |
| `FlushGuard.SteadyRunsRestore` | src/persistence.rs:418-430 | so an owner whose publications fail only before the swap, and whose deltas find room, loses nothing at any crash point |
| `FlushGuard.DeletesOutgrowTheManifest` | src/persistence.rs:432-434 | from any quiet collection guarded delete-only flushes reach a state whose next flush leaves an unreadable manifest |
| `PublishRuns.PublishedIsRun` | src/persistence.rs:498-572 | an uninterrupted publication is a legal run of rename, swap, truncate, commit and retire steps |
| `PublishRuns.PublishingIsInvisible` | src/persistence.rs:535-562 | publishing keeps the invariant and does not change the visible collection |
| `Backups.CopyCollectionDirectory` | src/persistence.rs:640-682 | the copying loop yields the log, the manifest and exactly the named segments, or fails on an unreadable manifest or a missing segment |
| `Backups.CopyOpensAlike` | src/persistence.rs:640-682 | a copy opens exactly as the original does, and where no copy can be made the original does not open |
| `Backups.BackupIsCurrent` | src/concurrent.rs:109-112 | a copy made between the operations of any careful run can be made, restores the history as the original does, and opens to the live collection itself if the log is stable |
| `Backups.BackupWorksIff` | src/concurrent.rs:107-113 | the whole call, its unguarded flush included, copies the live collection if and only if that flush compacts, is the first, or adds something newer to a chain with room; otherwise it fails and the original no longer opens |
| `Backups.SecondBackupWorksIff` | src/concurrent.rs:107-113 | after one backup a second with no write in between works if and only if its flush compacts, and otherwise destroys the original |
| `Collections.StableIff` | src/persistence.rs:1270-1273 | applying a prepared batch after preparing it again has the effect of the batch if and only if every point the batch does not overwrite itself is a fixed point of preparation |
| `ExactReplays.FrameReplaysIff` | src/persistence.rs:1223-1292 | an acknowledged frame replays to what was acknowledged if and only if its batch is stable |
| `ExactReplays.UnstableWriteDrifts` | src/persistence.rs:1270-1273 | behind a stable log, a batch that is not stable makes every reopening before the next flush fail or give another collection, and fail exactly when the second preparation refuses it |
| `ExactReplays.ExactRunsIff` | src/persistence.rs:418-597 | over every run of steps the code can take, each reopening, also at both boundaries of every publication, gives exactly what was acknowledged if and only if every written batch is stable and every publication safe |
| `ExactReplays.FreshRunsAreExactIff` | src/persistence.rs:418-597 | the same for every run from an empty directory |
| `ExactReplays.SecondPreparationLoses` | src/metric.rs:13-35 | one acknowledged upsert of a vector that a second preparation changes or refuses: the reopened collection holds another vector or cannot be opened |
| `FailedRollbacks.StrandedFrameWins` | src/persistence.rs:588-594 | when a failed append could not be cut off, recovery after the next acknowledged batch gives what it would give had the failed batch been acknowledged and the other never been written |
| `FailedRollbacks.StrandedIsHarmlessIff` | src/persistence.rs:588-594 | the acknowledged batch then survives if and only if replaying the stranded one has its effect |
| `FailedRollbacks.FlushingClears` | src/persistence.rs:537-542 | an uninterrupted safe flush before the next batch removes the stranded frame without a trace |
| `Collections.PutAllOn` | src/collection.rs:335-340 | a batch stamps exactly the IDs it touches and leaves all others alone |
| `Collections.VersionOrigin` | src/collection.rs:335-347 | a live version carries the number of the batch that wrote it and has not changed since |
| `Collections.VersionsAreUnique` | src/collection.rs:382-392 | an ID and a sequence number determine the stored version |
| `Collections.ApplyMeans` | src/collection.rs:335-347 | one batch: a deleted ID is gone, an upserted one holds the last point of that ID in the batch, every other one is as before |
| `Collections.AtMeans` | src/collection.rs:335-347 | after any history an ID is live if and only if the last batch to name it was an upsert, and then it holds the last point of that ID in that batch with the number of the batch |
| `Collections.DeletedStaysGone` | src/collection.rs:342-347 | an ID deleted by a batch and not upserted since is in no later collection |
| `Collections.PrepareBatchDecides` | src/collection.rs:305-333 | a batch is prepared if and only if no point has a defect, and refused with the defect of the first that has one |
| `Collections.UpsertMeans` | src/collection.rs:305-340 | preparing and applying a request stores of each ID its last point, with its metadata and its prepared vector |
| `CollectionStore.Collection.PrepareUpsert` | src/collection.rs:305-333 | an empty batch is refused; otherwise the error of the first defective point (wrong dimension, then empty ID, then a vector that cannot be prepared), or every point with its ID and metadata and its vector prepared |
| `CollectionStore.Collection.ApplyPreparedUpsert` | src/collection.rs:335-340 | each ID of the batch holds the vector and metadata of its last point, stamped with the new sequence; every other ID is as before |
| `CollectionStore.Collection.ApplyDeleteAt` | src/collection.rs:342-347 | an ID is live afterwards if and only if it was and is not listed, and every kept version is unchanged |
| `CollectionStore.Collection.ReplacePersistedPoints` | src/collection.rs:382-392 | of each live ID the mapped version if it has the same sequence number, otherwise the version it had; no ID comes or goes |
| `CollectionStore.Collection.SearchIds` | src/collection.rs:394-418 | the listed live points that pass the filter, best k: scores do not increase, equal scores are in ascending ID order, each hit shows the score, metadata and sequence of its point, and no point left out outranks one listed; or the error of k = 0, of a wrong dimension or of a query that cannot be prepared, in this order |
| `CollectionStore.Collection.Search` | src/collection.rs:276-299 | the same over all live points |
| `CollectionStore.TopKIsBest` | src/collection.rs:420-450 | a ranked list of the best k hits is, in terms of stored points and scores alone, a list of min(k, eligible) different points by descending score and ascending ID that no eligible point left out outranks |
| `Ranking.LexByFirstDifference` | src/collection.rs:502-509 | one ID precedes another if and only if at the first place where they differ it ends or has the smaller character |
| `PersistentCollections.LoadCurrentSegments` | src/persistence.rs:765-822 | the loading loop accepts exactly the chains that LoadDecides describes, with the points and graphs it describes, and refuses all others as corrupt |
| `PersistentCollections.ReplayFrames` | src/persistence.rs:1125-1169 | the replay loop succeeds exactly when ReplayDecides says, with that sequence and those dirty IDs, and gives the fold over the frames |
| `PersistentCollections.PersistentCollection.Open` | src/persistence.rs:765-822 | opening succeeds exactly when manifest, chain and log pass, as one reopening step, with a metadata index exactly when there is a manifest and the IDs of the frames beyond it dirty |
| `Reopening.LoadDecides` | src/persistence.rs:765-822 | a chain loads if and only if its first segment is full with no point newer than itself, the others are deltas of ascending sequences and the last has the sequence of the manifest; it holds of each ID the version of the last segment that holds it unless that or a later one buries it, and one graph for each segment with points |
| `Reopening.ReplayDecides` | src/persistence.rs:1223-1245 | a log replays if and only if no frame leaves a gap above the highest number before it and every new frame can be prepared; the sequence ends at the highest number and exactly the IDs of new frames are dirty |
| `Reopening.RecoverDecides` | src/persistence.rs:708-822 | a directory opens if and only if its manifest names one to nine different segments, they chain and the log replays on top of them |
| `PersistentCollections.PersistentCollection.UpsertBatch` | src/persistence.rs:219-232 | success exactly for acceptable requests with a free sequence number, otherwise the overflow, the first defect or the encoder as error and no change; on success every ID holds its last point, prepared and stamped, all others are as before, the IDs become dirty and the log grows by the one frame |
| `PersistentCollections.PersistentCollection.DeleteBatch` | src/persistence.rs:234-251 | the same for deletes: exactly the listed IDs are gone and dirty, every kept version is unchanged, and the log grows by the one frame |
| `PersistentCollections.PersistentCollection.FlushSnapshot` | src/persistence.rs:432-462 | a full snapshot if and only if there is no graph or there are at least eight, otherwise exactly the live dirty points and as tombstones the dirty IDs that are not live |
| `PersistentCollections.PersistentCollection.BuildFlush` | src/persistence.rs:464-496 | the off-lock half indexes exactly the snapshotted metadata |
| `PersistentCollections.PersistentCollection.PublishFlush` | src/persistence.rs:498-572 | a flush older than the manifest is dropped and reports the manifest's sequence; otherwise the file is in place, the manifest names it alone or behind the former names, a full one leaves no other file of the former chain, its graph joins or replaces the others, and log and dirty set are emptied if and only if nothing was written since the snapshot |
| `PersistentCollections.PersistentCollection.FlushNow` | src/persistence.rs:418-430 | nothing happens when nothing is dirty and a graph exists; otherwise snapshot, build and publish |
| `PersistentCollections.PersistentCollection.SearchFiltered` | src/persistence.rs:281-295 | in every state that satisfies the invariant the filtered search is the exact answer over all live points, in the terms of Search, or the query's error |
| `PersistentCollections.PersistentCollection.SearchGraphs` | src/persistence.rs:317-352 | whatever the graphs find, the result is the best k of the accepted graph hits and the dirty points, rescored; when no graph misses a better point, or there is none, it is the exact top k; a bad query gives its error |
| `PersistentCollections.PersistentCollection.SearchWithEf` | src/persistence.rs:262-352 | an error exactly for ef below k or a bad query; with a filter the exact top k, without one the graphs' answer |
| `GraphAnswers.SmallGraphFindsConnected` | src/persistence.rs:324-336 | a graph of at most 4k nodes yields exactly the nodes that its base layer connects to the node where the descent ends |
| `GraphAnswers.SmallGraphsAreExact` | src/persistence.rs:317-352 | with such graphs, if they connect every point the search would accept, the unfiltered answer is the exact top k |
| `GraphAnswers.SmallBuildsAreExact` | src/persistence.rs:317-352 | over graphs built by the index from at most min(ef, 2m) points, and at most 4k, the unfiltered answer is the exact top k, with no hypothesis on what the graphs connect |
| `FilteredSearch.ExactPlan` | src/persistence.rs:281-295 | merging the top k of clean candidates with the top k of dirty IDs equals the top k of all matching points |
| `Ranking.TopKIsUnique` | src/collection.rs:502-509 | the ranked list of the best k hits is unique |
| `Ranking.TopKOfCandidates` | src/persistence.rs:824-834 | leaving out hits that k candidates beat does not change the best k |
| `Ranking.MergeTopK` | src/persistence.rs:824-834 | the top k of two top-k lists is the top k of the union |
| `Ranking.HalfMergeTopK` | src/persistence.rs:824-834 | of one part of the hits its best k may stand for the whole part |
| `TopK.SelectTop` | src/collection.rs:420-450 | the bounded heap yields the ranked best k of all hits |
| `TopK.MergeHits` | src/persistence.rs:824-834 | sorting, dropping repeated IDs and cutting gives the best k of the different hits |
| `MetadataIndexes.Build` | src/metadata_index.rs:43-75 | postings contain exactly the IDs with a field, with an equal value and with a numeric value |
| `MetadataIndexes.Equality` | src/metadata_index.rs:77-112 | equality postings give exactly the points the evaluator matches, with NaN matching nothing and the two zeros matching each other |
| `MetadataIndexes.InRangeIds` | src/metadata_index.rs:114-134 | numeric postings in total order give exactly the points inside the bounds |
| `MetadataIndexes.Candidates` | src/metadata_index.rs:77-112 | for every filter the candidate set is exactly the set of matching IDs |
| `Filters.RangeMeans` | src/filter.rs:35-41 | a range accepts exactly the stored integers and finite floats between its bounds, the lower one included; a NaN bound accepts nothing |
| `Filters.FilterMeans` | src/filter.rs:31-46 | equality compares kind and content with the two zeros alike and a NaN unlike everything; And is all, Or is any, Not is the complement |
| `Checksums.UpdateLoop` | src/persistence.rs:1512-1524 | the bit loop computes the CRC-32C register of section 12.1 of RFC 3720 |
| `Checksums.Crc32cWriter.Write` | src/persistence.rs:1361-1396 | after any chunks the writer holds the register of their concatenation |
| `Checksums.Crc32cWriter.Finish` | src/persistence.rs:1361-1396 | the chunked checksum equals the one-shot checksum |
| `Checksums.CrcOfDigits` | src/persistence.rs:1690-1690 | the checksum of the nine ASCII digits is the published check value, which pins polynomial, reflection and inversion |
| `Checksums.BurstIsDetected` | src/persistence.rs:1159-1164 | changing up to four consecutive bytes of any payload changes its stored checksum |
| `Bytes.ReadLoop` | src/persistence.rs:1398-1493 | a decoding loop with a moving position reads its items in order or stops at the first error |
| `Bytes.ReadManyHolds` | src/persistence.rs:1398-1493 | a list written anywhere is read back and left right behind its end |
| `Framing.RecoverFile` | src/persistence.rs:1125-1169 | the recovery loop applies each complete frame, cuts a torn tail and refuses anything else |
| `Framing.PrefixRecovers` | src/persistence.rs:1125-1169 | every byte prefix of a log recovers to its complete frames and is cut right behind them |
| `Framing.RecoverApplies` | src/persistence.rs:1125-1169 | a file whose frames are all readable is recovered by applying their payloads in order, up to the first one that is rejected |
| `Framing.RecoverRefuses` | src/persistence.rs:1125-1169 | a file with an unreadable frame is never recovered, whatever the frames before it do |
| `Framing.CutFileDecides` | src/raft_state_machine.rs:754-804 | recovery of a file cut anywhere inside a frame applies the complete records before it and truncates behind them, unless one is refused or oversized, or an oversized length of the torn frame can still be read |
| `Framing.CorruptionFailsClosed` | src/persistence.rs:1159-1164 | a frame whose payload changed within four bytes stops recovery with an error, whatever surrounds it |
| `Framing.LengthDamageCutsIff` | src/persistence.rs:1148-1158 | whatever follows a damaged length field is cut off without an error if and only if the length is within the limit and more than the rest of the file |
| `Framing.RaisedLengthLoses` | src/persistence.rs:1148-1158 | raising the length of a frame to the limit loses that frame and all acknowledged frames behind it |
| `WalCodec.PayloadDecodesIff` | src/persistence.rs:1192-1221 | an encoded upsert or delete decodes to the same sequence number and batch if and only if the batch is within the reader's limits |
| `WalCodec.BatchDecides` | src/persistence.rs:1294-1303 | wherever a batch was written the reader gives it back, or refuses it, by its counts, text lengths and non-finite components alone |
| `WalCodec.NaNIsRefused` | src/persistence.rs:1305-1325 | the encoder refuses a batch with a NaN in its metadata |
| `WalCodec.PayloadReplaysIff` | src/persistence.rs:1223-1292 | applying the bytes of a logged batch is replaying it, skipped and out-of-order records included, except that the next batch is refused when it is over the limits |
| `WalCodec.LongDeleteIsLost` | src/persistence.rs:1445-1451 | a delete of 1,000,001 IDs passes every check of the writer and cannot be replayed |
| `WalCodec.StrayBytesAreRefused` | src/persistence.rs:1223-1292 | the next record is refused when its operation byte is neither 1 nor 2, or when bytes follow its batch |
| `FileLayouts.FrameBytes` | src/persistence.rs:574-587 | one frame of the log, of the Raft journal and of the state journal byte by byte, checksum included, and the three size limits |
| `FileLayouts.PayloadLayout` | src/persistence.rs:1192-1325 | every payload flat: operation 1 or 2, sequence in eight bytes, counts in four, IDs, components, keys and tagged values |
| `WalCodec.ValueDecides` | src/persistence.rs:1305-1327 | every storable metadata value survives its tagged encoding, except text over the limit, which is refused |
| `LogRecovery.CutLogReplaysIff` | src/persistence.rs:1125-1169 | recovery of a log cut anywhere inside frame k equals the replay of the first k frames if and only if these are within the limits and no oversized length is left; otherwise it fails |
| `LogRecovery.AcknowledgedBatchReplaysIff` | src/persistence.rs:574-576 | a batch that a collection acknowledges is replayed from its bytes to what was acknowledged if and only if it is within the limits and stable |
| `LogRecovery.WholeLogReplaysIff` | src/persistence.rs:1125-1169 | recovery of the whole file equals the replay of all frames if and only if they are within the limits; otherwise it fails |
| `SegmentCodec.SegmentRoundTripIff` | src/persistence.rs:909-1061 | a written segment decodes to the same points, tombstones and graph if and only if its counts and texts are within the reader's limits, its components are finite and its graph is readable; otherwise it is refused |
| `SegmentCodec.PointIsReached` | src/persistence.rs:950-1010 | having read k points from offset 27 the decoder stands where point k was written |
| `SegmentCodec.VectorsAreAligned` | src/persistence.rs:956-985 | the offset at which the decoder reads the vector of point k is divisible by four, and there it finds that vector |
| `SegmentCodec.AlignedHolds` | src/persistence.rs:866-872 | the padding written before a vector satisfies the alignment check of the mapped reader |
| `SegmentCodec.SegmentDamageIsRefused` | src/persistence.rs:922-930 | a segment changed within four consecutive bytes is refused |
| `FileLayouts.SegmentLayout` | src/persistence.rs:848-898 | every segment flat: magic, version, metric, dimension, sequence, kind, points with their padding, tombstones, the graph behind its length, checksum |
| `DiskFiles.ListedSegment` | src/persistence.rs:765-822 | a segment file that lists a segment's points in any order reads back as that segment |
| `DiskFiles.OpenRestoresIff` | src/persistence.rs:765-822 | the bytes of a sound directory, with any piece of a frame left behind the log by a crash and anything in files that the manifest does not name, open if and only if every frame, and every batch that only the log holds, is within the limits and can be prepared again; they open to what the engine recovers, the whole history |
| `DiskFiles.UndecodableFileIsHarmlessIff` | src/persistence.rs:506-524 | bytes that do not decode, put under any name into a directory that opens, leave it as it was if and only if the manifest does not name them |
| `DiskFiles.FailedPublishIsHarmless` | src/persistence.rs:506-524 | a publication newer than the manifest that ends because its segment cannot be decoded leaves the directory as it was |
| `GraphCodec.GraphRoundTripIff` | src/hnsw.rs:607-854 | decoding an encoded graph gives the same header, IDs, codes and links if and only if it has at most 100,000,000 nodes, finite components and positive scales; otherwise it is refused |
| `Quantization.FindMaximum` | src/hnsw.rs:116-118 | the loop computes the largest magnitude |
| `Quantization.QuotientIsZeroIff` | src/hnsw.rs:119-119 | dividing by 127 and rounding to single precision underflows to zero exactly below 64 units of 2^-149 |
| `Quantization.QuantizedReadsIff` | src/hnsw.rs:114-131 | the reader accepts the quantized form of a vector if and only if the vector is zero or has a component of at least 64 units |
| `Quantization.TinyVectorIsRefused` | src/hnsw.rs:745-753 | the smallest positive number beside a zero: a finite vector whose quantized form is written and refused |
| `GraphCodec.EncodedLength` | src/hnsw.rs:574-605 | the predicted length is the number of bytes written |
| `FileLayouts.GraphLayout` | src/hnsw.rs:607-665 | every graph flat: header fields in their order and widths, then each node's ID, vector or scale and codes, and links by layer |
| `GraphFiles.BuiltGraphIsWritable` | src/hnsw.rs:607-665 | every graph the index builds and flattens can be written |
| `GraphFiles.BuiltGraphRoundTripsIff` | src/hnsw.rs:667-854 | and the decoder returns it unchanged if and only if the node limit and every stored vector pass; otherwise it is refused |
| `GraphFiles.QuantizedGraphRoundTripsIff` | src/persistence.rs:464-496 | over quantized vectors that is: at most 100,000,000 points, each vector zero or not tiny |
| `CompactGraphs.FinalizeCompactGraph` | src/hnsw.rs:945-987 | flattening fails exactly when 32-bit positions do not suffice; otherwise every range holds its list |
| `CompactGraphs.FlatIsNested` | src/hnsw.rs:1178-1192 | neighbours read from the flattened form are the nested adjacency lists |
| `GraphSearch.FoundIsTop` | src/hnsw.rs:1031-1077 | only reachable nodes are visited, the best min(ef, visited) of them are found, and with room for all reachable nodes all are found |
| `GraphSearch.SearchLayer` | src/hnsw.rs:1031-1138 | the two-heap loop ends and returns, sorted, what the search function finds, whatever the workspace held before |
| `BestFirst.SearchIsBestFirst` | src/hnsw.rs:1031-1077 | the search with a frontier and a bounded result heap visits exactly the nodes that are visited by expanding the best unexpanded node until ef visited ones rank before it, and finds the best ef of them |
| `HnswScores.SearchKeepsBest` | src/hnsw.rs:1031-1077 | no visited node that is left out scores higher than one that is found, equal scores going to the lower index, and every neighbour of a found node was visited |
| `GraphSearch.GreedyIsLocalBest` | src/hnsw.rs:1009-1029 | greedy descent ends in a node that ranks before all its neighbours and never leaves its layer |
| `GraphSearch.GreedyClosest` | src/hnsw.rs:1009-1029 | the descent loop ends and computes that node |
| `HnswScores.DescentClimbs` | src/hnsw.rs:1009-1029 | the descent climbs on every layer above its target to the neighbour with the highest score, the smaller ID on a tie, until no neighbour leads |
| `GraphSearch.BuildWorkspace.Begin` | src/hnsw.rs:1326-1334 | marks of earlier searches are forgotten, also when the 32-bit generation wraps around |
| `GraphSearch.BuildWorkspace.Visit` | src/hnsw.rs:1336-1343 | a node is new exactly when this search has not visited it, and is visited afterwards |
| `HnswGraphs.SelectNeighbors` | src/hnsw.rs:1143-1165 | the loop computes that choice |
| `HnswGraphs.SelectIs` | src/hnsw.rs:1143-1165 | exactly min(limit, candidates) different candidates are chosen, the closest first |
| `HnswGraphs.SelectIsDiverse` | src/hnsw.rs:1143-1165 | the choice starts with mutually diverse candidates, and short of the limit that diverse set is maximal |
| `HnswGraphs.SelectTakesFirst` | src/hnsw.rs:1143-1165 | one scan with a reserve takes, each time, the first candidate that is diverse from all taken, and once there is none the first ones left |
| `HnswGraphs.PruneIs` | src/hnsw.rs:989-1007 | pruning keeps a subset of valid links within the limit |
| `HnswLinks.PruneMeans` | src/hnsw.rs:989-1007 | a list within its limit (2m on the base layer, m above) stays; a longer one keeps exactly the limit, chosen as above from its members by descending score |
| `HnswInsertion.PlanIsOk` | src/hnsw.rs:871-899 | a plan links the new point on each of its layers to different nodes of the frozen graph that live there, within the limit |
| `HnswScores.PlanMeans` | src/hnsw.rs:871-899 | a plan starts where the descent ends and on each layer chooses, diverse ones first, at most the limit among the best ef nodes visited from the first choice of the layer above; layers above the graph stay empty |
| `HnswInsertion.InsertKeeps` | src/hnsw.rs:901-935 | applying a plan made for an earlier state of the graph keeps every link valid and the entry point at the highest level |
| `HnswLinks.InsertMeans` | src/hnsw.rs:901-935 | an insertion in terms of lists: the new node's are the plan, a planned neighbour with room has the new node appended, a full one keeps exactly its limit out of the longer list, all other lists stay, and the entry point moves only to a higher level |
| `HnswBuild.BuiltIsOk` | src/hnsw.rs:422-476 | in the finished graph every link targets a different existing node of sufficient level, degrees are within limits, and the entry point has the maximum level |
| `HnswBuild.InsertStaysLoose` | src/hnsw.rs:917-927 | an insertion keeps every list below twice its limit |
| `HnswBuild.GrownIsLoose` | src/hnsw.rs:422-466 | from the empty graph through the serial seed and all batches to the graph handed to compaction, every list stays below twice its limit |
| `HnswLinks.BuildGrows` | src/hnsw.rs:422-466 | the build inserts the points in order, one of the first 4096 planned against the graph of all points before it, a later one against the graph of all points before its batch of 512 |
| `HnswLinks.SmallBuildIsLinked` | src/hnsw.rs:422-476 | with at most min(ef, 2m) points two nodes are linked both ways on the base layer if and only if the earlier one was in the graph that the later one was planned against |
| `HnswIndexes.HnswIndex.PlanInsert` | src/hnsw.rs:871-899 | the planning loops compute the plan that PlanMeans describes |
| `HnswIndexes.HnswIndex.ApplyInsertion` | src/hnsw.rs:901-935 | updating lists link by link has exactly the effect that InsertMeans describes |
| `HnswIndexes.HnswIndex.PlanBatch` | src/hnsw.rs:449-466 | cut into chunks for any number of workers, every slot of the batch is planned, against the same frozen graph |
| `HnswIndexes.HnswIndex.CompactNeighbors` | src/hnsw.rs:937-943 | every list is pruned to its limit as PruneMeans describes, and nothing else changes |
| `HnswIndexes.HnswIndex.Search` | src/hnsw.rs:532-565 | min(k, visited) different nodes by descending score and ascending ID, none of which a visited node that was left out outscores, visited from where the descent ends; empty for an empty graph, an error for k = 0 or ef below k |
| `HnswIndexes.BuildPreparedPoints` | src/hnsw.rs:422-476 | the built graph is a function of the points, the same for every number of workers and any workspace contents; with at most min(ef, 2m) points, and at most 4096, every two nodes are linked both ways on the base layer |
| `Int8Dot.DotPortable` | src/hnsw.rs:1251-1270 | four accumulators and a tail add up to the dot product |
| `Int8Dot.DotMeans` | src/hnsw.rs:1251-1270 | the dot product adds up the products of components at the same place |
| `Int8Dot.DotLanes` | src/hnsw.rs:1272-1298 | the sixteen-wide form computes eight wrapping lanes plus the tail |
| `Int8Dot.LanesAreExactIff` | src/hnsw.rs:1240-1249 | the lane form is exact for all inputs of a length if and only if that length has fewer than 65,536 steps, also for the code -128 |
| `Int8Dot.QuantizedIntegerDot` | src/hnsw.rs:1240-1249 | under the length guard either form gives the dot product |
| `RaftLog.ReplayIsIdempotent` | src/raft_storage.rs:70-89 | replaying any journal over the state it produced changes nothing |
| `RaftLog.JournalMeans` | src/raft_storage.rs:70-89 | after any journal a log position holds what the last record that decides about it left there, or what it held before |
| `RaftLog.ScalarsMean` | src/raft_storage.rs:70-89 | vote, committed and purged position are those of the last record of their kind |
| `RaftLog.RecoversAcknowledged` | src/raft_storage.rs:229-253 | after any run with crashes between journal append, checkpoint and truncation, reopening gives the acknowledged records and at most one more |
| `RaftLog.StrandedRecordIsHarmlessIff` | src/raft_storage.rs:289-293 | when a failed append could not be cut off, reopening after the next record gives the running state if and only if that record hides what the failed one did |
| `RaftLog.StrandedVoteReturns` | src/raft_storage.rs:289-293 | a vote reported as failed comes back after a crash |
| `RaftLog.DurableRaftLog.ApplyInPlace` | src/raft_storage.rs:70-89 | the part of the state that a record is about changes as it says and nothing else does: an append leaves its last entry at each position it names, a truncation clears positions from its own on, a purge those up to its own |
| `RaftLog.DurableRaftLog.WriteRecord` | src/raft_storage.rs:229-253 | a record is applied and appended to the journal; a purge instead leaves a checkpoint of the state and an empty journal |
| `ShardMachine.ReplayIsApply` | src/raft_state_machine.rs:591-632 | replaying the record of an entry never fails and equals applying the entry |
| `ShardMachine.TableMeaning` | src/raft_state_machine.rs:498-563 | the table knows exactly the requests of the log so far, with the response of the first occurrence |
| `ShardMachine.RetryGetsFirstResponse` | src/raft_state_machine.rs:498-563 | every retry gets the first response, rejections included |
| `ShardMachine.RetryChangesNothing` | src/raft_state_machine.rs:604-630 | a retry moves the applied position and nothing else |
| `ShardMachine.ExactlyOnce` | src/raft_state_machine.rs:498-563 | the collection is the replay of the accepted requests at their first occurrence, so its sequence is their number |
| `ShardMachine.EntryMeans` | src/raft_state_machine.rs:498-563 | a request that the log holds for the first time is rejected with the overflow or with what is wrong with it, or gets the next number and changes the collection by its points or IDs; every other entry leaves the collection alone |
| `ShardMachine.MembershipMeans` | src/raft_state_machine.rs:600-606 | the membership is that of the last change in the log, with its position |
| `ShardMachine.SequenceDeterminesCollection` | src/raft_state_machine.rs:153-186 | equal collection sequences mean equal collections, which makes the rebuild's sequence check sufficient |
| `ShardReplicas.ReplicaIsFold` | src/raft_state_machine.rs:87-151 | for every log and every schedule of applies, builds, installs, rebuilds, crashes and reopenings in which an install takes over only while its own file is current, the state is the fold of the log, and reopening gives the fold of everything durable |
| `ShardReplicas.InstallsLastIff` | src/raft_state_machine.rs:385-436 | over every run of steps the code can take, reopening restores what each install put in memory if and only if each takes over while its own snapshot file is the current one |
| `ShardReplicas.ReplicasAgree` | src/raft_state_machine.rs:353-373 | replicas with the same last applied entry hold the same collection, table and membership |
| `ShardReplicas.IndexesAgree` | src/raft_state_machine.rs:256-285 | under every interleaving the index and the metadata index agree with the collection outside the dirty IDs |
| `ShardReplicas.InstallIsDurableIff` | src/raft_state_machine.rs:385-436 | an installed state survives a crash if and only if its snapshot file is still the current one |
| `ShardReplicas.BuildInsideInstallLoses` | src/raft_state_machine.rs:455-495 | a build between the halves of an install loses every entry |
| `ShardReplicas.StrandedRecordIsHarmless` | src/raft_state_machine.rs:746-750 | a record whose failed append could not be cut off is decided and written again, and recovery skips the second copy |
| `ShardSearch.Widen` | src/raft_state_machine.rs:214-285 | the widening loop ends, reports no missing point, doubles the width until a round suffices or the whole graph was asked for, and stops at the first such round |
| `ShardSearch.SearchFiltered` | src/raft_state_machine.rs:198-306 | whatever the graph yields, exactly min(k, matching) different matching live hits; with at most 256 clean candidates, or at most 16k, or fewer than a quarter of the nodes, the exact answer; otherwise the best of what the first sufficient round and the dirty points yield, or the exact top k if no round suffices; an error exactly for ef below k or a bad query |
| `ShardSearch.SearchUnfiltered` | src/raft_state_machine.rs:236-306 | without a filter the best k of the clean hits of one round of width min(4k + dirty, nodes) and of the dirty points, which is the exact top k if the graph returns every indexed ID; an error exactly for ef below k or a bad query |
| `ShardNodes.OpenShard` | src/raft_state_machine.rs:87-151 | snapshot plus journal replay, with an index of the snapshot's points |
| `ShardNodes.DurableShard.ReplayInPlace` | src/raft_state_machine.rs:591-632 | the in-place replay of a record is its meaning |
| `ShardNodes.DurableShard.ApplyOne` | src/raft_state_machine.rs:353-373 | one entry is journaled, applied and answered as the log prescribes; the IDs it names become dirty exactly when it is a first request that is applied |
| `ShardNodes.DurableShard.ApplyEntries` | src/raft_state_machine.rs:353-373 | a batch of entries leads to the fold of the log and to the log's responses |
| `ShardNodes.DurableShard.BuildSnapshotFile` | src/raft_state_machine.rs:455-495 | the file holds the state, the index its points, no ID is dirty and the journal stays |
| `ShardNodes.DurableShard.InstallUnderLock` | src/raft_state_machine.rs:385-436 | the memory half of an install replaces state, table and index and empties the journal |
| `ShardNodes.DurableShard.CopyForRebuild` | src/raft_state_machine.rs:153-170 | a rebuild starts exactly when at least 256 IDs are dirty and there is no index or at least a fifth of the points is |
| `ShardNodes.DurableShard.PublishRebuild` | src/raft_state_machine.rs:171-186 | a rebuilt index replaces the old one and clears the dirty set if the collection sequence is unchanged, and otherwise changes nothing |
| `ShardNodes.DurableShard.RefreshIndex` | src/raft_state_machine.rs:153-186 | a refresh that nothing interrupts leaves an index of exactly the live points whenever the policy asks for one, and changes nothing else |
| `ShardNodes.DurableShard.SearchWithFilter` | src/raft_state_machine.rs:198-306 | in every reachable state, and so after any refresh, the answer of SearchFiltered on the live points, and the exact answer while there is no index |
| `ShardNodes.DurableShard.SearchWithoutFilter` | src/raft_state_machine.rs:198-306 | the same without a filter |
| `Routing.HashId` | src/sharding.rs:209-216 | the hash loop computes the 64-bit FNV-1a hash of the bytes |
| `Routing.HashOfHello` | src/sharding.rs:264-264 | the hash of "hello" is the FNV-1a value the routing contract fixes |
| `Routing.HashRouteIsTotal` | src/sharding.rs:204-207 | every ID is routed to one of the shards |
| `Routing.ShardsOfIds` | src/sharding.rs:262-268 | the shard of "hello" among four and five shards and of "point-42" among seven |
| `Sharding.CutPoints` | src/sharding.rs:79-82 | each point is filed under its shard, in request order |
| `ShardedRequests.PointsForPicks` | src/sharding.rs:79-82 | the part of a shard lists, in request order, exactly the points whose ID is routed to it |
| `ShardedRequests.IdsForPicks` | src/sharding.rs:108-111 | the same for the IDs of a delete |
| `ShardedRequests.RequestMeans` | src/sharding.rs:73-125 | every shard before the first that refuses holds of each of its own IDs the last point of the request for it, prepared, or nothing if it was deleted; all its other IDs are as before, and its sequence counts on if and only if the request has something for it; the other shards are as they were |
| `Sharding.PartOfPrepared` | src/sharding.rs:199-202 | after whole-request validation a shard's own preparation of its part cannot fail and gives the part of the prepared request, so only its encoder or its sequence number can refuse |
| `Sharding.RequestIsAtomicIff` | src/sharding.rs:73-125 | a validated request leaves the shards as if all had committed, or as they were, if and only if every shard that gets a part can encode it and has a sequence number left, or no shard before a refusing one gets a part |
| `Sharding.NaNSplitsRequest` | src/sharding.rs:73-97 | two valid points on two shards, the second with a NaN in its metadata: the first is committed, the second refused |
| `Sharding.OutcomeIsCommit` | src/sharding.rs:73-125 | what a refused request did change is the whole commit of the points below the refusing shard |
| `Sharding.RunRefines` | src/sharding.rs:73-125 | over any requests, refused ones included, the shards together hold the IDs, vectors and metadata of one collection that got from each request the part below its refusing shard, the last duplicate winning |
| `Sharding.AtomicRunIsWhole` | src/sharding.rs:73-125 | while every request is atomic, the shards hold exactly the requests that reported success |
| `ShardedCollections.ShardedCollection.Upsert` | src/sharding.rs:73-97 | an invalid request changes nothing; a valid one is logged and acknowledged by exactly the shards before the first that refuses its part, which then hold what RequestMeans says; success exactly when none refuses, with one report of shard, new sequence and number of points for each shard that got any, in order; otherwise the error of the refusing shard |
| `ShardedCollections.ShardedCollection.Delete` | src/sharding.rs:99-125 | the same for deletes |
| `ShardedCollections.ShardReopens` | src/sharding.rs:45-51 | a shard that crashes restores every part it acknowledged, and holds it unchanged if its log is stable |
| `ShardedSearch.SearchShards` | src/sharding.rs:129-167 | merging what the shards' own searches return gives at most k live hits in order, and the exact top k of all shards with a filter or when no graph misses a better point; errors for k = 0, a wrong dimension, ef below k and an unpreparable query, in this order |
| `ShardedSearch.MergedIsBest` | src/sharding.rs:129-167 | with a filter the merged list is the best k of the points of all shards, in the terms of Search |
| `ShardedCollections.ShardedCollection.Search` | src/sharding.rs:129-167 | the same for the open shards in every state that requests can reach |
| `ShardedSearch.ShardedSearchIsExact` | src/sharding.rs:129-167 | after any requests, refused ones included, a merged answer of complete lists equals the exact answer of the one collection that got the same parts, up to sequence numbers |

## Left out

- `src/server.rs`, `src/local.rs`, `src/tls.rs`, `src/raft_node.rs`, `src/distributed.rs`, `crates/` and `src/bin/`: transport, clients and benchmarks.
- `src/cuda.rs`: foreign GPU calls; its top-k selection is that of `Collection::top_k`.
- `src/database.rs`: catalogue lookup and name validation.
- OpenRaft: it is taken to deliver one committed log in order and to install only snapshots of committed state that are not older than the current snapshot file.
- Floating point: scores are integers that stand for the order of `f32::total_cmp`, `prepare` is abstract, the codes of a quantized vector are any signed bytes (its scale is exact), integers compare with doubles exactly instead of after rounding, and recall of the graph is not claimed.
- Threads: lock-delimited sections are atomic steps, and workers that write only their own slots and workspaces are run one after the other.
- Memory mapping, unsafe casts, file locks, temporary names and operating system errors other than those that end an append or a publication.
- Legacy formats: segment version 2, manifest version 1 and graph version 1.
- The bytes of the manifest and of `collection.meta`: both are values here; the manifest's reader checks are in `ReadableManifest`.
- JSON in the Raft files: records and snapshots are values, and only their framing is modelled in bytes.
- The drawing of HNSW levels from ID hashes: the construction theorems hold for every assignment of levels.
- Encoders are functions: they fill a private buffer, so update in place is not observable.
- Heaps are sets from which the best or worst member is taken: their array layout is not modelled.
- Address-space overflow checks (`checked_add` on lengths) and allocation failures.
- Sharded requests and searches run one after the other: two clients whose requests overlap, and searches that see one shard before and another after a request, are not modelled. Neither is `ShardedCollection::flush`, which flushes the shards in turn.
- `backup_to`: its flush and its copy are taken with no other operation between them; checks of the destination path are not modelled.
- Int8Dot.DotPortable: the 64-bit accumulators are unbounded; they cannot overflow below 2^49 components.
- PersistentCollections.PersistentCollection.SearchGraphs: what a graph finds is arbitrary, so exactness is stated only for graphs that miss no better point; SmallBuildsAreExact gives that for small built graphs and SmallGraphMissesNothing for small connected ones, and for larger ones it is not derived, because they rank by quantized vectors.
- PersistentCollections.PersistentCollection.SearchWithEf: the same without a filter.
- A piece of a frame that could not be cut off, followed by further frames: FailedRollbacks is about complete frames only.
- ShardSearch.SearchFiltered: on the graph plan the hits are the best of what the graph and the dirty points yield but not necessarily of all, as the graph is approximate.
- ShardSearch.SearchUnfiltered: the same; the graph is taken to hold quantized vectors, as `build_indexes` builds it.
- ShardNodes.DurableShard.ReplayInPlace: its state after a record that cannot be replayed is not described, because opening then fails.
- HnswIndexes.HnswIndex.Search: the query is a point of the space; the errors for a query of the wrong dimension or one that cannot be prepared are those of its callers' checks.
- Framing.CorruptionFailsClosed: payload bytes only; damage to the length field is the subject of LengthDamageCutsIff, and damage to the magic is refused by ReadFrame.
- SegmentCodec.VectorsAreAligned: stated for segments within the reader's limits, as others are not read to their end.

# FireScroll in Dafny

FireScroll keeps one append-only mutation log per partition in Kafka. Every node folds the logs of its partitions into
local key-value stores, saves its position in the same transaction, uploads snapshots under the offset they were named
at, and rebuilds a partition from its disk or from the newest snapshot after a crash or a reassignment. This project
models that machinery and proves what it keeps.

The classes `Partition`, `PartitionManager`, `LogConsumer` and gossip `Manager` have the fields and methods of the Go
types. Each method is proved against a function of the old state (`Handle`, `Recover`, `List`, `Batch`, `Handled` and
so on), and the theorems below are about those functions and about the step relations built from them.

## The main results

**The log and its replicas** (`Records`, `Protocol`, `Positions`, `ProtocolLimits`, `Replay`, `ReplayLimits`,
`Histories`, `Batches`, `Reassignment`). Any number of replicas open, consume, crash, leave and take backups in any
order, and a backup reads its name first and its content later.
- When a snapshot is taken while the offset is still the one in its name, every open replica holds the fold of the log
  up to its cursor, and also up to the position where the log would be resumed. A conditional delete of an absent key
  does not record its offset (`partition.go:412-414`), so the two positions differ; the entries between them are shown
  to change nothing (`ExactRuns`, `ReplicasConverge`), and the saved offset is that of the last consumed entry that
  was not such a delete (`SavedIsLastMarked`).
- What each mutation does is stated in the fields of the stored record, apart from the functions that the runs use
  (`HandlePut`, `HandleDelete`, `HandleInFull`). A put's condition never sees the stored update time
  (`PutIgnoresUpdateTime`).
- When the content runs ahead of the name, restoring it replays a stretch of the log a second time. That is safe when
  the stretch is settled: each record's mutations are at most one, or include an unconditional delete, or are all
  conditional deletes, or include an unconditional put and no conditional delete, or have one block of conditional
  deletes between unconditional puts (`ReplayTwice`, `ReplayWindow`, `FuzzyRuns`). The condition is exact on the
  guards of a stretch of any records: for every other plan of guards there are conditions, documents and times with
  which applying the stretch twice is not applying it once, even when times never decrease (`ReplaySafeIff`), and a
  run of the code in which a replica consumes the whole log and is wrong for good (`UnsettledDiverges`).
- The code takes a named backup's snapshot at any time. On a log all of whose stretches are settled, such as any log
  of unconditional mutations, that makes no difference (`UnguardedRuns`, `UnconditionalRunsConverge`).
- The data and the update time of a stored record come from the last put that took effect, its creation time from the
  first effective put after the last effective delete (`History`).
- A failing mutation makes the rest of its fetched batch be dropped, and later batches move the offset past it. How
  the log is cut into batches is harmless if and only if no entry after a failing one would have changed anything
  (`BatchingIff`).
- After every node has reconciled with a fixed assignment, each partition is open on exactly one node if and only if
  no node without any assignment had a partition open: such a node returns before it drops anything (`OpenOnceIff`).

**One map** (`Sharding`, `Polling`, `Api`). The partitions' stores are the one map that any merge of the logs gives,
for every interleaving of the workers, which polls that succeed are (`PollsFold`), if and only if no partition key
begins another up to a NUL byte in a different partition (`ShardsIff`, `ShardedIsOneMap`). Reading from the store's
own route agrees with it if and only if the number of partitions divides 2^31 (`ReadsIff`); the documented default of
256 does. A read that is split over local and remote partitions returns each record of that map as often as served
keys ask for it, other nodes answering with the same handler (`GetReadsOneMap`).

**Keys and listings** (`StorageKeys`, `Listing`). Encoded keys sort as (pk, sk) pairs, and a listing equals the unique
answer to a declarative specification of prefix, condition, limit and stop (`ListIsTheAnswer`). When it fails is
decided for every query (`ListFailsIff`).

**Backups** (`Backups`, `PartitionState`). Parsing undoes printing, the search finds the largest offset over any
paging (`LatestInFull`), and opening never moves a partition back. A partition's prefix finds its own backups, and
also those of a namespace that begins with that prefix (`PrefixIff`): the code lets a namespace hold a slash, and a
partition then opens with another namespace's records (`ForeignBackupIsRestored`).

**Gossip** (`Gossip`, `GossipRuns`). Adding stops after the first partition that the table does not know, so one
advertisement is not enough in general. The exact number of repetitions is proved (`RepetitionsIff`), and convergence
whatever other addresses do meanwhile (`Converges`). With handlers interleaved, an address is listed only for what it
once advertised (`ListedOnceAdvertised`). It can be listed twice (`InterleavingCanDuplicate`), and whether any table
of a run does so is decided by a guard on the sections that add (`DistinctRunIff`); when no advertisement repeats a
partition, handlers of one address that do not overlap always meet it (`OrderlyRunsAreDistinct`). A departed address
is listed nowhere until a handler of one of its advertisements adds (`LostIsUnlisted`), which one that arrived before
the departure still can (`LostCanReturn`).

**Partition count and hashing** (`PartitionCount`, `Partitioner`, `Routing`). Nodes that start agree on the first
count in the topic, and a node can come to start exactly when no other count came first (`CanStartIff`). Murmur2
equals a fold whose steps are bijections, so keys of one length that differ in one aligned block never collide.

## Where the code and its documentation differ

- `README.md:98` says that `sk_prefix` can be used to continue where a listing left off. The scan stays inside the
  prefix (`partition.go:261-262`), so it returns only sort keys that extend it; the model follows the code.
- `README.md:317` says that a node refuses to start when its count differs from the topic's. Any error of the first
  poll is treated like an empty topic (`log_consumer.go:152`), so such a node also appends its own count; the first
  record still decides.
- `log_consumer.go:25` declares an error for bad characters in a namespace, but nothing raises it.
- `log_consumer.go:78` says that the log's partitioner is the same murmur2 as in utils. The hash is, but the log
  clears its top bit first; the two routes agree only when the number of partitions divides 2^31 (`RoutesAgreeIff`).

## Model

| member | source | states |
|---|---|---|
| StorageKeys.RecordKeyIsNotInternal | partitions/partition.go:29-40 | no record key is the internal offset key, and the key prefix keeps scans off it |
| StorageKeys.SplitUndoesFormat | partitions/partition.go:451-473 | splitting a formatted key gives back (pk, sk) exactly when both are NUL-free, and is an error otherwise |
| StorageKeys.CollisionIff | partitions/partition.go:461-464 | two different pks have colliding record keys iff one followed by a NUL begins the other |
| StorageKeys.FormatInjective | partitions/partition.go:461-464 | for NUL-free pks the encoding is injective |
| StorageKeys.FormatPreservesOrder | partitions/partition.go:461-464 | byte order of encoded keys is the lexicographic order of (pk, sk), both directions |
| StorageKeys.ScanPrefixIff | partitions/partition.go:261-262 | a key is under a scan's prefix iff it has that pk and its sk extends the sk prefix |
| StorageKeys.OffsetRoundTrip | partitions/partition.go:388-394 | every int64 offset survives the eight little-endian bytes, read back at partition.go:107 |
| StorageKeys.OffsetBytes | partitions/partition.go:388-390 | byte i is the digit of 256^i of the offset's two's complement |
| Partitions.GetRefines | partitions/partition.go:206-230 | looking a record up in the byte keyspace is looking it up in the abstract map of records |
| Partitions.PutRefines | partitions/partition.go:366-372 | writing a record changes the abstract records at its key only and keeps the saved offset |
| Partitions.DeleteRefines | partitions/partition.go:434-439 | deleting a record removes it from the abstract records and keeps the saved offset |
| Partitions.SaveRefines | partitions/partition.go:388-397 | saving an offset changes no record and is read back as written |
| Partitions.Partition.constructor | partitions/partition.go:58-109 | opening without restore gives the local records and the local offset, if any |
| Partitions.Partition.UpdateOffsetInTx | partitions/partition.go:388-397 | the offset joins the transaction and the in-memory field |
| Partitions.Partition.HandleMutation | partitions/partition.go:320-329 | records and offset change together, in the database and in memory, as the operation, its condition and the stored record decide; afterwards both hold the offset, except after an error or a conditional delete of an absent key, which leave everything alone |
| Partitions.Partition.HandlePut | partitions/partition.go:331-385 | the condition sees the stored data and creation time, or a new record, with the put's own time; it writes data and that time and keeps the creation time iff the condition holds, saves only the offset iff it does not, and is an error that changes nothing iff it cannot be evaluated |
| Partitions.Partition.HandleDelete | partitions/partition.go:399-449 | a conditional delete of an absent key succeeds and leaves even the offset alone; any other is decided as a put is, seeing the record as stored |
| Partitions.Partition.ReadRecords | partitions/partition.go:205-248 | increasing positions lead from the records onto exactly the requested keys that are stored, and each record has that key's pk and sk and the stored data and times |
| Partitions.LookupsIff | partitions/partition.go:214-243 | those positions and fields describe the looked up records and no other sequence |
| Partitions.ReadAsOftenAsAsked | partitions/partition.go:214-243 | a record is read once for each requested position whose key is stored as that record |
| Partitions.Partition.VisitItem | partitions/partition.go:263-302 | one key of a scan is broken, skipped, kept or dropped as specified |
| Partitions.Partition.ListRecords | partitions/partition.go:250-318 | the seek-and-scan loop over the byte keyspace returns the one answer to its query over the abstract records, and fails iff it comes to a broken key |
| Partitions.RangeInDb | partitions/partition.go:261-262 | the keys that the scan meets are the records under the prefix; the internal key is never among them |
| Partitions.Partition.RunBackup | partitions/backup.go:43-57 | nothing is uploaded before the first offset; an upload is found by the partition's listing, parses to its offset, and holds what the partition holds |
| Partitions.Partition.CheckAndRestoreFromS3 | partitions/backup.go:115-157 | for any listing, panics iff the search does; else restores the latest backup iff there is one, it is ahead of the local offset and can be downloaded; else nothing changes |
| Partitions.NewPartition | partitions/partition.go:58-132 | for any listing, opening is recovery from the local disk and the latest backup; it fails iff the search for that panics, or it has to be restored and cannot be downloaded |
| Partitions.OwnBackupIsFound | partitions/backup.go:73-113 | when the listing shows the partition's own backups, the newest snapshot is found |
| Partitions.ForeignBackupIsRestored | partitions/backup.go:75-101 | a partition shown the backup of a namespace that begins with its prefix opens with that one's records and offset |
| PartitionState.RecoverTakesTheLater | partitions/backup.go:121-128 | the position after opening is the later of the local one and the snapshot's, with the records of that side, the local ones on a tie |
| PartitionState.HandleInFull | partitions/partition.go:320-449 | the state function and the outcome of a mutation say exactly what its operation, condition and record decide, field by field |
| Records.PutInFull | partitions/partition.go:342-372 | outcome and effect of a put on any store, by the verdict on the stored data and creation time and the put's own time |
| Records.PutIgnoresUpdateTime | partitions/partition.go:358-363 | whatever update time is stored, a put has the same outcome and the same effect when it writes |
| Records.DeleteInFull | partitions/partition.go:407-439 | outcome and effect of a delete on any store; it goes unrecorded iff it is conditional and its key is absent |
| Records.FoldIsCellwise | partitions/partition.go:320-449 | the fold of a log at one key is the fold of that key's cell alone |
| Records.UnappliedIsNoOp | partitions/partition.go:350-449 | a mutation that is skipped, unrecorded or failed leaves every record as it was |
| Replay.ReplayRun | partitions/partition.go:331-449 | one record's mutations of replayable kinds, applied twice from any state, are those applied once, creation and update times included |
| Replay.ReplayCellTwice | partitions/partition.go:337-378 | the same at one key of a stretch of the log |
| Replay.ReplayTwice | partitions/partition.go:331-449 | a settled stretch of the log applied twice is that stretch applied once, from any store |
| Replay.UnconditionalIsSettled | partitions/partition.go:350-356 | any stretch of unconditional mutations is settled |
| Replay.SettledPrefix | partitions/partition.go:406-414 | a settled stretch stays settled without the conditional deletes at its end, which may go unrecorded |
| ReplayLimits.UnsettledBreaks | partitions/partition.go:350-449 | every plan that is not settled has a stretch, none of whose mutations fails and whose times are in order, that breaks an older record when applied twice |
| ReplayLimits.ReplaySafeIff | partitions/partition.go:331-449 | the guards of a stretch of any records and all four kinds make it replayable, whatever its conditions, documents and times, iff its plan is settled; the same when times never decrease |
| Replay.ReplayWindow | partitions/partition.go:406-449 | replay from a name that lies before unrecorded deletes and a settled stretch leaves the content unchanged |
| Histories.AllErasedWhenAbsent | partitions/partition.go:434-439 | when no record is stored, every effective put was followed by an effective delete |
| Histories.History | partitions/partition.go:341-375 | every stored record's data and times come from the last effective put and the first one after the last effective delete |
| Histories.CreatedBeforeUpdated | partitions/partition.go:341-355 | with nondecreasing timestamps no stored record was updated before it was created |
| Protocol.InvStep | log_consumer/log_consumer.go:252-366 | every step of append, assign, consume, crash, leave, name and snapshot keeps the invariant of all replicas and backups |
| Protocol.ConsumeIsGood | partitions/partition.go:320-449 | consuming an entry, recorded or not, keeps a replica good from its saved position |
| Protocol.StepAssign | log_consumer/log_consumer.go:331-345 | reopening from any snapshot and resuming behind the recovered offset neither loses nor doubles an effect |
| Protocol.SnapshotIsGood | partitions/backup.go:52-57 | a snapshot taken under the guard is good from the offset in its name |
| Protocol.FuzzyIsGood | partitions/backup.go:43-71 | a snapshot that ran ahead of its name over a settled stretch is good from its name |
| Protocol.ExactRuns | partitions/partition.go:58-132 | in every run with exact snapshots an open replica holds the fold of the log up to its cursor and up to its resume position |
| Positions.SavedIsLastMarked | partitions/partition.go:399-449 | in those runs an open replica has saved the offset of the last entry before its cursor that was not a conditional delete of a key absent at that moment, and none when there is no such entry |
| Protocol.FuzzyRuns | partitions/backup.go:43-71 | in every run with fuzzy snapshots too, a replica that has passed its reach holds the fold of the log, through repeated crashes and restores |
| Protocol.ReplicasConverge | partitions/partition.go:320-329 | replicas with different histories hold equal records when their cursors are equal |
| Protocol.UnguardedIsFuzzy | partitions/backup.go:52-57 | a run that takes snapshots at any time, on a log all of whose stretches are settled, meets the guard throughout |
| Protocol.UnguardedRuns | partitions/backup.go:43-71 | in such runs a replica that has passed its reach holds the fold of the log |
| Protocol.UnconditionalRunsConverge | partitions/backup.go:43-71 | on logs of unconditional mutations, with snapshots at any time, replicas converge and caught-up ones hold the fold of the log |
| ProtocolLimits.UnsettledDiverges | partitions/backup.go:52-57 | for every plan that is not settled, a run on a log in time that ends in a stretch of it, in which a snapshot newer than its name makes a replica wrong after the whole log |
| ProtocolLimits.UnguardedSnapshotsDiverge | partitions/backup.go:52-57 | in particular a stretch of two conditional puts of one record, any one, has such a run |
| Backups.ParseUndoesPrint | partitions/backup.go:52 | the parser at backup.go:91 gives back the offset a name was printed with |
| Backups.NameOfTwelve | partitions/backup.go:52 | the name of partition 1's backup at offset 12 in any namespace, spelled out, and that it parses to 12 |
| Backups.PrefixIff | partitions/backup.go:75 | for any namespaces, a partition's prefix matches its own backups and those of namespaces that begin with the prefix, and no others |
| Backups.ForeignBackupIsListed | partitions/backup.go:75-91 | a backup of another namespace that is listed, and parses to its own offset |
| Backups.PanicsIff | partitions/backup.go:90-91 | taking a name apart panics iff its last segment has no dash |
| Backups.SearchPanicsIff | partitions/backup.go:85-95 | the search panics iff some page has a name without a dash in its last segment and every name before it on the page parses |
| Backups.ReadableFits | partitions/backup.go:91-95 | every offset that parses is an int64 |
| Backups.LookAtPage | partitions/backup.go:85-102 | one page updates the running maximum up to the first name that does not parse, and panics iff that one does |
| Backups.GetLatestBackupOffset | partitions/backup.go:73-113 | over all pages, panics as said; else the largest positive offset with the first name that carries it, or not found |
| Backups.LatestInFull | partitions/backup.go:83-112 | in terms of the names alone: what is found is the first place with the largest offset among the names that the search comes to, those with no unparsable name before them on their page |
| Backups.NewestIsLargest | partitions/backup.go:82-112 | for every paging of a partition's backups, that is the newest of them |
| Listing.RangeIsRun | partitions/partition.go:262 | the keys with the prefix are one contiguous run from the seek point |
| Listing.OutcomeHere | partitions/partition.go:262-303 | the four ways in which the loop ends give the specified outcome |
| Listing.ListAnswers | partitions/partition.go:250-303 | on well-formed keys and total conditions a listing succeeds and returns only matching records, in order, within the limit, before a stop, leaving nothing out |
| Listing.AnswersAgree | partitions/partition.go:250-303 | at most one sequence of records satisfies that specification |
| Listing.ListIsTheAnswer | partitions/partition.go:250-303 | a listing returns rs iff rs satisfies the specification, whose conditions and records are written out in fields |
| Listing.ListFailsIff | partitions/partition.go:262-303 | a listing fails iff it comes to a broken key: no record before it stops the listing and those kept before it do not reach the limit |
| Listing.ListIsListing | partitions/partition.go:250-303 | a listing is the one answer to its query, and an error iff it comes to a broken key |
| Listing.BrokenIff | partitions/partition.go:264-293 | a key is broken iff it does not split in two or the condition, on the fields of its record, is an error; it is dropped or kept iff that verdict says so |
| Listing.FullListingFailsIff | partitions/partition.go:264-267 | a full listing whose condition always evaluates fails iff some key under the prefix does not split in two |
| Listing.FoldIsWellKeyed | partitions/partition.go:334 | logs of NUL-free keys give well-formed keys |
| Managers.PartitionManager.GetPartitionIDs | partitions/partition_manager.go:37-43 | each open partition once |
| Managers.PartitionManager.AddPartition | partitions/partition_manager.go:46-75 | opens a partition from its disk and the bucket and reports its offset, touching no other; an open one, or one that cannot be opened, is an error that changes nothing |
| Managers.PartitionManager.RemovePartition | partitions/partition_manager.go:77-99 | drops the partition and its disk, touching no other |
| Managers.PartitionManager.HandleMutation | partitions/partition_manager.go:117-132 | the mutation goes to its partition and no other; error iff it is not open or the mutation fails |
| Managers.PartitionManager.ReadRecords | partitions/partition_manager.go:134-148 | the keys of open partitions are read, partition by partition in any order, and others are passed over: a record is returned iff some open partition has it under a key requested there |
| Managers.PartitionManager.ListRecords | partitions/partition_manager.go:150-162 | the partition's listing, or not found |
| Batches.BatchDrains | log_consumer/log_consumer.go:397-409 | what a worker does to the records is draining its batch up to the first failure |
| Batches.BatchingIff | log_consumer/log_consumer.go:397-411 | every cutting of the log into batches gives the fold iff no entry after a failing one would change anything |
| Batches.BatchIsConsumes | log_consumer/log_consumer.go:400-408 | a batch that succeeds is a run of the protocol's single steps |
| Consumers.LogConsumer.HandleBatch | log_consumer/log_consumer.go:399-409 | one worker applies its messages in order up to the first that fails |
| Consumers.LogConsumer.PollRecords | log_consumer/log_consumer.go:380-413 | all fetched partitions go through their batches, whatever the order of the workers; error iff some batch fails |
| Consumers.LogConsumer.Compare | log_consumer/log_consumer.go:294 | news are the assigned partitions not open, gones the open ones not assigned |
| Consumers.LogConsumer.AddAll | log_consumer/log_consumer.go:296-349 | opens every new partition and gives each the position to resume at, its offset plus one or 0; fatal only when one cannot be opened |
| Consumers.OpensOrFails | log_consumer/log_consumer.go:311-329 | a partition that opens is not one that fails to, so a pass is fatal iff for some new partition the search panics or the snapshot cannot be downloaded |
| Consumers.LogConsumer.RemoveAll | log_consumer/log_consumer.go:353-362 | drops every partition that is gone |
| Consumers.LogConsumer.Reconcile | log_consumer/log_consumer.go:294-362 | afterwards exactly the assigned partitions are open, old ones untouched, new ones recovered and resumed |
| Consumers.LogConsumer.TopicInfoLoop | log_consumer/log_consumer.go:252-366 | the whole pass: no metadata changes nothing, no topic only clears readiness, else reconcile; readiness is set only by news; fatal only when a new partition cannot be opened |
| Reassignment.OpeningIsAssign | log_consumer/log_consumer.go:331-345 | opening from any of the partition's snapshots and resuming is the protocol's assignment step |
| Reassignment.OpenedIsGood | log_consumer/log_consumer.go:296-349 | a partition recovered from good content and any of its snapshots is good where fetching it resumes |
| Reassignment.PassOpensGood | log_consumer/log_consumer.go:296-349 | a partition that a pass newly opens, from the listing that the pass reads, satisfies the fold invariant at its reset offset |
| Reassignment.PassAddsGood | log_consumer/log_consumer.go:296-349 | so do all the partitions that a pass adds, at the positions it resets them to |
| Reassignment.PassKeys | log_consumer/log_consumer.go:294-362 | the partitions open after a pass with a nonempty assignment |
| Reassignment.OpenOnceIff | log_consumer/log_consumer.go:287-362 | under a fixed assignment every partition ends open on exactly one node iff no node without an assignment held one |
| Sharding.ShardsIff | log_consumer/log_consumer.go:397-411 | partition stores agree with one map for every merge of the logs iff no key begins another, up to a NUL, across partitions |
| Sharding.WorkKeepsUpToDate | log_consumer/log_consumer.go:397-411 | in any interleaving, each worker's store is the fold of its log up to its position |
| Polling.PollsAreWork | log_consumer/log_consumer.go:380-413 | a sequence of polls whose batches succeed is some interleaving of the workers, at the positions given by what was fetched |
| Polling.PollsFold | log_consumer/log_consumer.go:380-413 | from empty partitions such polls leave each partition with the fold of exactly the messages fetched for it |
| Polling.PollsBuildOneMap | log_consumer/log_consumer.go:380-413 | when they have fetched the whole logs, a record is in its own partition as the one map has it, and in no other |
| Sharding.ShardedIsOneMap | log_consumer/log_consumer.go:397-411 | when the workers are done, a record is in its own partition as the one map has it, and in no other |
| Sharding.ReadsIff | utils/utils.go:89-91 | reading by the store's route is reading the one map, for all logs, iff the count divides 2^31 |
| Api.HandleMutation | api/handler.go:54-90 | refuses the request iff a condition does not compile; else each partition's group holds, in order, exactly the mutations whose key is routed there, with the request's operation and time |
| Api.ProducingGroups | api/handler.go:91-98 | producing the groups extends each log by the request's mutations in order, when the count divides 2^31 |
| Api.SplitKeys | api/handler.go:120-145 | the keys of a partition are, in order, exactly those routed to it; local partitions and remote ones are kept apart |
| Api.HandleGet | api/handler.go:114-193 | error iff an asked node fails, else the answers of the partitions in any order of arrival; when all partitions asked about are open, every record comes as often as some requested key's partition has it |
| Api.RightTogether | api/handler.go:186-190 | answers right by partition are together the lookup of all keys, whatever the order of merging |
| Api.GetIsLookup | api/handler.go:120-190 | the response is the multiset of looking up every served key, with repetition, in one store |
| Api.OneHop | api/handler.go:195-226 | a node that has the partition open and caught up answers, through its own handler, with the lookup of the keys |
| Api.GetReadsOneMap | api/handler.go:120-190 | with partitions caught up here and on the nodes that answer, every record comes as often as there are requested positions, of partitions that are served, whose key has it in the one map of all logs; and of all positions when every partition is served |
| Gossip.Manager.CheckForPartitionDifference | gossip/gossip_manager.go:178-199 | the removed and the new partitions, known ones in any order and unknown ones in theirs |
| Gossip.Manager.AddRemotePartitions | gossip/gossip_manager.go:201-212 | adding up to and including the first unknown partition |
| Gossip.Manager.RemoveRemotePartitions | gossip/gossip_manager.go:214-226 | removing up to the first unknown partition |
| Gossip.Manager.RemovePartitionsForAddr | gossip/gossip_manager.go:228-244 | no list holds the address afterwards; each holds the others in their order and as often as before, and no partition is forgotten |
| Gossip.DropIff | gossip/gossip_manager.go:228-244 | that describes one table and no other |
| Gossip.Manager.GetRandomRemotePartition | gossip/gossip_manager.go:253-262 | the listed address at the drawn index, or none iff nobody is listed |
| Gossip.Manager.HandleAdvertisement | gossip/delegate.go:66-76 | uninterrupted, every known partition is put right and at most one unknown one becomes known |
| Gossip.HandledByParts | gossip/delegate.go:66-76 | the three sections have that effect whatever the order of the map |
| Gossip.UnknownIff | gossip/gossip_manager.go:193-197 | the unknown partitions are exactly the advertised ones that are not keys, in the order of the advertisement |
| GossipRuns.OthersUntouched | gossip/gossip_manager.go:178-244 | a message about one address never changes where another is listed |
| GossipRuns.OthersInOrder | gossip/gossip_manager.go:201-244 | in every list the other addresses keep their order and number |
| GossipRuns.DepartedIsUnlisted | gossip/event_delegate.go:19-24 | after a departure, and until the address advertises again, it is listed nowhere, whatever others do |
| GossipRuns.LostIsUnlisted | gossip/gossip_manager.go:228-244 | with handlers interleaved, a lost address is listed nowhere until a handler of one of its advertisements adds |
| GossipRuns.LostCanReturn | gossip/delegate.go:66-76 | such a handler may be one of an advertisement from before the loss, and then the address is listed again |
| GossipRuns.DistinctRun | gossip/gossip_manager.go:201-212 | uninterrupted handlers never list an address twice |
| GossipRuns.MissingAfter | gossip/gossip_manager.go:205-209 | the number of unknown advertised partitions falls by one per advertisement and never rises |
| GossipRuns.Converges | gossip/gossip_manager.go:178-226 | enough repetitions list the address for exactly what it advertises, whatever others do meanwhile |
| GossipRuns.RepetitionsIff | gossip/gossip_manager.go:201-212 | alone, an address is listed as advertised iff it repeated itself once per unknown partition |
| GossipRuns.ListedOnceAdvertised | gossip/delegate.go:66-76 | in any interleaving of the locked sections and departures, a listed address once advertised the partition |
| GossipRuns.InterleavingCanDuplicate | gossip/delegate.go:66-76 | two interleaved handlers of one advertisement can list its address twice |
| GossipRuns.AddKeepsDistinctIff | gossip/gossip_manager.go:201-212 | adding keeps every list free of repetitions iff what it appends to has none and does not list the address |
| GossipRuns.DistinctRunIff | gossip/delegate.go:66-76 | no table of an interleaved run lists an address twice iff every section that adds meets that guard |
| GossipRuns.OrderlyRunsAreDistinct | gossip/delegate.go:66-76 | when handlers of one address do not overlap and advertisements repeat no partition, no table does, whatever others do |
| PartitionCount.StartedNodesAgree | log_consumer/log_consumer.go:150-190 | nodes that have started all have the count in the first record |
| PartitionCount.FirstCountDecides | log_consumer/log_consumer.go:176-187 | from any later state, a node that polls records starts iff its count is the first one |
| PartitionCount.PublisherPolls | log_consumer/log_consumer.go:152-187 | publishing adds the own count at the end; whatever others do then, there is something to poll, which starts the node iff the topic was empty or its first count is the same |
| PartitionCount.CanStartIff | log_consumer/log_consumer.go:150-190 | from any state in which started nodes agree, a node with a count can come to start, nothing failing, iff no other count came first |
| PartitionCount.OnePublication | log_consumer/log_consumer.go:152-171 | a launched node publishes at most once |
| Partitioner.Murmur2 | utils/utils.go:54-87 | the block and tail loop is the recursive fold over little-endian words |
| Partitioner.AbcHash | utils/utils.go:73-85 | the hash of the three-byte key "abc" |
| Partitioner.FinishIsBijective | utils/utils.go:83-85 | the finaliser is a bijection of 32-bit words, with its inverse |
| Partitioner.BlockIsBijective | utils/utils.go:63-71 | a block step is a bijection in the state and in the word |
| Partitioner.TailInjective | utils/utils.go:73-82 | the tail step separates different tails of one length |
| Partitioner.OneBlockNeverCollides | utils/utils.go:54-87 | keys of one length that differ in one aligned block, or in the tail only, hash differently |
| Routing.GetPartitionInRange | utils/utils.go:89-91 | the store's route is a partition number for every count up to 2^31 |
| Routing.RoutesAgreeIff | log_consumer/log_consumer.go:78 | the store's and the log's route agree on every key iff the count divides 2^31 |
| Routing.PowersOfTwoAgree | utils/utils.go:89-91 | they agree for every power of two up to 2^31 |

## Left out

- JSON and the expression language: a document is its text, a serialised record any lossless code, a condition any total function of what a compare record exposes that may hold, fail or be an error; whether one compiles is a parameter.
- Kafka, Badger, S3 and memberlist: an append-only sequence, an atomic ordered byte map, named objects with an arbitrary paging of their names, and arbitrary message delivery; log retention is not modelled, so a resume offset is always still in the log.
- HandleMutation: the offset field is written with the commit (partition.go:395 writes it just before), so a backup named between the two, one offset ahead of its content, is not modelled.
- CheckAndRestoreFromS3: loading a snapshot replaces the database, the intent logged at backup.go:130; Badger's Load would merge into what is there.
- RunBackup: offsets are not negative, and the content is one consistent snapshot of the database.
- FuzzyRuns: the condition on a stretch is exact on its guards; that particular conditions, documents or times may be harmless although the guards promise nothing is not characterised.
- ExactRuns: an entry that fails is not consumed in the protocol's runs; what failures do is stated by BatchingIff on the records alone.
- BatchIsConsumes: log positions are offsets, so gaps in Kafka's offsets are not modelled, and the offset after the largest int64 does not wrap around.
- ListIsTheAnswer: keys are NUL-free and conditions always evaluate; ListFailsIff says when any listing fails.
- TopicInfoLoop: new partitions are opened one after the other, as one step with pausing, setting offsets and resuming; fetches in flight are not modelled, nor what is left behind when the pass is fatal and the process exits; an assignment names each partition once.
- RemovePartition: only partitions that are open are removed, as its one caller does; the second shutdown and the miss are not modelled.
- PollRecords: a message that does not decode fails like an unknown operation; errors of the fetch itself are not modelled.
- PollsAreWork: every batch succeeds; what a failing one does is stated by BatchingIff.
- NewPartition: opening also fails when the local database, the S3 session or the listing errors (partition.go:61, :81, :119, backup.go:103); these errors are not modelled. A panic of the search, which ends the process, counts as failing to open.
- OpenOnceIff: a member that is assigned no partition is assigned no topic; the assignment stays fixed while the nodes make their passes.
- HandleGet: another node's answer is a parameter; GetReadsOneMap assumes that a node asked for a partition has it open, so a further hop from a node that no longer holds it is not modelled.
- ProducingGroups: for counts that do not divide 2^31 the order in which concurrent groups reach a log is not modelled.
- StartedNodesAgree: the topic has one partition and unlimited retention, as README.md:317 demands.
- handleList and doRemoteOperation: routing one listing to one partition would only repeat what is proved of reads.
- Metrics, logging, environment parsing, TLS and SASL, the HTTP servers, garbage collection tickers, shutdown, the unused SQL files and the unfinished batch operation.

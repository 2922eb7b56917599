# Verification of the NATS extension's protocols and codecs

A Dafny model of the parts of the extension where a mistake loses, repeats or corrupts rows: the exactly-once ingest
protocol, the MessagePack and CBOR codec, and the fast forms (prefetching, count-driven scans, timestamp search,
incremental key-value scans, descriptor sets, job lifecycles) that have to agree with something simple.
`dafny verify dfyconfig.toml` checks everything.

## What is modelled

**Ingest** (`src/nats_ingest.cpp`, `src/nats_source.cpp`).  `IngestProtocol` is a transition system over one stream, one
durable consumer, one database (lease row, checkpoint log, target table, registry row), a clock and any number of jobs.
A step is one transaction or one event outside: claim, load, bind, deliver, redeliver, commit, skip, acknowledge, renew,
release, compact, crash, launch with or without rehydration, publish.  `IngestSafety`, `IngestFencing`, `IngestDelivery`
and `IngestExactlyOnce` prove what holds in every state of every run.  `IngestLease`, `CheckpointLog`, `IngestWorker` and
`PrefetchSource` are the imperative parts: classes over the lease table, the checkpoint store, the worker's write buffer
and the message source.  The worker takes its messages from the source object, and every call it makes keeps the source in
a guarded run.  `IngestRefinement` shows that one turn of the worker object, with the compaction, the registry write and
the lease renewals that it makes, is a run of steps of the transition system, so that what is proved of every run holds of
the object's database.

Assumptions of the ingest model, all explicit: owner ids are unique; the configuration is the same for every job; stream
sequences start at 1 and grow; the messages of the stream are those under the server-side subject filter; `ordered`
stands for the delivery assumption (first deliveries reach the worker that holds the lease, in order).

The guide promises exactly-once delivery across redelivery and restart.  What the code gives, exactly:

* No sequence is inserted twice if and only if `resume_from_checkpoint` is on, whatever the order of delivery.
* The table is exact if and only if, in addition, first deliveries reach the lease holder: otherwise a message that goes
  elsewhere is passed over by the next commit, because the checkpoint is the maximum of the batch, and dropped and
  acknowledged as a duplicate when it comes again.  No message has to get lost for that: a job whose lease has expired is
  still bound to the consumer, and can receive a message that its successor should have had
  (`IngestExactlyOnce.FencedTakesDelivery`).
* A claim, a commit or a renewal keeps every other job out for 30 seconds, and no longer (`IngestFencing.LeaseLasts`,
  `IngestFencing.ExpiredIsFree`).
* A fresh lease claim leaves token 2, not 1: the claim inserts the row and then updates it once more as its own owner.
* Compaction and registry writes are not fenced.  They do no harm: compaction keeps what readers see, and the registry is
  at most the checkpoint.

**Codec** (`src/nats_scan.cpp`, `src/nats_message_decode.cpp`).  `Wire` describes both formats at once: a tag byte
announces an argument and contents.  `Formats` fills in the MessagePack specification, section "Formats", and sections 3.1
and 3.3 of RFC 8949 as far as the readers take them.  `MsgpackObjects` and `CborObjects` are the two specifications once
more, on their own: objects with their bytes and their meaning, for every family and width.  What the readers skip and
read is proved to be exactly that, and `WrittenObjects` that what the encoders write denotes the value written.  `MsgpackReaders` and `CborReaders` are the two readers, as cursors
over a payload writing to an array of cells; `StructuredEncoder` is the encoder, appending to a byte buffer.  `Projection`
treats the one-pass path extraction on trees, `Extraction` connects it to bytes, and `PayloadRoundTrip` connects encoder
and readers.  Not everything the encoders write is well-formed: `ItemStream` describes the readers on any stream of items,
`RowReading` reduces any encoded row to its stream, `RowReadBack` says which columns of it are read and when all texts come
back, `NullDemands` restates that condition on the values of the row alone, `RowRoundTrip` draws the closed conditions, and
`PublishableColumns` says which columns are safe anywhere.

How a float is written as text is a parameter of the model; the text fits the 64-byte buffer.  Floats are 64-bit patterns.
Sequences, counts and lengths are unbounded integers; where the code's width shows, it is written out: two-byte and
four-byte counts wrap, CBOR negatives are computed in 64 bits, HUGEINT values outside 64 bits are refused.

What the code does differently from what one may expect:

* CBOR null is written as 0xc0, which is tag 0, so it takes the item behind it along, at any level.  A row whose counts fit
  their heads reads back exactly when no column that is passed over in this way has a text
  (`NullDemands.ReadsBackByValues`); with at most 256 lists, structs and nulls in the row that is a matter of counting
  nulls (`NullDemands.ReadsBackByCounting`).  When the columns in front of the first null column are publishable, the
  condition is that nothing behind that null has a text (`RowRoundTrip.CborNullIff`).  With nulls inside the columns in
  front it is not: a text further back can still be read (`NullDemands.NullsInStep`), and one in front of the null column
  can be lost (`NullDemands.NestedNullSwallows`).
* The head of a MessagePack list, struct or map holds two bytes of its count at any level.  A nested one of 65536 or more
  elements is written without an error and is not well-formed; its last elements are read as further columns, and the row
  behind it can be lost altogether (`PayloadRoundTrip.ItemRightIff`, `PublishableColumns.LongListLosesRow`).
* In a row of a column and a text behind it, every such text reads back exactly when skipping the column's value takes all
  of it and nothing else (`PublishableColumns.SafeIff`).  In MessagePack, and in CBOR as long as its counts fit their
  heads, that is when it is publishable: its counts fit, it is nested at most 256 deep, and in CBOR it holds no null
  (`PublishableColumns.PublishableIff`).  A CBOR list of 3 * 2^31 elements can be safe without being well-formed, because
  its nulls make up for the count that wraps around (`PublishableColumns.WrappedListIsSafe`).
* CBOR integers at or below -1 - 2^63 read back as non-negative numbers (`Formats.CborNegative`).
* A MessagePack row of more than 65535 columns loses all but the first `n mod 65536` (`RowRoundTrip.RoundTripIff`).
* Of a key that is repeated, the last scalar counts (`Projection.ProjectionIsLast`).
* The extractor compares only the component at the current depth, so it is right for all documents exactly when the
  requested paths are compatible (`Projection.ProjectionIffCompatible`).
* Timestamp resolution is right for all times exactly when no probe can hit a gap with a message to its left in the
  interval searched (`TimestampSearch.RightIffProbesSafe`).
* The comment on the incremental key-value scan promises the state as of the captured end; writes that land between
  capturing it and reading can push the last change before it out of the bucket (`KvScan.HistoryIff`).

**Fast forms and managers.**  `TimestampSearch`, `StreamScan` (`src/nats_scan.cpp`), `KvScan` (`src/nats_kv.cpp`),
`DescriptorSet` (`src/nats_proto_schema.cpp`), `JobLifecycle` and `SubscribeWorkers` (`src/nats_subscribe.cpp` and
`src/nats_ingest.cpp`).  No message has sequence 0.  Answers of the server are parameters: the retained messages, the
deleted list, the messages that a subscription delivers (a bucket keeps the last changes of each key up to its history
limit, from the key's last purge on), the verdict of the protobuf library on one file, the outcome of a flush.

## Model

| member | source | states |
|---|---|---|
| `IngestExactlyOnce.ExactlyOnceIff` | src/nats_ingest.cpp:2149-2333 | in every reachable state the table is exactly the due messages up to the checkpoint, in order, and no acknowledged due message is missing, if and only if the job resumes from its checkpoint and first deliveries reach the lease holder; runs in which every message is delivered to some worker already decide it |
| `IngestExactlyOnce.ExactlyOnce` | src/nats_ingest.cpp:2149-2367 | the same for one run, and the checkpoint's row count is the size of the table |
| `IngestExactlyOnce.AtMostOnceIffResume` | src/nats_ingest.cpp:2165-2179 | no sequence is ever inserted twice across owners and restarts, if and only if the job resumes from its checkpoint; delivery order does not matter |
| `IngestExactlyOnce.RestartDuplicates` | src/nats_ingest.cpp:1496-1503 | without resuming, a run that inserts a message twice |
| `IngestExactlyOnce.LostDelivery` | src/nats_ingest.cpp:2165-2179 | a run in which a lost first delivery is passed over, dropped as a duplicate and acknowledged |
| `IngestExactlyOnce.FencedTakesDelivery` | src/nats_ingest.cpp:1496-1542 | a run in which nothing is lost and a job whose lease has expired receives a message, which its successor then passes over, drops as a duplicate and acknowledges |
| `IngestExactlyOnce.RestartMissesNothing` | src/nats_ingest.cpp:1496-1542 | binding or recreating the consumer on restart will still hand out every due message that the table misses |
| `IngestExactlyOnce.MissingIsOnItsWay` | src/nats_ingest.cpp:2310-2367 | while a worker holds the lease, a due message missing from the table is in its pipeline or still to be handed out |
| `IngestFencing.CommittedAtMostOnce` | src/nats_ingest.cpp:2287-2330 | in every run the table's sequences are distinct, pass the filter, are at most the checkpoint, and are as many as it counts |
| `IngestFencing.HolderKnowsCheckpoint` | src/nats_ingest.cpp:1574-1588 | in every run the lease holder's in-memory progress is the checkpoint that the view shows |
| `IngestFencing.TakeoverFences` | src/nats_ingest.cpp:408-520 | once another owner's claim commits, nothing the earlier owner does changes the table, the checkpoint shown or the lease row, and it never holds the lease again |
| `IngestFencing.FencedIsPowerless` | src/nats_ingest.cpp:455-520 | no commit, renewal, release or compaction of a fenced job changes what others see |
| `IngestFencing.FencedForGood` | src/nats_ingest.cpp:408-453 | a job whose (owner, token) pair is gone never gets it back, though token numbers recur |
| `IngestFencing.LeaseLasts` | src/nats_ingest.cpp:424-471 | in every run, from a claim, a commit or a renewal on and for 30 seconds, the lease row is that job's, with the token of its claim, unless the job releases it itself |
| `IngestFencing.TakeoverWaits` | src/nats_ingest.cpp:424-447 | so another job's claim succeeds 30 seconds after the owner's last claim, commit or renewal at the earliest, or after the owner's release |
| `IngestFencing.ExpiredIsFree` | src/nats_ingest.cpp:431-431 | and no later: a job can claim as soon as the row has run out or is gone |
| `IngestFencing.RehydrationKeepsResumePoint` | src/nats_ingest.cpp:1298-1309 | the registry is at most the checkpoint, so the field-wise maximum leaves the progress just loaded |
| `IngestFencing.ResumesBehindTable` | src/nats_ingest.cpp:1496-1542 | a consumer that the lease holder recreates begins right behind the checkpoint, or where the configuration says, and hands out nothing that is in the table |
| `IngestFencing.LogAgreesInEveryRun` | src/nats_ingest.cpp:248-269 | in every run the view over the append-only log shows what the keyed table would hold, and compaction leaves one row per key |
| `IngestSafety.ReachableInv` | src/nats_ingest.cpp:1559-1620 | the invariant that joins lease, checkpoint, registry, table and every job's progress holds in every reachable state |
| `IngestSafety.CommitRises` | src/nats_ingest.cpp:2287-2304 | every commit strictly raises the committed sequence |
| `IngestDelivery.ReachableOrdered` | src/nats_ingest.cpp:2149-2367 | under ordered delivery the table, consumer and pipeline invariant holds in every reachable state |
| `IngestDelivery.BatchSelects` | src/nats_ingest.cpp:2165-2190 | deduplicating and filtering an in-order batch selects exactly the due messages between two checkpoints |
| `IngestDelivery.BindMissesNothing` | src/nats_ingest.cpp:1496-1542 | every due message below the bound consumer's next sequence is in the table or was already handed out |
| `IngestBatch.NewRowsSound` | src/nats_ingest.cpp:2165-2190 | the rows of a batch are new, pass the filter and occur once |
| `IngestBatch.NewRowsComplete` | src/nats_ingest.cpp:2165-2190 | every new message of the batch that passes the filter has a row, and so has every such message without a sequence |
| `IngestBatch.NewRowsInOrder` | src/nats_ingest.cpp:2149-2231 | the rows are a subsequence of the batch |
| `IngestBatch.BatchConservation` | src/nats_ingest.cpp:2149-2190 | messages taken = inserted + duplicates + filtered |
| `IngestBatch.BatchCounted` | src/nats_ingest.cpp:2149-2190 | the duplicates counted are the places whose known sequence is committed or stands further in front, and the rows are as many as all others that pass the filter |
| `IngestBatch.PassesIff` | src/nats_ingest.cpp:2182-2188 | the filter keeps exactly the messages whose subject is the wanted text with something in front of it and something behind it |
| `Basics.ContainsIff` | src/nats_ingest.cpp:2183-2183 | a text contains a part exactly when it is that part between two others |
| `IngestBatch.MaxSequenceBounds` | src/nats_ingest.cpp:2167-2167 | the checkpoint of a batch is its greatest sequence |
| `IngestWorker.CollectMeaning` | src/nats_ingest.cpp:2149-2231 | the loop's running accounts are the rows, duplicates and greatest sequence of the batch |
| `IngestWorker.Worker.AppendRow` | src/nats_ingest.cpp:2193-2231 | a row goes to the write buffer, which is handed on when full; nothing collected is lost or reordered |
| `IngestWorker.Worker.TakeMessage` | src/nats_ingest.cpp:2162-2231 | one message is dropped as a duplicate, filtered out or appended |
| `IngestWorker.Worker.CollectBatch` | src/nats_ingest.cpp:2148-2237 | the loop takes at most a batch, each message from the source's buffer and never from the transport, in steps of a guarded run, and leaves exactly the batch's rows collected |
| `IngestWorker.Worker.FetchIfEmpty` | src/nats_ingest.cpp:2107-2129 | goes on to the batch exactly when messages are buffered or the queue's next batch, which is then being consumed, has some; reports the source's error exactly when it has failed and nothing is buffered; otherwise it is idle, renews the lease when that is due and does nothing else to the database; nothing received is lost and the source stays in a guarded run |
| `IngestWorker.Worker.CommitBatch` | src/nats_ingest.cpp:2254-2333 | rows, checkpoint and lease fence are written together, or nothing is; the write buffer is empty afterwards |
| `IngestWorker.Worker.ProcessBatch` | src/nats_ingest.cpp:2131-2367 | one turn writes the new rows of its batch in full chunks with the next checkpoint and the fence, then compacts the log when that is due and does not fail and writes the registry row when that is due; or it writes nothing and, without rows, renews the lease when that is due; messages are acknowledged only after commit or rollback |
| `IngestWorker.Worker.MaintainDatabase` | src/nats_ingest.cpp:2335-2354 | behind a commit the log is compacted exactly when it is append-only and that is due and does not fail, the registry row is the progress exactly when it is due, and the checkpoint shown stays |
| `IngestRefinement.TurnRuns` | src/nats_ingest.cpp:2131-2367 | from any reachable state, what decides a turn's outcome makes it a run of the protocol: a commit with its compaction and registry write and one acknowledgement for each message taken, a skipped batch with the same acknowledgements and a renewal, or the end of a job without its lease |
| `IngestRefinement.MirroredTurn` | src/nats_ingest.cpp:2254-2367 | an object that mirrors a state mirrors the state after those steps: lease row, table, log, registry row, progress, pipeline and acknowledgements |
| `IngestRefinement.FetchTurn` | src/nats_ingest.cpp:2107-2120 | the head of the loop is a renewal of the lease, the end of a job that has lost it, or no step at all |
| `IngestRefinement.Turn` | src/nats_ingest.cpp:2131-2367 | the worker object takes such a turn; with resuming, its table never holds a sequence twice and its store keeps showing what it stands for |
| `IngestLease.LeaseTable.ClaimIngestLease` | src/nats_ingest.cpp:408-453 | refuses, and leaves the row, exactly when another owner's lease has not run out; else the row is the caller's for 30 seconds, with a higher token |
| `IngestLease.LeaseTable.FenceIngestCommit` | src/nats_ingest.cpp:455-471 | gives the row 30 more seconds exactly when owner and token match, else reports failure and leaves the row |
| `IngestLease.LeaseTable.RenewIngestLeaseIfDue` | src/nats_ingest.cpp:474-494 | renews exactly when the last renewal is 10 seconds old and no transaction is open, and reports a lost lease only then |
| `IngestLease.LeaseTable.ReleaseIngestLease` | src/nats_ingest.cpp:496-520 | deletes the row exactly when it is held by this owner and token |
| `CheckpointLog.LogRefinesKeyedTable` | src/nats_ingest.cpp:237-269 | through any run of upserts and compactions the log's view equals the keyed table, if and only if every upsert is at least as new as what the table holds |
| `CheckpointLog.AgreementStep` | src/nats_ingest.cpp:992-1013 | one operation keeps the agreement exactly when it is rising |
| `CheckpointLog.CompactionKeepsView` | src/nats_ingest.cpp:925-946 | compaction changes no key's latest row |
| `CheckpointLog.CompactionIdempotent` | src/nats_ingest.cpp:925-946 | compacting twice is compacting once |
| `CheckpointLog.CompactionLeavesOneRow` | src/nats_ingest.cpp:925-946 | one row per key is left |
| `CheckpointLog.LatestIsLatest` | src/nats_ingest.cpp:248-269 | the row found is the latest in the view's order |
| `CheckpointLog.CheckpointStore.UpsertCheckpoint` | src/nats_ingest.cpp:948-1013 | the table that the store stands for has the new row, and readers see it from then on in either layout exactly when, in the log, it repeats the row it replaces or has a higher sequence, or the same one and more batches |
| `CheckpointLog.CheckpointStore.CompactCheckpointLog` | src/nats_ingest.cpp:925-946 | the view shows the same rows as before; exactly the superseded rows are gone; and while the log agrees with the table it stands for, it goes on to, every key shows the same checkpoint, and one row per key is left |
| `CheckpointLog.CheckpointStore.LoadCheckpoint` | src/nats_ingest.cpp:887-923 | in either layout, after any run, finds the row of the keyed table that the store stands for and resumes behind it, or at the start without one |
| `PrefetchSource.PrefetchConserves` | src/nats_source.cpp:162-242 | under any interleaving consumed, unread, queued and in-flight messages are all that was fetched, the queue holds at most one batch and the client at most two |
| `PrefetchSource.ConsumedInOrder` | src/nats_source.cpp:191-209 | what the worker consumed is a prefix of what was fetched |
| `PrefetchSource.UnguardedReorders` | src/nats_ingest.cpp:2148-2157 | without the guard on buffered messages a run that consumes out of order |
| `PrefetchSource.FrontIs` | src/nats_ingest.cpp:2148-2157 | what a turn takes is a stretch of the batch being consumed, as many messages as a batch may have, or all that are left |
| `PrefetchSource.NatsJetStreamBatchSource.FetchBatch` | src/nats_source.cpp:162-185 | the queue's first batch becomes the one being consumed, or none does when the queue is empty; the source's history stays a guarded run exactly when nothing was buffered |
| `PrefetchSource.NatsJetStreamBatchSource.Next` | src/nats_source.cpp:191-209 | hands out the next buffered message, or fetches past the queue when there is none; the history stays a guarded run exactly when something was buffered |
| `PrefetchSource.NatsJetStreamBatchSource.Push` | src/nats_source.cpp:236-242 | queues the fetched batch unless stopping |
| `Wire.SkipExact` | src/nats_message_decode.cpp:186-218 | on an encoded item followed by anything, skipping ends exactly behind the item, if and only if it is nested at most 256 deep |
| `Wire.SkipIffItem` | src/nats_message_decode.cpp:186-218 | the skipper takes one item up to a position exactly when a well-formed item, nested at most 256 deep, lies up to there |
| `MsgpackObjects.SkipIff` | src/nats_message_decode.cpp:179-218 | at any place of any payload, the MessagePack skipper succeeds exactly on the objects of the specification, of every family and width but extension types, nested at most 256 deep, and ends behind their last byte; so it fails on anything truncated or reserved |
| `MsgpackObjects.ReadIff` | src/nats_message_decode.cpp:48-112 | a scalar is read exactly when a nil, boolean, integer, float or string object lies there, of any width, and its text is the number it stands for, the float of its bits, or the string |
| `MsgpackObjects.DecodeObject` | src/nats_message_decode.cpp:114-144 | decoding the bytes of a map, whatever follows them, gives each column the last text at its path in what the map means, which is the only one when no key is repeated; maps that no requested path goes through may have any keys |
| `MsgpackObjects.OnlyMaps` | src/nats_message_decode.cpp:24-27 | a payload that does not begin with a map leaves its columns null |
| `CborObjects.SkipIff` | src/nats_message_decode.cpp:487-513 | the same for CBOR data items of definite length: every major type, argument width, simple value and float |
| `CborObjects.ReadIff` | src/nats_message_decode.cpp:403-450 | a scalar is read exactly when an integer, text, false, true, null or float lies there; negative integers below -2^63 come out non-negative and half floats as zero |
| `CborObjects.DecodeObject` | src/nats_message_decode.cpp:456-485 | decoding the bytes of a map, whatever follows them, gives each column the last text at its path in what the map means, which is the only one when no key is repeated; maps that no requested path goes through may have any keys |
| `CborObjects.OnlyMaps` | src/nats_message_decode.cpp:364-368 | a payload that does not begin with a map of definite length leaves its columns null |
| `MsgpackReaders.MsgpackReader.SkipValueAfterTag` | src/nats_message_decode.cpp:186-218 | on any bytes the skipper terminates inside the payload and does what the skip function does, which `MsgpackObjects.SkipIff` describes |
| `CborReaders.CborReader.Skip` | src/nats_message_decode.cpp:487-513 | the same for CBOR, and `CborObjects.SkipIff` |
| `CborReaders.CborReader.SkipElements` | src/nats_message_decode.cpp:497-507 | turning down counts larger than the rest never rejects what could be skipped, and twice the count does not overflow |
| `MsgpackReaders.MsgpackReader.ReadUnsigned` | src/nats_message_decode.cpp:155-165 | reads a big-endian number of up to eight bytes or leaves the cursor |
| `MsgpackReaders.MsgpackReader.ReadStringView` | src/nats_message_decode.cpp:30-46 | reads the text of any length class; one that is longer than the rest fails behind its length, anything else where it began |
| `MsgpackReaders.MsgpackReader.TextBehind` | src/nats_message_decode.cpp:30-46 | in terms of bytes: the length that the tag or the one, two or four bytes behind it announce, then the text; where there is less, the cursor stays behind the length, where there is no length, at its start |
| `MsgpackReaders.MsgpackReader.ReadScalarToVector` | src/nats_message_decode.cpp:48-112 | writes what the scalar function reads, which `MsgpackObjects.ReadIff` describes, to its cell, or writes nothing |
| `MsgpackReaders.MsgpackReader.DecodeMap` | src/nats_message_decode.cpp:114-144 | the row and cursor after decoding a map are those of the extraction function |
| `MsgpackReaders.DecodeMsgpackFieldPathsToChunk` | src/nats_message_decode.cpp:343-351 | clears the output columns and extracts the payload, on any bytes |
| `CborReaders.CborReader.ReadArgument` | src/nats_message_decode.cpp:382-392 | the argument that the low five bits announce, inline or in one to eight bytes |
| `CborReaders.CborReader.SetScalar` | src/nats_message_decode.cpp:403-450 | writes what the scalar function reads, which `CborObjects.ReadIff` describes, to its cell, or writes nothing |
| `CborReaders.CborReader.DecodeMap` | src/nats_message_decode.cpp:456-485 | the row and cursor after decoding a map are those of the extraction function |
| `CborReaders.DecodeCborFieldPathsToChunk` | src/nats_message_decode.cpp:523-528 | clears the output columns and extracts the payload, on any bytes |
| `Extraction.MatchField` | src/nats_message_decode.cpp:121-129 | the first field whose component at this depth is the key |
| `Extraction.ScalarExact` | src/nats_message_decode.cpp:48-112 | on an encoded item the scalar reader succeeds exactly on scalars and otherwise consumes nothing |
| `Extraction.ScalarIffItem` | src/nats_message_decode.cpp:48-112 | a scalar is read up to a position exactly when a well-formed item that denotes it lies up to there |
| `Extraction.DecodeIsProjection` | src/nats_message_decode.cpp:343-351 | decoding an encoded document is the one-pass projection of its tree; maps that no requested path goes through may have any keys |
| `Extraction.DecodeIsLast` | src/nats_message_decode.cpp:114-144 | with compatible paths every column receives the last scalar at its path, and other columns stay |
| `Extraction.DecodeIsLookup` | src/nats_message_decode.cpp:114-144 | with compatible paths and distinct keys every column receives the independent lookup of its path, and other columns stay; maps that no requested path goes through may have any keys |
| `Projection.ProjectionIffCompatible` | src/nats_message_decode.cpp:121-141 | the pass equals independent lookup on every document with distinct keys, if and only if no path is a prefix of another and longer paths share their first components |
| `Projection.ProjectionIsLast` | src/nats_message_decode.cpp:121-141 | with compatible paths, on every document, repeated keys included, each column has the last scalar at its path, or null when there is none |
| `Projection.ProjectionIsLookup` | src/nats_message_decode.cpp:121-141 | the pass equals independent lookup when the paths are compatible |
| `Projection.OnlyCompatible` | src/nats_message_decode.cpp:121-141 | incompatible paths go wrong on some document |
| `FieldPaths.SplitMsgpackFieldPaths` | src/nats_message_decode.cpp:326-341 | each name's components, joined by dots, are the name, and contain no dot |
| `FieldPaths.SplitUnique` | src/nats_message_decode.cpp:326-341 | a name has one split only |
| `Formats.CborNegative` | src/nats_message_decode.cpp:408-414 | a negative CBOR integer reads back as -1 - n exactly for n below 2^63 |
| `Bytes.BigEndianRoundTrip` | src/nats_scan.cpp:618-622 | what is written in enough bytes is read back |
| `Bytes.BytesRoundTrip` | src/nats_message_decode.cpp:155-165 | what is read from any bytes is written back as the same bytes |
| `Bytes.BigEndianAt` | src/nats_scan.cpp:618-622 | each byte of a field is the value's digit, in base 256, of its place: the most significant first |
| `Bytes.DecimalRead` | src/nats_message_decode.cpp:66-68 | the text of an integer is its decimal digits, behind a minus sign when it is negative |
| `StructuredEncoder.AppendBigEndian` | src/nats_scan.cpp:618-622 | appends the low bytes of the value, most significant first |
| `StructuredEncoder.AppendMsgpackString` | src/nats_scan.cpp:624-639 | appends the shortest head for the length and the bytes |
| `StructuredEncoder.AppendCborString` | src/nats_scan.cpp:641-656 | the same for CBOR |
| `StructuredEncoder.AppendStructuredCount` | src/nats_scan.cpp:658-680 | with the elements behind it, the head completes the array or map item |
| `StructuredEncoder.AppendStructuredVectorScalar` | src/nats_scan.cpp:682-745 | appends nulls and the scalars of types with a vector form, else nothing |
| `StructuredEncoder.AppendStructuredValue` | src/nats_scan.cpp:775-837 | appends the item of any nested value, and refuses exactly those that hold a signed integer outside -2^63 to 2^63 - 1 or an unsigned one above 2^64 - 1 |
| `StructuredEncoder.EncodeStructuredPayload` | src/nats_scan.cpp:1250-1261 | the buffer becomes the row's map item, whichever path encoded each column |
| `WrittenObjects.MsgpackRow` | src/nats_scan.cpp:1250-1261 | a row's bytes are those of one MessagePack map that has the columns as its entries, in order, lists with their elements and structs with their fields, by whichever path each was written |
| `WrittenObjects.CborRow` | src/nats_scan.cpp:1250-1261 | the same for CBOR rows without nulls |
| `WrittenObjects.WrittenMsgpack` | src/nats_scan.cpp:682-837 | a value's bytes are those of a MessagePack object that denotes it, element by element |
| `WrittenObjects.WrittenCbor` | src/nats_scan.cpp:682-837 | the same for CBOR values without nulls |
| `PayloadRoundTrip.RowDecodes` | src/nats_scan.cpp:1250-1261 | extracting compatible dotted paths from an encoded row of nested structs gives the lookup of each path in the row |
| `PayloadRoundTrip.PathsAgree` | src/nats_scan.cpp:682-837 | the two paths denote the same value and write different bytes exactly for CBOR integers from -24 to -1 |
| `PayloadRoundTrip.ItemRight` | src/nats_scan.cpp:682-837 | every value that fits is written as a well-formed item that denotes it |
| `PayloadRoundTrip.ItemRightIff` | src/nats_scan.cpp:658-837 | of all values that a column can hold, exactly those whose counts fit their heads at every level, and in CBOR that hold no null, are written as a well-formed item that denotes them |
| `ItemStream.TakeExact` | src/nats_message_decode.cpp:186-218 | on the rest of any payload that is a sequence of items, well-formed or not, the skipper does what skipping does on the items |
| `RowReading.RowIsStream` | src/nats_message_decode.cpp:456-485 | extracting dot-free names from any encoded row, whatever its counts, nulls and nesting, is reading the stream of its items |
| `RowReadBack.ReadsBackIff` | src/nats_scan.cpp:1250-1261 | a row whose counts fit their heads, with any nulls at any level and any nesting, gives back every column's text exactly when the columns that are not read have none; nothing can make up for a column passed over |
| `NullDemands.ReadsBackByValues` | src/nats_scan.cpp:775-837 | the same condition on the row's values alone, for any values whose counts fit: no column has a text that values take along, each CBOR null demanding one item more, down to the depth that is skipped |
| `NullDemands.ReadsBackByCounting` | src/nats_scan.cpp:775-779 | in a row of at most 256 lists, structs and nulls, that is so exactly when no column has a text that is passed over when each null of a column counts for one item, a column for two |
| `NullDemands.NullsInStep` | src/nats_scan.cpp:775-779 | three nulls in a list take the null column and the empty list behind it along, and the number behind these is read |
| `NullDemands.NestedNullSwallows` | src/nats_scan.cpp:775-779 | a null in a list loses the number behind it, although nothing behind the only null column has a text |
| `RowRoundTrip.RoundTripIff` | src/nats_scan.cpp:658-680 | a row of publishable columns, of any number, reads back exactly when those that the head cannot count have no text |
| `RowRoundTrip.RoundTrip` | src/nats_scan.cpp:1250-1261 | encoding a row and extracting its columns by name gives each column's text back, on any mix of the two paths |
| `RowRoundTrip.CborNullIff` | src/nats_scan.cpp:684-689 | a CBOR row with a null column, the columns in front of it being publishable, reads back exactly when nothing behind that null has a text |
| `RowRoundTrip.NullSwallows` | src/nats_scan.cpp:775-779 | a number behind a null is lost |
| `PublishableColumns.SafeIff` | src/nats_scan.cpp:658-837 | for any value in either format, every text behind a column reads back exactly when skipping the column's value takes all of it and nothing else |
| `PublishableColumns.PublishableIff` | src/nats_scan.cpp:658-837 | for any MessagePack value, and any CBOR value whose counts are below 2^32, that is so exactly when the column's counts fit, it is nested at most 256 deep and in CBOR it holds no null |
| `PublishableColumns.WrappedListIsSafe` | src/nats_scan.cpp:669-680 | a CBOR list of 3 * 2^31 elements, two nulls before every boolean, announces 2^31 of them, and every text behind it reads back although it is not publishable |
| `PublishableColumns.LongListLosesRow` | src/nats_scan.cpp:781-802 | of a MessagePack row that begins with a list of 65536 elements, the first a null, nothing is read |
| `TimestampSearch.ResolveTimestampToSequence` | src/nats_scan.cpp:1774-1814 | the loop computes the search function; its answer is a retained message at or after the time, or the sentinel |
| `TimestampSearch.RightIffProbesSafe` | src/nats_scan.cpp:1779-1811 | the answer is the least sequence at or after the time for all non-decreasing times and all targets, if and only if no probe can miss a gap with messages to its left |
| `TimestampSearch.GapFreeSearch` | src/nats_scan.cpp:1774-1814 | over gap-free ranges the answer is the least sequence at or after the time, or the sentinel |
| `TimestampSearch.GapMisses` | src/nats_scan.cpp:1792-1795 | with the middle one of three sequences gone, the first is never found |
| `StreamScan.CountDeletedInRange` | src/nats_scan.cpp:1859-1868 | counts the listed sequences in the range |
| `StreamScan.CountedPlaces` | src/nats_scan.cpp:1859-1868 | that count is the number of places of the list whose sequence lies in the range |
| `StreamScan.CountAvailableInSequenceRange` | src/nats_scan.cpp:1870-1880 | computes the count function for any non-empty range |
| `StreamScan.CountAvailableIff` | src/nats_scan.cpp:1870-1880 | the count is the number of retained messages in the range exactly when none of its deleted sequences is listed twice or it holds nothing |
| `StreamScan.NatsScan.NatsScanExecute` | src/nats_scan.cpp:2008-2287 | one call adds at most a vector of rows, none only when the scan is over, and then all wanted rows have been given |
| `StreamScan.Scan` | src/nats_scan.cpp:1972-2287 | the rows of all calls concatenate to the selected messages of the range, cut at the target count |
| `StreamScan.SelectedIff` | src/nats_scan.cpp:2150-2163 | selected are exactly the delivered messages up to the end whose subject has the wanted text in it, in their order |
| `StreamScan.ScanIff` | src/nats_scan.cpp:1972-1978 | the cut removes nothing exactly when there is a filter, nothing to read, or no deleted sequence listed twice |
| `KvScan.NatsKvScanIncremental` | src/nats_kv.cpp:299-405 | the rows tell, one by one and in order, the delivered messages up to the captured end: key, revision, deletion, purge or value |
| `KvScan.NatsKvScanFullSnapshot` | src/nats_kv.cpp:233-287 | one row for each selected key that is still there, with its value and revision, and no others |
| `KvScan.RowsAreChanges` | src/nats_kv.cpp:345-387 | the rows are the kept, selected changes of the window, with the keys and operations they had |
| `KvScan.IncrementalIff` | src/nats_kv.cpp:299-405 | applying the rows to the snapshot at `since` gives the snapshot at the captured end, under any filter, exactly when every selected key's latest change is kept or is a deletion of nothing |
| `KvScan.QuietScanAgrees` | src/nats_kv.cpp:299-405 | the two scans agree when no write overtakes the read, whatever retention has dropped, as long as it keeps the newest change of each key |
| `KvScan.QuietHistoryAgrees` | src/nats_kv.cpp:299-405 | so they agree under any history limit and any purges when no write overtakes the read |
| `KvScan.HistoryIff` | src/nats_kv.cpp:299-405 | with any history limit and any purges, the two scans agree exactly when every selected key whose changes later writes have pushed out has no change in the window, or only ends it deleted as it began |
| `KvScan.HistoryKeepsLatest` | src/nats_kv.cpp:330-358 | later writes leave a key's latest change in the window or none of its changes there: none exactly when they are as many as the history holds, or purge the key |
| `KvScan.OvertakenScanDisagrees` | src/nats_kv.cpp:352-358 | a put pushed out by later writes makes the scans disagree |
| `DescriptorSet.BuildFiles` | src/nats_proto_schema.cpp:118-144 | ends, builds each file once and after its dependencies, and its outcome is a function of the set of files |
| `DescriptorSet.BuiltIff` | src/nats_proto_schema.cpp:118-144 | it succeeds exactly when every file lies in the least fixpoint of "all dependencies available" |
| `DescriptorSet.SameForPermutations` | src/nats_proto_schema.cpp:118-144 | every order of the files has the same outcome |
| `JobLifecycle.JobManager.FindOrInsert` | src/nats_ingest.cpp:2496-2510 | remembers the job of that name as it is, or inserts one that is the only unfinished job of its name; what a manager keeps is kept |
| `JobLifecycle.JobManager.CheckFinished` | src/nats_ingest.cpp:2512-2527 | a call waits only for a job that has been asked to stop or whose run is over, goes on only past one that has finished, and otherwise throws; for either manager |
| `JobLifecycle.JobManager.Replace` | src/nats_ingest.cpp:2529-2547 | only the job that was found leaves the map, and only finished and not running; a create's own job is then the only unfinished one of its name |
| `JobLifecycle.OneUnfinishedPerName` | src/nats_subscribe.cpp:111-163 | in every interleaving at most one job of a name is unfinished, and it is the one in the map |
| `JobLifecycle.LeavesOnlyFinished` | src/nats_ingest.cpp:2608-2647 | a job leaves the map only when it is not running and its worker has finished |
| `JobLifecycle.RemovedForGood` | src/nats_ingest.cpp:2608-2647 | a remove that returns true has taken out the job it found, finished and not running, and on no continuation of the run is that job in the map again |
| `JobLifecycle.LeftForGood` | src/nats_ingest.cpp:2496-2548 | a job that is not in the map never comes into it, whatever is called afterwards, under any name |
| `JobLifecycle.CreatedAlone` | src/nats_ingest.cpp:2496-2548 | where a create returns, its job is in the map and every other job of the name has finished |
| `JobLifecycle.FinishedForGood` | src/nats_ingest.cpp:2534-2538 | a finished job stays finished while no lock is held, so the second look never fails |
| `JobLifecycle.ReplacedMeanwhile` | src/nats_subscribe.cpp:244-248 | a reachable state in which erasing without finding the same job again would drop an unfinished one |
| `SubscribeWorkers.SubscribeWorker.TakeTurn` | src/nats_subscribe.cpp:867-923 | what each turn does: a stop, a pause and a timeout write the batch or, when that fails, fail the worker; a retry changes nothing; a message joins the batch, which is written when full; so every received message is in the table or the batch, in order, once |
| `SubscribeWorkers.SubscribeWorker.RunSubscribeWorker` | src/nats_subscribe.cpp:847-934 | over any turns, table and batch together are the messages received; behind a timeout, a pause or the end the table has them all unless the worker has failed; it ends only when stopped and fails only on a broken connection or a failed write |

## Left out

- NATS connections, TLS, reconnect callbacks, SQL text, DuckDB binding, status columns (of them, the last delivered sequence is modelled but bounded only) and table functions: plumbing over libraries that are not part of this model.
- Protobuf, FlexBuffers and JSON payloads: their libraries are not part of this model; path lookup in them is direct.
- `flock` process locking: the lease row alone is modelled, which is what fences across processes.
- Creation of the target table: it shares the first batch's transaction, so the table is taken to exist.
- Messages that retention deletes from the stream while a job runs, and messages with sequence 0, which the worker's class treats but the protocol's runs do not contain.
- Text conversion of floats, decimals, dates and other types; a value carries the text or the 64 bits that its path writes, so rounding of floats through text on the value path is not captured, nor is the escaped text of a nested BLOB.
- MessagePack extension types and CBOR indefinite lengths: the readers reject them, and `MsgpackObjects.SkipIff` and `CborObjects.SkipIff` say so; two-byte simple values below 32, which RFC 8949 does not allow, are skipped as others are.
- Keys that are not texts in maps that a requested path goes through, and texts longer than 2^32 - 1 bytes in the round-trip results.
- RowReadBack.ReadsBackIff: rows with a nested list, struct or map whose count does not fit its head are not covered; reading then goes on inside the container, and which of its elements pass for columns has no shorter description than reading them. `PayloadRoundTrip.ItemRightIff` says that such a column is never well-formed, and `PublishableColumns.SafeIff` when it is safe all the same.
- NullDemands.ReadsBackByValues: the same rows are not covered.
- WrittenObjects.MsgpackRow: rows of more than 65535 columns and values whose counts do not fit are not covered; what is written for them is not one object.
- WrittenObjects.CborRow: nor, in CBOR, are nulls, which are written as tags.
- RowRoundTrip.CborNullIff: rows with unpublishable columns in front of the null are not covered, because the condition is another one there; `NullDemands.ReadsBackByValues` gives it.
- PublishableColumns.PublishableIff: CBOR columns with a nested count of 2^32 or more are not covered, because the statement is false of them (`PublishableColumns.WrappedListIsSafe`); `PublishableColumns.SafeIff` covers them.
- Conflicts between two files of a descriptor set: the verdict on a file is taken to depend on the file alone.
- Time to live in key-value buckets, errors of the listing and get calls, and writes between the listing and the gets other than deletions.
- Query cancellation, failing fetches and server-side subject counts in range scans; a subject-filtered scan is a scan of the messages under the subject.
- The 30-second wait, pausing and the status flags of jobs beyond the four that the managers read; flags change freely in the model.
- CborReaders.CborReader.constructor: payloads shorter than 2^63 bytes only, which is what memory holds.
- CborReaders.DecodeCborFieldPathsToChunk: the same bound on the payload.
- IngestWorker.Worker.ProcessBatch: exceptions other than a lost lease are not modelled at this level; in the protocol they are a crash or a release.
- IngestRefinement.Turn: the registry rows that a job writes when it pauses or ends, and its release of the lease, are steps of the protocol but not calls of the object.
- PrefetchSource.PrefetchConserves: up to a stop or an error of the transport, after which the source is discarded.

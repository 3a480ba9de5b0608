# A verified model of the BlueEconomy data platform

This project models, in Dafny, the logic of the platform's lakehouse pipeline and proves what it
promises: that consumed messages are never lost, that tables keep their identities, that tracks,
geometries and canonical texts keep their meaning, and that retention, statistics and clearance
filtering do exactly what they say. `dafny verify dfyconfig.toml` checks all of it.

## The parts

| files | what they model |
|---|---|
| `Wrappers.dfy`, `ByteStrings.dfy`, `Sequences.dfy`, `Ordering.dfy` | options, outcomes, bytes, sequences, and Python's stable `sorted` |
| `DeltaRows.dfy`, `AppendProtocol.dfy` | the insert-only merge of `append_rows`: rows, one call as atomic steps, any number of calls interleaved, and the call as code over a mutable table |
| `DeadLetter.dfy`, `IngestBatch.dfy`, `IngestProtocol.dfy`, `IngestCode.dfy`, `IngestRun.dfy` | dead-letter identity and sink; the consumer as a state machine that may crash between any two steps; its collecting and committing loops; one whole run as code, shown to be a run of the state machine |
| `Planar.dfy`, `Chords.dfy`, `Rdp.dfy`, `Track.dfy`, `Segmentation.dfy`, `Trajectories.dfy` | what the segment intersection test decides, distances to a chord, Ramer-Douglas-Peucker with an explicit stack, the simplification guard, gap segmentation in its two forms, trajectory assembly, the rows by their observations |
| `DecimalDigits.dfy`, `Decimals.dfy`, `JcsNumbers.dfy`, `JcsDoubles.dfy`, `JcsText.dfy`, `Jcs.dfy`, `JcsMeaning.dfy`, `JcsForm.dfy` | decimal literals; doubles and their shortest digits; canonical JSON (RFC 8785, sections 3.2.2 and 3.2.3) with a reader that inverts it; what equal texts mean; what a text looks like |
| `Signing.dfy`, `SigningForm.dfy`, `SigningLibrary.dfy` | provenance signatures in the compact form of section 7.1 of RFC 7515; which envelopes are accepted, by contents; a library that meets what the theorems rely on |
| `Wkt.dfy`, `WktParser.dfy`, `WktRoundTrip.dfy`, `WktForm.dfy`, `Wkb.dfy`, `WkbForm.dfy` | Well-Known Text printers, tokenizer and parser, Well-Known Binary and its reader, bounding boxes; the texts character by character and the bytes position by position |
| `RetentionPlan.dfy`, `Retention.dfy` | the retention policy, the plan, and its enforcement under a lifted append-only flag |
| `RingParity.dfy`, `Geofences.dfy`, `RingGeometry.dfy` | ring parity over GeoJSON rings (section 3.1.6 of RFC 7946), polygons with holes, validation; containment in coordinates |
| `Quantiles.dfy`, `GateScans.dfy`, `GatePassages.dfy`, `Periods.dfy`, `PortCalls.dfy`, `KpiRows.dfy` | type-7 quantiles, gate pairing and the passages it finds, UTC months, port-call folds, value-row emission |
| `Clearances.dfy`, `Consignments.dfy`, `ConsignmentForm.dfy` | clearance levels, consignment assembly, filtering by clearance, the records by their events |

Code that changes things step by step is modelled by methods and classes, each proved against a
function or predicate that says what it must do; the theorems are about those. The central functions are
in turn pinned by statements that do not name them: cells, bytes, characters, coordinates, ages and
literal constants.

## Conventions

* Other writers, brokers, faults and crashes are arbitrary: they are steps of the environment, scripted
  parameters over which every theorem quantifies, or nondeterministic outcomes.
* Hashes are taken to be injective, so an id stands for the text it is hashed from. Signatures, base64url,
  UTF-8 and `json.loads` are functions with the assumptions written in `Signing.Correct`
  (met by `SigningLibrary.Sample`).
* Arithmetic is exact: integers and reals. Times are microseconds. Distances are compared squared.
* A floating-point number enters canonical JSON as its shortest digits, and WKB as its 64 bits. Numbers of JSON
  values are compared as the decimals they print: an integer exactly, a float by its shortest digits. What a
  float's shortest digits are is defined in `JcsDoubles`, for any rounding to nearest.
* A table merge is one atomic step, separate from the checks before and after it; polling within a
  partition is in order and without gaps from the committed offset.
* `Config.decode` is one function over all restarts, although the key directory it reads may change between them.

## What the model found

* `append_rows` does not check key uniqueness inside a batch; a repeated key is stored twice
  (`DeltaRows.RepeatedKeyIsStoredTwice`).
* The docstring of `simplify_preserving_topology` says a line that changes the track's topology is never returned.
  The guard looks at the simplified line only: a track that crosses itself can come back as a straight line
  (`Track.CrossingBecomesStraight`). Crossing or not is kept exactly for tracks that do not cross and for those of
  which all eight attempts fail the guard (`Track.TopologyKeptIff`); no crossing is ever added
  (`Track.NoCrossingAppears`).
* The docstring of `is_simple_line` names proper self-intersections; the sign test also reports segments that
  touch with an end of each to the left of the other, so a closed triangle is simple in one direction only
  (`Planar.TriangleDependsOnDirection`, with the exact condition in `Planar.SimpleIff`).
* The Sedona job casts times to whole seconds. It numbers the segments like the reference path exactly when no gap
  changes sides of the threshold by that (`Segmentation.JobNumbersSegments`), as on whole-second times; otherwise
  the two differ (`Segmentation.FractionsOfSecondsDiffer`), the job only joining when the threshold is in whole
  seconds (`Segmentation.JobOnlyJoins`).
* An integer prints like the float of the same value up to 2^53, and beyond that exactly when its digits are the
  float's shortest (`JcsDoubles.IntegersPrintAsDoubles`); 2^60 prints otherwise
  (`JcsDoubles.BigIntegerPrintsOtherwise`).
* Member order of canonical JSON is independent of insertion order exactly when no two names share their
  UTF-16 form; a lone-surrogate pair and the character it spells do (`JcsMeaning.SurrogatePairTies`).
* The append-only flag is back after every exit of a retention run unless restoring it is the operation that
  failed; an applied run with an expired key shared across days or tiers always stops with an error, having
  removed only expired rows.
* The docstring of `assemble_port_call_facts` says fields take their most recent non-null value; they take that of
  the last row that carries them (`PortCalls.FieldsAreLastInRowOrder`), which is the most recent for all contents
  exactly when that row is (`PortCalls.FieldIsMostRecentIff`), as when events come in order
  (`PortCalls.EventOrderSuffices`). `PortCalls.LateRowOverwritesField` shows an input where it is not. Status is
  right in every row order.
* December 9999 is no parseable period, so calls attributed to it are facts of no month
  (`Periods.SomePeriodIff`).
* Observations without a port code are dropped as soon as any port code is seen
  (`KpiRows.RowsOfObservation`, `KpiRows.PortlessObservations`).

## Model

| member | source | states |
|---|---|---|
| DeltaRows.BatchGuardColumns | src/blueeconomy_data_platform/ingest.py:390-399 | Guard columns exist exactly for a non-empty batch whose rows share one column shape, and are then the columns of every row. |
| DeltaRows.GuardColumnsAre | src/blueeconomy_data_platform/ingest.py:385-399 | The guard columns are the columns of the cells, in order, but for ingested_at, promoted_at, record_classification, executed_at and computed_at. |
| DeltaRows.LookupShows | src/blueeconomy_data_platform/ingest.py:419 | A row's value of a column is that of the first cell of the column, null when it has none. |
| DeltaRows.Existing | src/blueeconomy_data_platform/ingest.py:411-416 | The retained row a key is compared with: absent exactly when no row has the key, else a retained row of that key. |
| DeltaRows.ReplayCheckMeaning | src/blueeconomy_data_platform/ingest.py:406-425 | The replay check passes if and only if the batch has one shape and no retained row of a batch key differs from the batch row on a guard column. |
| DeltaRows.RejectConflictingReplays | src/blueeconomy_data_platform/ingest.py:406-425 | The conflict-gathering loop, by cells: an empty batch and one of several shapes raise; else it raises a conflict exactly when the last retained row of a batch key has another value than the batch row in a column that is none of the five excluded ones, and names exactly those keys. |
| DeltaRows.ReplayCheckByCells | src/blueeconomy_data_platform/ingest.py:390-425 | The replay check said by cells, without guard columns or look-ups, for every table and batch. |
| DeltaRows.CheckedAndPresentIsSettled | src/blueeconomy_data_platform/ingest.py:483-489 | A check that passes while all keys are present means every batch row is retained with equal guard columns. |
| DeltaRows.MergeUniqueKeys | src/blueeconomy_data_platform/ingest.py:472-481 | After the merge keys are unique if and only if they were and the inserted rows' keys are; the keys are those of both; key-unique batches keep uniqueness. |
| DeltaRows.MergeInsertsNothing | src/blueeconomy_data_platform/ingest.py:472-481 | The merge inserts nothing if and only if every key of the batch is retained already. |
| DeltaRows.RepeatedKeyIsStoredTwice | src/blueeconomy_data_platform/ingest.py:428-493 | Key uniqueness within a batch is the caller's duty: some batch that repeats a key stores both rows. |
| AppendProtocol.CallStepKeeps | src/blueeconomy_data_platform/ingest.py:466-493 | Each atomic step of a call keeps unique keys, only appends rows, and keeps the call's own bookkeeping of inserted rows. |
| AppendProtocol.StepKeepsInv | src/blueeconomy_data_platform/ingest.py:428-493 | A step of any one of many concurrent calls keeps the invariant of all of them, and the table grows by what the calls inserted. |
| AppendProtocol.InterleavedCalls | src/blueeconomy_data_platform/ingest.py:428-493 | Over every interleaving of any number of calls with key-unique batches: keys stay unique, retained rows stay, each returned call has its whole batch retained with equal guard columns and written + already present = batch size, and all insertions (also of calls that raise later) add up to the table's growth. |
| AppendProtocol.RetainedRowsNeverChange | src/blueeconomy_data_platform/ingest.py:428-493 | A row retained at one point of a run is retained at every later point and stays the only row of its key. |
| AppendProtocol.RepeatedCallWritesNothing | src/blueeconomy_data_platform/ingest.py:436-442 | A call whose keys are all retained when it starts inserts nothing, however it is interleaved, and if it returns reports zero written. |
| AppendProtocol.InterleavedCall | src/blueeconomy_data_platform/ingest.py:428-493 | One call among arbitrary other writers: returned means settled and counted, raised means at most the batch was inserted, and rows only grow. |
| AppendProtocol.DeltaTable.CommitMerge | src/blueeconomy_data_platform/ingest.py:472-482 | The atomic merge appends exactly the rows whose keys are absent and reports their number. |
| AppendProtocol.DeltaTable.Attempt | src/blueeconomy_data_platform/ingest.py:466-493 | One pass of the retry loop, with other writers before the check, the merge and the verification, is a sequence of protocol steps. |
| AppendProtocol.DeltaTable.MergeAndVerify | src/blueeconomy_data_platform/ingest.py:472-489 | Merge and second check are protocol steps; the counts returned are written and batch size minus written. |
| AppendProtocol.DeltaTable.AppendRows | src/blueeconomy_data_platform/ingest.py:428-493 | Every state `append_rows` passes through is a protocol step or another writer's merge; on return every batch row is retained without difference in a content cell; a conflict is raised only if a retained row contradicts the batch in one. Without other writers: creation of a missing table, an error by the exact reason, or the rows with absent keys appended and counted, unless three commits fail, which changes nothing; three failing commits are what CommitFailed means. |
| AppendProtocol.CallOutcome | src/blueeconomy_data_platform/ingest.py:428-493 | For key-unique tables and batches, under any interleaving: a returned call has its rows retained cell by cell and none of them contradicted by a row retained before; a conflict names keys of which a retained row contradicts the batch. |
| AppendProtocol.AloneCall | src/blueeconomy_data_platform/ingest.py:428-493 | A call that meets no other writer does exactly what its contents say: no row, missing table, flag, shapes, contradictions, new keys. |
| DeadLetter.KeyMaterialInjective | src/blueeconomy_data_platform/dlq.py:88-98 | For valid topic names the text the DLQ id is hashed from determines topic, partition, offset and reason. |
| DeadLetter.ValidTopicIff | src/blueeconomy_data_platform/kafka_ingest.py:48 | A topic name is valid exactly as 1 to 249 letters, digits, dots, underscores and hyphens, a letter or digit first. |
| DeadLetter.SlashInTopicIsAmbiguous | src/blueeconomy_data_platform/dlq.py:95-97 | With a slash in a topic name two different messages would share one id text. |
| DeadLetter.BuiltRecord | src/blueeconomy_data_platform/dlq.py:76-98 | A record holds the topic, partition, offset and reason of its message, and the message's bytes: all of them up to 2,097,152, the first 2,097,152 of a longer one, none of a message without value. |
| DeadLetter.DeadLetterQueue.Quarantine | src/blueeconomy_data_platform/dlq.py:119-177 | Topic first, then table. Success means that both hold a record with this topic, partition, offset, reason and the message's bytes; a produce or an append that fails may have landed all the same, and an unconfirmed produce leaves the table alone. |
| DeadLetter.DeadLetterQueue.AppendQuarantineRow | src/blueeconomy_data_platform/dlq.py:179-208 | A retained id is success without a write; otherwise the row is appended, or the append raises before or after inserting it. |
| IngestBatch.TotalCountsOneMore | src/blueeconomy_data_platform/kafka_ingest.py:283 | Counting a poison message under its reason raises the total of the reason counts by exactly one. |
| IngestBatch.ReasonIff | src/blueeconomy_data_platform/kafka_ingest.py:269-273 | A rejection is counted under duplicate-event-id exactly when its text contains the words repeats event_id, else under its own code. |
| IngestProtocol.PollAccepts | src/blueeconomy_data_platform/kafka_ingest.py:264-268 | Accepting a decodable, unrepeated message keeps the invariant. |
| IngestProtocol.PollRejects | src/blueeconomy_data_platform/kafka_ingest.py:269-281 | Moving past a poison message before it is quarantined keeps the invariant, which remembers the hole. |
| IngestProtocol.ProduceKeeps | src/blueeconomy_data_platform/dlq.py:155-167 | Producing the record to the DLQ topic keeps the invariant. |
| IngestProtocol.QuarantineKeeps | src/blueeconomy_data_platform/dlq.py:168-208 | Inserting the record into the quarantine table under its id keeps the invariant: the message is then quarantined for good. |
| IngestProtocol.AppendKeeps | src/blueeconomy_data_platform/kafka_ingest.py:449-452 | A step of the bronze append keeps the invariant. |
| IngestProtocol.AppendedKeeps | src/blueeconomy_data_platform/kafka_ingest.py:449-457 | When the append has returned, every message up to the collected offsets is kept, which is what committing needs. |
| IngestProtocol.EndCollectKeeps | src/blueeconomy_data_platform/kafka_ingest.py:449-456 | Ending collection keeps the invariant, the all-poison batch included. |
| IngestProtocol.CommitKeeps | src/blueeconomy_data_platform/kafka_ingest.py:336-361 | Committing one partition keeps the invariant. |
| IngestProtocol.StepKeeps | src/blueeconomy_data_platform/kafka_ingest.py:252-293 | Every step of consumer, producer or other writers, crashes included, keeps the invariant and never lowers a committed offset or removes a record. |
| IngestProtocol.EveryRunIsSafe | src/blueeconomy_data_platform/kafka_ingest.py:424-457 | In every run with crashes and restarts between any steps, each message below a committed offset is retained in bronze without difference in a content cell, or stands with its partition, offset, reason and bytes in both the DLQ topic and the quarantine table (a repeated event under duplicate-event-id, its id in bronze); bronze keys are unique; a completed run has received = written + already present + quarantined. |
| IngestProtocol.RunsOnlyAdd | src/blueeconomy_data_platform/kafka_ingest.py:336-361 | Along a run committed offsets never go down and every message that was kept, by contents, stays kept. |
| IngestProtocol.KeptIsByContent | src/blueeconomy_data_platform/kafka_ingest.py:264-281 | Kept means by contents: the row's cells, or the record's fields and bytes. |
| IngestProtocol.QuarantinedOnce | src/blueeconomy_data_platform/dlq.py:179-184 | Over all crash replays the quarantine table has at most one row per topic, partition, offset and reason. |
| IngestCode.CollectMessages | src/blueeconomy_data_platform/kafka_ingest.py:240-293 | The polling loop over any sequence of polls computes exactly the batch, the DLQ topic and table, and the error that the step function gives. |
| IngestCode.CollectedCounts | src/blueeconomy_data_platform/kafka_ingest.py:264-289 | Collected event ids are distinct, every collected message is an event or counted under a reason, and the bound is kept. |
| IngestCode.CollectsDelivered | src/blueeconomy_data_platform/kafka_ingest.py:252-293 | Collection that ends without error has collected exactly the delivered messages in order, up to the bound. |
| IngestRun.CollectOneIsProtocolSteps | src/blueeconomy_data_platform/kafka_ingest.py:264-290 | One turn of the polling loop, failing ones included, is a run of the protocol that ends down after an error. |
| IngestRun.CollectFromIsRun | src/blueeconomy_data_platform/kafka_ingest.py:252-293 | For polls in order from where collection starts, the whole loop is a run of the protocol to exactly the batch, topic, table and error of the loop. |
| IngestRun.AppendIsRun | src/blueeconomy_data_platform/kafka_ingest.py:449-452 | The trace of an append call, other writers' merges included, is a run of the consumer. |
| IngestRun.CommitsAreRun | src/blueeconomy_data_platform/kafka_ingest.py:345-361 | The commits of any lower set of the pending partitions, in order, are a run that leaves exactly their offsets committed. |
| IngestRun.RunKeeps | src/blueeconomy_data_platform/kafka_ingest.py:424-457 | A run from any state that satisfies the invariant ends in one and only adds. |
| IngestRun.Ingest | src/blueeconomy_data_platform/kafka_ingest.py:428-457 | One run as code, from collecting to the report, is a run of the protocol on the objects it changes and ends finished with the returned report, or down after any error; so if the invariant held before it holds after, and every message below a committed offset is kept by contents. A run that finishes received the delivered messages up to the bound, at least one, committed past each of them, and counted them as written, already present or quarantined. |
| IngestCode.LatestMessages | src/blueeconomy_data_platform/kafka_ingest.py:338-344 | The dictionary loop holds the last message of each partition. |
| IngestCode.CommitMessages | src/blueeconomy_data_platform/kafka_ingest.py:336-361 | Commits go partition by partition in order: success exactly when none is unconfirmed, with offset + 1 each, which is past every message when offsets rise; a failure at one partition leaves exactly the lower ones committed, and that one if it landed. |
| IngestCode.CommitsPast | src/blueeconomy_data_platform/kafka_ingest.py:338-344 | When offsets rise within each partition, the offsets to commit are beyond every message collected. |
| RdpTheory.ScanIsFarthest | src/blueeconomy_data_platform/vessel_lakehouse.py:329-334 | The scan finds the first interior index at the greatest distance, and that distance. |
| RdpTheory.PathChords | src/blueeconomy_data_platform/vessel_lakehouse.py:314-339 | Every point the recursive definition drops is within tolerance of the chord between its nearest kept neighbours. |
| RdpTheory.KeptProperties | src/blueeconomy_data_platform/vessel_lakehouse.py:314-339 | The kept indices ascend, start at the first and end at the last point, and satisfy the chord bound. |
| RdpTheory.PathIsInner | src/blueeconomy_data_platform/vessel_lakehouse.py:335-338 | The kept indices are the first index and the set of interior split points, which the marking order does not matter for. |
| RdpTheory.PushTwo | src/blueeconomy_data_platform/vessel_lakehouse.py:335-338 | Splitting an interval lowers the stack measure (the sum of 2 * length - 1) and keeps the set of points still due. |
| Chords.SquaredOffsetNonNegative | src/blueeconomy_data_platform/vessel_lakehouse.py:296-311 | The squared distance to the infinite chord line, or to the point when the chord is degenerate, is never negative. |
| Chords.OffsetIsLeast | src/blueeconomy_data_platform/vessel_lakehouse.py:296-311 | The offset is at most the squared distance from the point to any point of the chord's line; for equal ends that is the distance to them. |
| Chords.OffsetIsReached | src/blueeconomy_data_platform/vessel_lakehouse.py:296-311 | and it is the squared distance to one of them. |
| Chords.NearLineIff | src/blueeconomy_data_platform/vessel_lakehouse.py:296-311 | A squared offset of at most the squared distance means a point of the line within the distance. |
| RdpTheory.PathSplits | src/blueeconomy_data_platform/vessel_lakehouse.py:327-338 | Every kept interior point was beyond the limit of two kept points around it. |
| Track.FindFarthest | src/blueeconomy_data_platform/vessel_lakehouse.py:327-334 | The inner loop returns the farthest index and distance of the definition. |
| Track.RdpSimplify | src/blueeconomy_data_platform/vessel_lakehouse.py:314-339 | The explicit-stack loop terminates and returns exactly the recursive definition's points; it raises exactly for a non-positive tolerance. For the metric of the code, in coordinates: every dropped point is within the tolerance of a point on the line of its kept neighbours. |
| Track.MarkKept | src/blueeconomy_data_platform/vessel_lakehouse.py:320-338 | The stack loop marks in place exactly the indices the recursive definition keeps. |
| Track.Selected | src/blueeconomy_data_platform/vessel_lakehouse.py:339 | Zipping with the marks picks the kept points in order. |
| Planar.SegmentsIntersectIff | src/blueeconomy_data_platform/vessel_lakehouse.py:346-357 | The sign test reports exactly the segments that share a point and each have an end strictly left of the other; so every proper crossing, and only those when no end lies on the other's line. |
| Planar.SimpleIff | src/blueeconomy_data_platform/vessel_lakehouse.py:360-371 | The guard accepts exactly the lines without such a touch. That agrees with the absence of proper self-intersections, which its docstring names, exactly for lines that do cross properly or do not touch so. |
| Planar.SimpleInGeneralPosition | src/blueeconomy_data_platform/vessel_lakehouse.py:360-371 | The docstring holds when no end of a segment lies on the line through another. |
| Planar.TriangleDependsOnDirection | src/blueeconomy_data_platform/vessel_lakehouse.py:346-371 | A closed triangle has no proper self-intersection, yet is a simple line exactly when it is not walked counter-clockwise. |
| Track.IsSimpleLine | src/blueeconomy_data_platform/vessel_lakehouse.py:360-371 | The two loops decide whether any two segments that share no end pass the sign test, which `Planar.SimpleIff` explains; true below four points. |
| Track.MatchIndices | src/blueeconomy_data_platform/vessel_lakehouse.py:389-396 | The re-matching loop computes the greedy match. |
| Track.GreedyMatchFinds | src/blueeconomy_data_platform/vessel_lakehouse.py:389-397 | Greedy re-matching of any picked subsequence never fails: it finds ascending indices with the same coordinates, none later than picked. |
| Track.GreedyMatchExact | src/blueeconomy_data_platform/vessel_lakehouse.py:389-397 | Greedy re-matching gives back the picked indices if and only if no coordinate of a picked point occurs again between the previous picked point and it. |
| Track.RdpPicks | src/blueeconomy_data_platform/vessel_lakehouse.py:387 | A simplified line is a pick of ascending indices from first to last, within tolerance. |
| Track.RdpInCoordinates | src/blueeconomy_data_platform/vessel_lakehouse.py:314-339 | In coordinates: the result is an ascending choice from first to last, every point between two neighbours is within the tolerance of their line, and every kept point but the ends is not within it of the line of two kept points around it. |
| Track.SimplifyPreservingTopology | src/blueeconomy_data_platform/vessel_lakehouse.py:374-399 | For every track and tolerance the result is the earliest ascending choice of points whose coordinates are an RDP result with at most two points or a simple line, at the first accepted halving; otherwise, after all retries, the whole input. |
| Track.ResultWithinTolerance | src/blueeconomy_data_platform/vessel_lakehouse.py:374-399 | In coordinates, for every track and tolerance: the result is the whole track or such a choice at the tolerance halved fewer than eight times. |
| Track.ResultCrossesIff | src/blueeconomy_data_platform/vessel_lakehouse.py:374-399 | The result fails the guard exactly when the track has more than two points, fails it itself, and all eight tolerances are rejected. |
| Track.SimpleStaysSimple | src/blueeconomy_data_platform/vessel_lakehouse.py:378-381 | A track that passes the guard never gets a line that does not. |
| Track.NoCrossingAppears | src/blueeconomy_data_platform/vessel_lakehouse.py:378-381 | A track without a proper self-intersection never gets a line that has one, whatever the guard makes of the track. |
| Track.TopologyKeptIff | src/blueeconomy_data_platform/vessel_lakehouse.py:378-381 | The documented promise that topology is never changed has its exact condition: crossing or not, by the guard as well as properly, is kept if and only if the track does not cross or all eight attempts fail the guard. |
| Track.CrossingBecomesStraight | src/blueeconomy_data_platform/vessel_lakehouse.py:384-398 | The promise fails on the accepted branch: at tolerance five a four-point track that properly crosses itself comes back as a straight line. |
| Track.FallbackCanCross | src/blueeconomy_data_platform/vessel_lakehouse.py:399 | Below a tolerance of one the same track is rejected at every halving and comes back whole, with its crossing. |
| Segmentation.SegmentsSplit | src/blueeconomy_data_platform/vessel_lakehouse.py:402-416 | The segmentation loses and moves nothing, has no gap above the threshold inside a segment and one between segments. |
| Segmentation.GapSplitUnique | src/blueeconomy_data_platform/vessel_lakehouse.py:402-416 | There is exactly one split with these properties. |
| Segmentation.SegmentTrack | src/blueeconomy_data_platform/vessel_lakehouse.py:402-416 | The loop returns that split, and raises exactly for a non-positive threshold. |
| Segmentation.JobNumbersSegments | jobs/vessel_trajectory_silver.py:129-143 | The job's lag, flag and running sum number every position by the segment that holds it if and only if every gap is on the same side of the threshold before and after its ends are truncated to seconds. |
| Segmentation.WholeSecondsAgree | jobs/vessel_trajectory_silver.py:134-143 | So they do on whole-second times, whatever the threshold. |
| Segmentation.JobOnlyJoins | jobs/vessel_trajectory_silver.py:134-143 | For a threshold in whole seconds the job starts a segment only where the reference does, so its numbers are never higher. |
| Segmentation.FractionsOfSecondsDiffer | jobs/vessel_trajectory_silver.py:134-139 | With fractions of a second the job joins two points 7200.5 seconds apart at a threshold of two hours, and with a threshold of 0.7 seconds splits two points half a second apart; the reference does neither. |
| Segmentation.DropDuplicates | src/blueeconomy_data_platform/vessel_lakehouse.py:456-467 | The loop keeps the points without adjacent repetitions and counts the rest. |
| Segmentation.DedupCommutes | src/blueeconomy_data_platform/vessel_lakehouse.py:458-468 | Dropping duplicates before segmentation equals dropping them within each segment. |
| Segmentation.GroupTracks | src/blueeconomy_data_platform/vessel_lakehouse.py:437-450 | The dictionary holds per vessel exactly its points in reading order. |
| Segmentation.ObservationsConserved | src/blueeconomy_data_platform/vessel_lakehouse.py:454-486 | Per vessel, the point counts of all segments plus the dropped duplicates are the observations. |
| Segmentation.InputOrderIrrelevant | src/blueeconomy_data_platform/vessel_lakehouse.py:455 | With distinct (time, id) keys a vessel gets the same segments and dropped count for every order of the rows read. |
| Segmentation.SimplifySegment | src/blueeconomy_data_platform/vessel_lakehouse.py:469 | A segment is simplified as the topology guard promises. |
| Segmentation.SegmentRows | src/blueeconomy_data_platform/vessel_lakehouse.py:468-506 | One row per segment with its first and last event, counts and simplification, numbered in order. |
| Segmentation.AssembleVessel | src/blueeconomy_data_platform/vessel_lakehouse.py:455-506 | The rows of a vessel are those of its sorted, de-duplicated and split track. |
| Segmentation.AssembleTrajectories | src/blueeconomy_data_platform/vessel_lakehouse.py:424-507 | The rows of all vessels, vessel by vessel in the order of their numbers, each as its track requires. |
| Trajectories.AssembledAreTrajectories | src/blueeconomy_data_platform/vessel_lakehouse.py:424-507 | By contents: for each observed vessel, in the order of their numbers, its observations by time and event id, without points that repeat time and place of the one before, cut where a step in time exceeds the threshold and nowhere else, each piece simplified within the tolerance, numbered from 0, with the number of dropped points. |
| Trajectories.DedupKeepsNew | src/blueeconomy_data_platform/vessel_lakehouse.py:456-467 | The points kept are exactly those that differ from the one before in time, longitude or latitude. |
| Trajectories.SortedTrack | src/blueeconomy_data_platform/vessel_lakehouse.py:437-455 | The sorted track is in order of time and event id and has exactly the vessel's observations. |
| Segmentation.AssemblyIgnoresRowOrder | src/blueeconomy_data_platform/vessel_lakehouse.py:424-507 | With distinct (time, id) keys per vessel, the whole table of rows, simplified lines included, is the same for every order of the observations read. |
| JcsNumbers.LayoutsDenote | src/blueeconomy_data_platform/jcs.py:91-102 | All four number layouts denote digits * 10^exponent. |
| JcsNumbers.LiteralOfShortest | src/blueeconomy_data_platform/jcs.py:105-121 | The digits read back from a layout by stripping zeros are the shortest digits it was made from. |
| JcsNumbers.EcmaTextReads | src/blueeconomy_data_platform/jcs.py:84-102 | The printed form of every shortest decimal, and so of every double, reads back as that decimal. |
| JcsNumbers.DecimalOfValue | src/blueeconomy_data_platform/jcs.py:71-78 | The decimal of an integer denotes it. |
| JcsNumbers.IntegerText | src/blueeconomy_data_platform/jcs.py:70-78 | The text of an integer that prints at all is the layout of its own shortest decimal. |
| JcsDoubles.ShortestOfSafe | src/blueeconomy_data_platform/jcs.py:105-121 | For every rounding to nearest, an integer up to 2^53 is a double whose shortest digits are the integer's own, and no other decimal is shortest for it. |
| JcsDoubles.IntegersPrintAsDoubles | src/blueeconomy_data_platform/jcs.py:70-81 | An integer prints like the float nearest to it if and only if its digits are the shortest digits of that float, as they are up to 2^53. |
| JcsDoubles.BigIntegerPrintsOtherwise | src/blueeconomy_data_platform/jcs.py:70-81 | The integer 2^60 is a double, but its text is not that of the float, which has at most sixteen digits before its zeros. |
| JcsDoubles.RoundingExists | src/blueeconomy_data_platform/jcs.py:105-121 | There is a rounding of all numbers to a nearest double, as the statements about floats assume. |
| JcsNumbers.NumberTextReads | src/blueeconomy_data_platform/jcs.py:70-81 | A number's text reads back as the decimal it prints (an integer exactly, a float by its shortest digits) and is the text of that decimal. |
| Decimals.ShortestDigitsValue | src/blueeconomy_data_platform/jcs.py:105-121 | Shortest digits denote the number of the literal and have no outer zeros. |
| Decimals.DecimalValueInjective | src/blueeconomy_data_platform/jcs.py:105-121 | Decimals in shortest form are equal exactly when they denote the same number. |
| JcsText.StringReads | src/blueeconomy_data_platform/jcs.py:62-67 | Reading an escaped string gives the string back, whatever follows it. |
| JcsText.ByteOrderIsUnitOrder | src/blueeconomy_data_platform/jcs.py:55-59 | Comparing big-endian bytes is comparing UTF-16 code units. |
| JcsText.Utf16Injective | src/blueeconomy_data_platform/jcs.py:55-59 | Names without surrogates have distinct UTF-16 forms. |
| JcsText.TiedKeys | src/blueeconomy_data_platform/jcs.py:43-59 | Two names tie in the sort exactly when their UTF-16 forms are equal. |
| JcsText.KeyOrder | src/blueeconomy_data_platform/jcs.py:43-59 | The member order is a total preorder. |
| JcsText.UnitsMeaning | src/blueeconomy_data_platform/jcs.py:55-59 | The UTF-16 units of a character: itself up to 0xFFFF, beyond that a high and a low surrogate that stand for it. |
| JcsText.KeyLeByUnits | src/blueeconomy_data_platform/jcs.py:55-59 | A name comes before another when its UTF-16 units are a prefix of the other's or smaller at the first place where they differ. |
| JcsForm.CanonicalizesIff | src/blueeconomy_data_platform/jcs.py:24-78 | A value has a canonical text exactly when at every depth its integers are below 10^21 in magnitude, its floats finite, and nothing in it is no JSON value. |
| JcsForm.CanonicalNamesAscend | src/blueeconomy_data_platform/jcs.py:43-50 | Read back, the canonical text of any value has in every dictionary, at every depth, its names in ascending order of UTF-16 units, said by positions. |
| JcsForm.EscapedForms | src/blueeconomy_data_platform/jcs.py:62-67 | Quote, backslash and control characters are escaped, by the short form if they have one, else by u00 and two lower-case digits; every other character stands for itself. |
| JcsForm.PlainString | src/blueeconomy_data_platform/jcs.py:62-67 | A text without quotes, backslashes and control characters stands between quotes as it is. |
| JcsForm.Words | src/blueeconomy_data_platform/jcs.py:29-35 | null, true, false, [] and {} are written so. |
| JcsForm.ArrayText | src/blueeconomy_data_platform/jcs.py:39-42 | Items stand between brackets, separated by commas without blanks. |
| JcsForm.ObjectText | src/blueeconomy_data_platform/jcs.py:43-52 | Members stand between braces, separated by commas, each a quoted name, a colon and the value. |
| JcsForm.LayoutForm | src/blueeconomy_data_platform/jcs.py:84-102 | Numbers from 10^-6 up to 10^21 are written without exponent, with a point only when they are not whole; all others as one digit, the others after a point, and a signed exponent. |
| JcsForm.SignedText | src/blueeconomy_data_platform/jcs.py:84-102 | Zero is 0; a negative number is its magnitude after a minus. |
| Ordering.TextLeByPositions | src/blueeconomy_data_platform/jcs.py:43-50 | The order of texts, by positions: a prefix, or the smaller character at the first place where they differ. |
| Jcs.WrittenReads | src/blueeconomy_data_platform/jcs.py:29-52 | The written text of any value reads back as the value with every number as the decimal it prints, whatever delimiter follows. |
| Jcs.InOrderWellFormed | src/blueeconomy_data_platform/jcs.py:43-50 | Ordering members keeps dictionaries free of repeated names. |
| Jcs.CanonicalTextLoads | src/blueeconomy_data_platform/jcs.py:24-52 | Canonical JSON has a left inverse: a reader that keeps every number as the decimal in the text gives the canonical value back, whatever the value. |
| JcsMeaning.EqualOrderedIsSame | src/blueeconomy_data_platform/jcs.py:24-52 | Values with equal canonical forms are the same JSON value, numbers compared by the decimals they print. |
| JcsMeaning.SameIsEqualOrdered | src/blueeconomy_data_platform/jcs.py:24-52 | The same JSON value has one canonical form when no names of a dictionary tie. |
| JcsMeaning.SerializeEqualIffSame | src/blueeconomy_data_platform/jcs.py:24-52 | Equal canonical texts mean equal values, always, and equal values have equal texts when names do not tie. Numbers are equal when they print the same decimal: the int 2^60 and the float 2^60 are not. |
| JcsMeaning.UnicodeNamesAreClear | src/blueeconomy_data_platform/jcs.py:55-59 | Names without lone surrogates never tie. |
| JcsMeaning.OrderImmaterialIffDistinctUnits | src/blueeconomy_data_platform/jcs.py:43-50 | The insertion order of a dictionary is immaterial if and only if no two of its names share their UTF-16 form. |
| JcsMeaning.SurrogatePairTies | src/blueeconomy_data_platform/jcs.py:55-59 | A surrogate pair written as two code points and the character it spells are two names whose order does matter. |
| Signing.EnvelopeSignatureVerifier.Verify | src/blueeconomy_data_platform/signature_verification.py:157-167 | The outcome is that of the verification rules, and exactly the one counter it names goes up by one. |
| Signing.EnvelopeSignatureVerifier.Check | src/blueeconomy_data_platform/signature_verification.py:169-239 | The checks in code order give exactly the specified outcome. |
| SigningForm.AcceptedIff | src/blueeconomy_data_platform/signature_verification.py:169-239 | An envelope is accepted under a kid exactly when provenance.signature joins three base64url texts by dots, the first decodes to a JSON object with alg EdDSA and this kid, of 1 to 256 letters, digits, dots, hyphens and underscores, the directory has a key for it, the second decodes to the canonical text of the envelope without its signature, and the third to a signature by that key over the first two. |
| SigningForm.LegibleOutcome | src/blueeconomy_data_platform/signature_verification.py:189-239 | The reason of a rejection, by contents: another or no alg, a missing or malformed kid, a kid the directory lacks, another payload, a false signature, in this order. |
| SigningForm.IllegibleOutcome | src/blueeconomy_data_platform/signature_verification.py:169-207 | Every envelope without such a signature text and header object is malformed. |
| SigningForm.HeaderIs | src/blueeconomy_data_platform/signature_verification.py:197-214 | A header is accepted exactly as an object that names EdDSA and a well-formed kid; an object that does not name EdDSA is an unsupported algorithm. |
| SigningForm.BodyIs | src/blueeconomy_data_platform/signature_verification.py:222-226 | What is signed are the members of the document but the provenance, and the provenance without its signature. |
| Signing.EnvelopeSignatureVerifier.RecordRejected | src/blueeconomy_data_platform/signature_verification.py:73-74 | One reason's count goes up by one and no other changes. |
| Signing.SplitForm | src/blueeconomy_data_platform/signature_verification.py:180-185 | A compact serialization splits at its dots into the three segments it was joined from. |
| Signing.HeaderIsJson | src/blueeconomy_data_platform/signature_verification.py:264-270 | For a well-formed kid the protected header is the compact JSON of alg and kid. |
| SigningForm.HeaderTextIs | src/blueeconomy_data_platform/signature_verification.py:264-270 | The protected header character by character. |
| SigningForm.DumpedForms | src/blueeconomy_data_platform/signature_verification.py:266 | In the header every character but the printable ASCII ones is escaped, beyond 0xFFFF as a surrogate pair. |
| Signing.HeaderReads | src/blueeconomy_data_platform/signature_verification.py:189-207 | Reading the protected header of a well-formed kid gives the kid. |
| Signing.SignedCarries | src/blueeconomy_data_platform/signature_verification.py:255-282 | The signed copy carries the compact signature over the body of the original, an earlier signature ignored. |
| SigningForm.SignsIff | src/blueeconomy_data_platform/signature_verification.py:252-285 | Signing fails without a provenance object, and else exactly when the header or the canonical text of the document cannot be written. |
| SigningForm.SignedTextIs | src/blueeconomy_data_platform/signature_verification.py:264-285 | The signature text is the base64url text of the header, a dot, that of the canonical text, a dot, and that of the signature over what is before it. |
| Signing.CarriedOutcome | src/blueeconomy_data_platform/signature_verification.py:169-239 | Exact outcome for any envelope under a signature made for a document: unknown kid, payload mismatch, invalid signature or the kid. |
| Signing.SignedVerifies | src/blueeconomy_data_platform/signature_verification.py:242-282 | Verifying a signed document returns its kid whenever the directory maps the kid to the signer's key, and unknown-kid when it has none. |
| SigningLibrary.SampleIsCorrect | src/blueeconomy_data_platform/signature_verification.py:242-282 | There is a library that meets all that the signature theorems assume of Ed25519, base64url, UTF-8 and `json.loads`. |
| Signing.MovedSignature | src/blueeconomy_data_platform/signature_verification.py:214-237 | Under a signature made for another document an envelope is accepted only if it is the same JSON value outside `provenance.signature`, and is accepted if it is, when names do not tie. |
| SigningForm.MovedSignatureIs | src/blueeconomy_data_platform/signature_verification.py:222-239 | An envelope under a moved signature is accepted only if each of its members, those of the provenance included but for the signature, has the value it has in the signed document, and no member is missing; and it is accepted if so, when names are clear. |
| Signing.SameSerializable | src/blueeconomy_data_platform/signature_verification.py:218-223 | Whether a body can be canonicalized depends on its JSON value only. |
| WktText.FormatIsLiteral | src/blueeconomy_data_platform/vessel_lakehouse.py:279-281 | The formatted ordinate is a sign unless zero, the whole part, and the decimals without trailing zeros; never a negative zero. |
| WktForm.OrdinateForm | src/blueeconomy_data_platform/vessel_lakehouse.py:279-281 | An ordinate is a minus if negative and not zero, a whole part without needless zeros, and if there are decimals a point and up to seven of them, the last not zero; filled up, its digits spell the ten-millionths. |
| WktForm.OrdinateValue | src/blueeconomy_data_platform/vessel_lakehouse.py:279-281 | An ordinate is so many ten-millionths. |
| WktForm.GeometryForm | src/blueeconomy_data_platform/vessel_lakehouse.py:284-293 | A printed geometry is its keyword, a blank, and its positions in parentheses: ordinates separated by blanks, positions, rings and polygons by a comma and a blank. |
| WktForm.NumeralToken | src/blueeconomy_data_platform/geoparquet_export.py:63-70 | Digits with or without a point, decimals and an exponent, or a point and digits, with a minus or not, are one token. |
| WktForm.OtherTokens | src/blueeconomy_data_platform/geoparquet_export.py:63-70 | A run of letters, a parenthesis and a comma are tokens; every other character, and a point or a minus that starts no number, is passed over. |
| WktForm.OrdinateWords | src/blueeconomy_data_platform/geoparquet_export.py:93-99 | In any letter case nan is no number and inf and infinity are infinite; any other ordinate is a decimal. |
| WktForm.KeywordChooses | src/blueeconomy_data_platform/geoparquet_export.py:124-140 | POINT, LINESTRING, POLYGON and MULTIPOLYGON in any letter case choose the grammar, and nothing else parses. |
| WktText.OrdinateReads | src/blueeconomy_data_platform/vessel_lakehouse.py:279-281 | Reading a formatted ordinate gives its seven-decimal number back exactly. |
| WktText.OrdinateToken | src/blueeconomy_data_platform/geoparquet_export.py:63-70 | A printed ordinate is one token, whichever delimiter follows. |
| WktText.Dropped | src/blueeconomy_data_platform/geoparquet_export.py:63-70 | A character at which no token starts is passed over. |
| WktParser.TokenParser.PositionList | src/blueeconomy_data_platform/geoparquet_export.py:106-113 | The loop follows the grammar of a parenthesized list of positions and stops where it stops, or raises its error. |
| WktParser.TokenParser.RingList | src/blueeconomy_data_platform/geoparquet_export.py:115-122 | The same for a list of rings. |
| WktParser.TokenParser.PolygonList | src/blueeconomy_data_platform/geoparquet_export.py:131-139 | The same for a list of polygons. |
| WktParser.TokenParser.Parse | src/blueeconomy_data_platform/geoparquet_export.py:124-140 | The keyword selects the grammar, any letter case; of a point's list the first position counts; other keywords raise. |
| WktParser.TokenParser.Next | src/blueeconomy_data_platform/geoparquet_export.py:83-86 | The next token, and the parser moves past it; an error at the end. |
| WktParser.TokenParser.Expect | src/blueeconomy_data_platform/geoparquet_export.py:88-91 | The expected token is consumed; another one or the end raises. |
| WktParser.TokenParser.PositionOf | src/blueeconomy_data_platform/geoparquet_export.py:93-104 | Two ordinates as `float` reads them, words for infinity and NaN included. |
| WktParser.RunParser | src/blueeconomy_data_platform/geoparquet_export.py:147-151 | Parsing returns the geometry exactly when one geometry uses up all tokens. |
| WktRoundTrip.PrintedGeometryParses | src/blueeconomy_data_platform/geoparquet_export.py:124-151 | For every Point, LineString, Polygon and MultiPolygon on the seven-decimal grid the printed text parses, all tokens consumed, if and only if no list is empty, and then to the same structure with every ordinate the same number. |
| WktRoundTrip.JunkIsIgnored | src/blueeconomy_data_platform/geoparquet_export.py:63-70 | Only parse-after-print is an identity: a leading unknown character changes nothing. |
| WktRoundTrip.JoinTokens | src/blueeconomy_data_platform/vessel_lakehouse.py:288-293 | Comma-separated texts are the tokens of the parts separated by commas. |
| WktRoundTrip.ListParse | src/blueeconomy_data_platform/geoparquet_export.py:106-122 | A bracketed list parses if and only if it has an item and every item parses, and to the items in order. |
| Wkb.LittleEndianReads | src/blueeconomy_data_platform/geoparquet_export.py:157-164 | A number that fits its width reads back from its little-endian bytes. |
| Wkb.EncodedGeometryDecodes | src/blueeconomy_data_platform/geoparquet_export.py:171-185 | Encoding succeeds if and only if every count fits four bytes, and decoding then gives back every position, ring and polygon in order, and what follows. |
| WkbForm.EncodedIsLaidOut | src/blueeconomy_data_platform/geoparquet_export.py:154-185 | The bytes at their places: byte order 1; type 1, 2, 3 or 6; the counts in four bytes and the ordinates in eight, least significant first, x before y; and nothing else. |
| WkbForm.EncodesIff | src/blueeconomy_data_platform/geoparquet_export.py:157-185 | Encoding succeeds exactly when every count is below 2^32. |
| Wkb.ExportKeepsGeometry | src/blueeconomy_data_platform/geoparquet_export.py:289-291 | A geometry that is printed, parsed, rounded to doubles, encoded and decoded comes back in the same structure, every ordinate the double of what was read for it. |
| Wkb.BoundingBox | src/blueeconomy_data_platform/geoparquet_export.py:282-294 | The running minima and maxima are the box that holds every position of every row with a position on each side; none before the first position. |
| Wkb.AllPositionsHold | src/blueeconomy_data_platform/geoparquet_export.py:188-199 | The positions of an export are those of its geometries, in rings and polygons too. |
| Wkb.BoxIsUnique | src/blueeconomy_data_platform/geoparquet_export.py:292-294 | There is one such box. |
| RetentionPlan.MakePolicy | src/blueeconomy_data_platform/medallion.py:69-77 | A policy is accepted exactly within the day and year bounds and with a cold horizon beyond the hot one. |
| RetentionPlan.TierOnlyAges | src/blueeconomy_data_platform/medallion.py:87-98 | As the reference time goes on a record moves from hot to cold to expired only, with the cold horizon itself still cold and one microsecond more expired. |
| RetentionPlan.TierIff | src/blueeconomy_data_platform/medallion.py:87-98 | Hot exactly up to hotDays * 86,400,000,000 microseconds of age, cold exactly above that up to coldYears * 365 * 86,400,000,000, expired exactly beyond; an error for a time after the reference. |
| RetentionPlan.Classify | src/blueeconomy_data_platform/retention.py:131-139 | The rows of each tier in order, or the error of the first row without a tier. |
| RetentionPlan.GroupByDay | src/blueeconomy_data_platform/retention.py:140-142 | The windows are the days on which rows expired, each with the keys of its rows. |
| RetentionPlan.SortedBatches | src/blueeconomy_data_platform/retention.py:140-146 | Windows in date order with sorted keys, every expired row in the window of its day. |
| RetentionPlan.PlanRetention | src/blueeconomy_data_platform/retention.py:121-156 | A plan exactly when every row has a tier; by ages in microseconds, its counts are those of the rows of each age, its cold keys the sorted keys of the cold rows, and its windows the days of the expired rows with their sorted keys. |
| RetentionPlan.PlanByAges | src/blueeconomy_data_platform/retention.py:121-156 | The plan by tiers is the plan by ages. |
| RetentionPlan.PlannedAddsUp | src/blueeconomy_data_platform/retention.py:140-154 | The keys of all windows, repeated ones included, add up to the expired rows. |
| RetentionPlan.PlanIgnoresRowOrder | src/blueeconomy_data_platform/retention.py:121-156 | A table has one plan, whatever order its rows are read in. |
| RetentionPlan.TiersPartition | src/blueeconomy_data_platform/retention.py:133-139 | Every row is in exactly one tier. |
| Retention.InPolicyWhenApart | src/blueeconomy_data_platform/retention.py:159-184 | When its turn comes a batch passes the re-check if and only if its keys belong to expired rows only and to no earlier batch. |
| Retention.EveryBatchApartIff | src/blueeconomy_data_platform/retention.py:309-311 | Every batch passes its re-check if and only if no key of an expired row is shared with another day or tier. |
| Retention.AllDeleted | src/blueeconomy_data_platform/retention.py:309-311 | Once all batches passed, their deletion leaves exactly the rows that are not expired, in order. |
| Retention.AuditedDeletionsAddUp | src/blueeconomy_data_platform/retention.py:309-326 | The deletion records of a plan have distinct ids and their counts sum to the planned expired rows. |
| Retention.GovernedTable.SetAppendOnly | src/blueeconomy_data_platform/retention.py:193-203 | Setting the flag may fail before or after taking effect; success means it is set. |
| Retention.GovernedTable.DeleteKeys | src/blueeconomy_data_platform/retention.py:196-199 | A delete is refused under the append-only flag; else it removes the rows of the keys, or fails before or after. |
| Retention.GovernedTable.DeleteChunks | src/blueeconomy_data_platform/retention.py:196-200 | Chunks of a thousand keys remove together exactly the rows of the keys; a failure leaves those of the earlier chunks removed. |
| Retention.GovernedTable.DeleteBatch | src/blueeconomy_data_platform/retention.py:187-204 | Every exit removed only rows of the batch's keys and has the append-only flag as before, unless restoring it is what failed; success counts the keys. |
| Retention.GovernedTable.AssertBatchInPolicy | src/blueeconomy_data_platform/retention.py:159-184 | The re-check passes only if every stored row of a batch key is expired and every key is stored. |
| Retention.GovernedTable.AppendAudit | src/blueeconomy_data_platform/retention.py:207-230 | A record is inserted if its id is absent, repeated if equal, refused if it differs; the log only grows. |
| Retention.GovernedTable.AppendArchive | src/blueeconomy_data_platform/ingest.py:448-493 | A missing archive is created with the chunk as it is, without a replay check; an existing one must be append-only and gets the absent rows between two replay checks; afterwards the chunk is held. |
| Retention.GovernedTable.ArchiveColdRows | src/blueeconomy_data_platform/retention.py:344-386 | Chunk by chunk of a thousand every row with a cold key is held by the archive with equal content, and each chunk has its record with its sorted keys and counts; nothing else is archived or recorded. |
| Retention.GovernedTable.EnforceBatch | src/blueeconomy_data_platform/retention.py:309-326 | Nothing is deleted before the re-check passed; deletion comes before its record. |
| Retention.GovernedTable.EnforceNext | src/blueeconomy_data_platform/retention.py:309-326 | Progress by one batch, or a failure with only expired rows of that batch gone. |
| Retention.GovernedTable.DeleteBatches | src/blueeconomy_data_platform/retention.py:309-326 | All batches deleted and audited, or a failure that leaves at most one batch unaudited; on a healthy store it succeeds when keys are apart and no record conflicts. |
| Retention.GovernedTable.RecordPlan | src/blueeconomy_data_platform/retention.py:285-302 | A dry run records every planned batch and changes nothing else. |
| Retention.GovernedTable.VerifyRemaining | src/blueeconomy_data_platform/retention.py:328-340 | After a finished run the count and expiry checks never fire. |
| Retention.GovernedTable.Apply | src/blueeconomy_data_platform/retention.py:304-341 | Every exit of an applied run removed only expired rows, left at most one batch unaudited, and has the flag back unless restoring failed; a normal exit leaves exactly the rows not expired, each deletion audited, cold rows archived when asked. |
| Retention.GovernedTable.Enforce | src/blueeconomy_data_platform/retention.py:262-341 | The same for the whole command, dry runs included: a run that completes has, by ages, the plan of the table, a record of each window with its counts, exactly the rows that are not expired when applied and all rows when not, and every cold row archived when asked. On a healthy store an applied run without archive completes if and only if the operator is named, every row has a tier, no expired key is shared across days or tiers, and no retained record conflicts. A blank operator is an error. |
| RingParity.RotationInvariant | src/blueeconomy_data_platform/geofence.py:93-107 | For every closed ring containment is unchanged by rotating the start vertex. |
| RingParity.ReversalInvariant | src/blueeconomy_data_platform/geofence.py:93-107 | For every ring containment is unchanged by reversing it. |
| RingParity.IntersectionFlips | src/blueeconomy_data_platform/geofence.py:103-104 | The intersection of an edge with a horizontal line does not depend on the edge's direction. |
| RingParity.IntersectionBetween | src/blueeconomy_data_platform/geofence.py:104 | The intersection lies between the ends of the edge. |
| RingParity.OnSegmentFlips | src/blueeconomy_data_platform/geofence.py:110-117 | The boundary test does not depend on the edge's direction. |
| RingParity.CrossingParity | src/blueeconomy_data_platform/geofence.py:102-106 | A path crosses a horizontal line an odd number of times exactly when its ends are on different sides. |
| RingParity.OutsideIsNotContained | src/blueeconomy_data_platform/geofence.py:93-117 | A position more than 1e-12 outside the bounding box of a closed ring is never contained. |
| RingGeometry.TouchesIff | src/blueeconomy_data_platform/geofence.py:110-117 | The boundary test by coordinates: within 1e-12 of the box of the edge and with a cross product of at most 1e-12. |
| RingGeometry.SegmentTouches | src/blueeconomy_data_platform/geofence.py:110-117 | Every point of an edge passes it. |
| RingGeometry.CountsIff | src/blueeconomy_data_platform/geofence.py:102-106 | An edge counts exactly when one of its ends is above the position, the other not, and it has a point level with the position and to the right of it. |
| RingGeometry.RingContainsIff | src/blueeconomy_data_platform/geofence.py:93-107 | A position is in a ring exactly when it touches an edge or an odd number of edges meet its ray to the right. |
| RingGeometry.RectangleContains | src/blueeconomy_data_platform/geofence.py:93-107 | What is strictly inside a rectangle is contained in it, and what is outside by more than 1e-12 is not. |
| Geofences.DecideEdges | src/blueeconomy_data_platform/geofence.py:96-107 | The loop with its early return and toggling flag decides boundary or odd parity. |
| Geofences.DecideRing | src/blueeconomy_data_platform/geofence.py:93-107 | `_ring_contains` decides containment as defined. |
| Geofences.DecidePolygon | src/blueeconomy_data_platform/geofence.py:83-90 | In the outer ring and in no hole. |
| Geofences.Decide | src/blueeconomy_data_platform/geofence.py:42-49 | A multipolygon contains what one of its polygons contains. |
| RingGeometry.GeofenceContainsIff | src/blueeconomy_data_platform/geofence.py:42-117 | A geofence contains a position exactly when one of its polygons has it in the first ring and in none of the others, rings being meant in coordinates. |
| Geofences.ValidateRing | src/blueeconomy_data_platform/geofence.py:73-80 | A ring is accepted exactly with four or more positions, closed and in range, and is malformed exactly when too short or open. |
| Geofences.ValidateGeometry | src/blueeconomy_data_platform/geofence.py:52-70 | A geometry is accepted exactly when it has polygons, each with rings, all valid. |
| Geofences.RedrawnGeofenceContains | src/blueeconomy_data_platform/geofence.py:42-49 | A validated geofence contains the same positions however each ring is started and directed. |
| Geofences.OutsideIsNowhere | src/blueeconomy_data_platform/geofence.py:42-49 | A position outside the bounding box of every outer ring is in no validated geofence. |
| Quantiles.Percentile | src/blueeconomy_data_platform/port_statistics.py:510-523 | A quantile exactly for a non-empty list and a fraction strictly between 0 and 1. |
| Quantiles.QuantileWithinRange | src/blueeconomy_data_platform/port_statistics.py:510-523 | The quantile lies between any bounds of the observations, so between minimum and maximum. |
| Quantiles.QuantileIgnoresOrder | src/blueeconomy_data_platform/port_statistics.py:510-523 | The quantile does not depend on the order of the observations. |
| Quantiles.QuantileMonotone | src/blueeconomy_data_platform/port_statistics.py:510-523 | The quantile is monotone in the fraction, so P50 never exceeds P90. |
| Quantiles.QuantileAtRank | src/blueeconomy_data_platform/port_statistics.py:519-523 | At a whole rank the quantile is that sorted observation. |
| Quantiles.QuantileInterpolates | src/blueeconomy_data_platform/port_statistics.py:510-523 | Of n observations in ascending order the quantile is, at the place q * (n - 1) counted from 0, on the line from the observation before it to the one after it; of one observation it is that one. |
| Quantiles.NoQuantile | src/blueeconomy_data_platform/port_statistics.py:512-515 | The error of the empty list exactly for no observations, and that of the fraction exactly for one outside 0 to 1, ends included. |
| GateScans.GroupScans | src/blueeconomy_data_platform/port_statistics.py:532-534 | The dictionary holds the scans of each truck and terminal; every key is listed once, in the order first met. |
| GateScans.GroupCounts | src/blueeconomy_data_platform/port_statistics.py:532-534 | Every scan is in the group of its truck and terminal and in no other. |
| GateScans.TimeOrderOf | src/blueeconomy_data_platform/port_statistics.py:537 | The time order is sorted and has exactly the group's scans. |
| GateScans.PairScans | src/blueeconomy_data_platform/port_statistics.py:538-546 | The open-scan loop records, per port of the gate-out scan, exactly the adjacent in-then-out pairs. |
| GateScans.GateDurations | src/blueeconomy_data_platform/port_statistics.py:530-547 | Per port, the durations are those of exactly the adjacent in-then-out pairs of all time orders. |
| GatePassages.RecordedPassages | src/blueeconomy_data_platform/port_statistics.py:530-547 | For scans with distinct ids the durations under a port are, each once, the times from in to out of exactly the passages: two scans of one truck at one terminal, in then out, the second at the port, with no scan of theirs between them by time and event id. |
| GatePassages.PairsArePassages | src/blueeconomy_data_platform/port_statistics.py:535-546 | The adjacent pairs of all time orders are exactly these passages. |
| GateScans.PairsAreNeighbours | src/blueeconomy_data_platform/port_statistics.py:538-546 | A pair is paired if and only if the scans are neighbours, in then out. |
| GateScans.DurationsWithinSpan | src/blueeconomy_data_platform/port_statistics.py:542-545 | No duration is negative, and those of a truck and terminal sum to at most its first-to-last span. |
| GateScans.EveryPairUnderItsPort | src/blueeconomy_data_platform/port_statistics.py:542-545 | The durations under all ports are as many as the pairs. |
| Periods.NextStart | src/blueeconomy_data_platform/port_statistics.py:274-279 | The next month starts after exactly the calendar's days, leap years included. |
| Periods.ParsedBounds | src/blueeconomy_data_platform/port_statistics.py:268-280 | A parsed period is bounded by the starts of its month and the next. |
| Periods.NoTwoPeriods | src/blueeconomy_data_platform/port_statistics.py:268-284 | No instant is in two periods. |
| Periods.SomePeriodIff | src/blueeconomy_data_platform/port_statistics.py:268-284 | An instant is in some period if and only if it is before December 9999, whose end no datetime can hold. |
| Periods.KnownMonths | src/blueeconomy_data_platform/port_statistics.py:268-280 | Examples of `Periods.NextStart` on literal periods: February has 29 days in 2024 and 28 in 1900; 9999-12, 0000-01 and 2024-13 raise. |
| Periods.ParsesIff | src/blueeconomy_data_platform/port_statistics.py:268-280 | A text is a period exactly when it is a four-digit year, a hyphen and a month from 01 to 12, other than year 0000 and December 9999. |
| Periods.PeriodDays | src/blueeconomy_data_platform/port_statistics.py:274-280 | A period lasts the days of its month in the Gregorian calendar, of 86,400,000,000 microseconds each. |
| Periods.PeriodsAdjoin | src/blueeconomy_data_platform/port_statistics.py:274-280 | Each period starts where that of the month before ends, the first one at 0. |
| Periods.LastMonthStart | src/blueeconomy_data_platform/port_statistics.py:275-278 | December 9999 starts 3,652,028 days after the first instant. |
| PortCalls.MergeCalls | src/blueeconomy_data_platform/port_statistics.py:368-422 | The merge raises exactly when a row is malformed or a call changes its port, at the first such row and for that reason, and else holds for every call the entry its events amount to. |
| PortCalls.EntryIsOfLatest | src/blueeconomy_data_platform/port_statistics.py:403-405 | The entry holds order and status of an event that no other comes after, by time and then by id, position by position. |
| PortCalls.StatusIsOfLatest | src/blueeconomy_data_platform/port_statistics.py:403-405 | With distinct event ids the status is that of the greatest (time, id) event. |
| PortCalls.CallIgnoresRowOrder | src/blueeconomy_data_platform/port_statistics.py:403-405 | Reading the silver rows in another order gives every call the same status and order. |
| PortCalls.FieldsAreLastInRowOrder | src/blueeconomy_data_platform/port_statistics.py:412-421 | Each of the six fields of an entry is the value of the last row that carries it, or none when no row does. |
| PortCalls.FieldIsMostRecentIff | src/blueeconomy_data_platform/port_statistics.py:360-363 | The documented most recent non-null value: whatever values the carrying rows hold, the entry's field is that of the greatest carrier by time and id if and only if the last row that carries the field is that carrier. |
| PortCalls.EventOrderSuffices | src/blueeconomy_data_platform/port_statistics.py:360-363 | When the events come in strictly increasing order, every field of the entry is the value of the greatest event that carries it, and none when no event does. |
| PortCalls.SourcesInRowOrder | src/blueeconomy_data_platform/port_statistics.py:422 | The sources of an entry are the ids of its events in row order. |
| PortCalls.LateRowOverwritesField | src/blueeconomy_data_platform/port_statistics.py:412-421 | A row that comes late overwrites the field with its older value while the status stays right; its last carrier is not the most recent one. |
| PortCalls.FactsOf | src/blueeconomy_data_platform/port_statistics.py:424-443 | The facts of a period are, by call id, exactly the calls whose arrival, or latest event when no arrival is known, is from the start of the period and before its end. |
| PortCalls.CallInOneMonth | src/blueeconomy_data_platform/port_statistics.py:426-428 | A call is a fact of exactly one UTC month when attributed to a time before December 9999, and of none from then on. |
| KpiRows.DiscoverPorts | src/blueeconomy_data_platform/port_statistics.py:760-771 | The distinct non-null port codes in order, or one absent port when none was seen. |
| KpiRows.EmitAt | src/blueeconomy_data_platform/port_statistics.py:727-756 | The rows of one KPI at one port: a gap row, a no-data row, or its observations in class and percentile order. |
| KpiRows.EmitValueRows | src/blueeconomy_data_platform/port_statistics.py:688-757 | The loops emit the rows of every KPI and port in turn. |
| KpiRows.RowsByFields | src/blueeconomy_data_platform/port_statistics.py:705-756 | The rows, field by field: for each KPI and port a gap row, a no-data row when no observation is at the port, or one row for each observation there with its class, percentile, value and count. |
| KpiRows.RowsInOrder | src/blueeconomy_data_platform/port_statistics.py:740-743 | The rows of one KPI at one port come by ship class and then by percentile, a missing one as None. |
| KpiRows.EveryKpiAndPortHasRows | src/blueeconomy_data_platform/port_statistics.py:688-757 | Every KPI and discovered port gets a row, null if and only if the KPI is a gap or nothing was observed. |
| KpiRows.ObservationsEmittedOnce | src/blueeconomy_data_platform/port_statistics.py:733-756 | The rows with a value of a KPI are its observations at the given ports, each once and unchanged. |
| KpiRows.CoveredCounts | src/blueeconomy_data_platform/port_statistics.py:733-737 | Over distinct ports an observation is covered as often as made when its port is listed, else never. |
| KpiRows.RowsOfObservation | src/blueeconomy_data_platform/port_statistics.py:733-771 | Over discovered ports, an observation of a KPI that is no gap has exactly as many rows as it was made when its port code was seen, or when it has none and no code was seen; otherwise it has no row. |
| KpiRows.PortlessObservations | src/blueeconomy_data_platform/port_statistics.py:733-771 | One seen port code drops an observation that has none. |
| KpiRows.CountVesselCalls | src/blueeconomy_data_platform/port_statistics.py:567-573 | The counting loop holds, per port and class and per port, the number of its calls whose status is ACCEPTED, ARRIVED, BERTHED, DEPARTED or COMPLETED, where there are any. |
| KpiRows.ClasslessIsAll | src/blueeconomy_data_platform/port_statistics.py:567-573 | A port's class-less count is the number of its accepted calls. |
| Clearances.LabelReads | src/blueeconomy_data_platform/access_policy.py:93-108 | Reading a level's own label gives the level. |
| Clearances.PermitsIff | src/blueeconomy_data_platform/access_policy.py:93-108 | Each level reads its own label and those below it, in any letter case; an unknown label nobody reads. |
| Consignments.GroupEvents | src/blueeconomy_data_platform/export_consignment.py:158-210 | The grouping loop raises with the first unsound event, else holds every consignment's group with its running clearance maximum. |
| Consignments.RecordGroups | src/blueeconomy_data_platform/export_consignment.py:213-269 | The records by consignment id, or the first consignment's error. |
| Consignments.BuildConsignmentRecords | src/blueeconomy_data_platform/export_consignment.py:142-269 | The assembled records, or exactly the error of the empty batch, the first unsound event or the first unsound consignment. |
| ConsignmentForm.AssembledByEvents | src/blueeconomy_data_platform/export_consignment.py:142-269 | Sound events assemble to one record for each consignment, by its id: the catch's id, time, species and weight, the sorted custody ids, the samples in order of time and id with their extremes, the last export reference, the sorted ids of all events, readable by exactly the levels that may read every event; or to the error of the first consignment that has none. |
| ConsignmentForm.EventErrorIs | src/blueeconomy_data_platform/export_consignment.py:158-210 | What is wrong with an event: no consignment, else an unknown label, else a coldchain event without valid temperature or an ungoverned family. |
| ConsignmentForm.RecordIs | src/blueeconomy_data_platform/export_consignment.py:213-269 | A consignment's record is, field by field, that of its catch, custody, coldchain and export events. |
| ConsignmentForm.RecordErrorIs | src/blueeconomy_data_platform/export_consignment.py:215-237 | A consignment has no record exactly when it has not one catch event, its species or weight is missing or negative, or its last export event has no reference; the first of these is the error. |
| ConsignmentForm.VisibleIffReadable | src/blueeconomy_data_platform/access_policy.py:209-220 | A reader sees a record exactly when the level may read every event of the consignment, an event without label only as SECRET. |
| Consignments.FilterByClearance | src/blueeconomy_data_platform/access_policy.py:223-238 | The loop keeps in order exactly the records whose label the clearance permits. |
| Consignments.FloorIsGreatest | src/blueeconomy_data_platform/export_consignment.py:181-183 | The group's floor is at or below a level if and only if every event's is, unlabelled events counting as SECRET. |
| Consignments.VisibleIffCleared | src/blueeconomy_data_platform/access_policy.py:209-220 | A reader sees a record if and only if every source event is at or below the level. |
| Consignments.ExtremesHold | src/blueeconomy_data_platform/export_consignment.py:239-261 | The temperature extremes are sample temperatures that no sample exceeds. |
| Consignments.FilterSort | src/blueeconomy_data_platform/export_consignment.py:214 | Sorting consignments and leaving some out commute. |
| Consignments.AssembleThenFilter | src/blueeconomy_data_platform/export_consignment.py:323-350 | Assembling and then filtering at a level gives exactly what assembling only the consignments cleared for it gives, and nothing when none is cleared. |

## Left out

- Track.RdpSimplify: exact reals and squared distances instead of IEEE 754 rounding; a non-finite tolerance does not arise.
- JcsDoubles.IntegersPrintAsDoubles: doubles have no upper limit here, so overflow to infinity is not modelled; which of two equally close shortest decimals `repr` prints is left open.
- Track.SimplifyPreservingTopology: the same, for the halved tolerances and the orientation test.
- RingParity.OutsideIsNotContained: exact reals instead of IEEE 754 rounding, as for the other geofence members.
- Quantiles.Percentile: exact reals, and the final rounding to six places is not modelled.
- DeadLetter.KeyMaterialInjective: the SHA-256 of the text is identified with the text; error detail, base64 and the consumer-group hash of a record are not modelled.
- IngestProtocol.EveryRunIsSafe: safety only; conflicting reuse of a retained event id halts the run by design, so nothing is claimed about progress. Idle timeouts end collection at an arbitrary point.
- IngestCode.CollectMessages: a poll that delivers no topic, partition or offset is not modelled.
- AppendProtocol.DeltaTable.AppendRows: table schema, descriptions, versions and reads of columns a retained table lacks are not modelled.
- Retention.GovernedTable.AppendAudit: the audit log is a list with ids; the merge protocol it goes through is the one of `AppendProtocol.dfy`, and the instant of execution is not compared, as there.
- Retention.GovernedTable.DeleteKeys: keys are texts and a delete matches them exactly; quoting of the predicate and null keys are not modelled. No other writer runs during enforcement.
- Retention.GovernedTable.Enforce: blank operators are those of ASCII white space.
- Signing.SignedVerifies: rests on the assumptions of `Signing.Correct`; loading of key directories and signing keys from files and the environment is not modelled.
- WktParser.TokenParser.PositionOf: ASCII digits only, and ordinates beyond the range of a double, which `float` reads as infinite, stay finite.
- WktText.OrdinateReads: the value is the seven-decimal number printed, not the double it was rounded from; the sign of a zero is not kept.
- Jcs.CanonicalTextLoads: dictionaries with keys that are not texts are not modelled; the reader is for compact texts and keeps decimals exact, where `json.loads` with `parse_int=float` rounds them to doubles.
- Clearances.Upper: raises ASCII letters only.
- Segmentation.JobNumbersSegments: the threshold is a whole number of microseconds instead of a double of seconds.
- IngestRun.Ingest: message logs are those at the end of the run; whether scope and classification of the records are refused is a parameter, and reports are not written.
- Consignments.BuildConsignmentRecords: events come decoded; missing ids, types, timestamps and unparsable payloads raise before what is modelled here, and the assembly instant is not part of a record.
- GatePassages.RecordedPassages: for scans with distinct event ids, as the rows of the silver table have; scans of equal time and id pair in the order they come, which `GateScans.GateDurations` covers.
- PortCalls.MergeCalls: malformed fields of an event are one kind of malformed row.
- KpiRows.EmitValueRows: run id, period, table version, query hash and instant are the same on every row and are not modelled.
- KPI turnaround, waiting time, throughput, booking lead time and slot utilisation: grouped sums and quantiles of the same kind as those modelled.
- `_append_silver` and `_curate_gold` in `medallion.py`, `scope_medallion.py`: further instances of the merge and fold proved here.
- Storage backends, segregation of scopes, schema validation, AIS decoding, telemetry, reports, HTTP and argument parsing: plumbing around the logic.
- Movement analytics, MRV, blue-carbon, excise-stamp and KPI-publishing tables: simpler folds of the same family.
- Gold geofence summaries: counting over the containment modelled in `Geofences.dfy`.

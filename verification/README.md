# Detritus, verified

Detritus is a crash and log receiver with a client SDK. This project models the
parts of it whose correctness is not visible in any single function, and proves
what they promise together:

- **The crash store** (`BlobStore`, `CrashStore`, `Storage`, `Disk`, `Janitor`,
  `QuietCycle`).
  Uploads publish content-addressed blobs and write an index last, while a
  retention janitor marks and sweeps. `BlobStore` is the protocol as a system of
  atomic events: any number of uploads, one janitor, any interleaving.
  `CrashStore` is the upload handler as a class and `Janitor` the retention pass
  over a directory tree; the effect of either, left undisturbed, is proved to be
  a run of the protocol.
- **The rate limiter** (`RateLimit`): a lazily refilled token bucket per client,
  over exact reals.
- **The multipart format** (`Protocol`, `Multipart`, `Text`, `Splitter`,
  `Envelope`, `Crashes`): the printer, a splitter written from section 5.1.1 of
  RFC 2046 and section 4 of RFC 7578, the client's reader and the server's
  stricter one.
- **The client's spools** (`Listing`, `Spool`, `Worker`, `Delivery`, `Lifetime`,
  `Compression`, `Shipper`, `PanicHook`): the batching log worker, its queue
  directory shared by any number of workers, the crash shipper, the compression
  of what it uploads, and the entries the panic hook leaves behind. `EndToEnd`
  follows a crash from such an entry into the server's store.
- **Log files and error texts** (`Logs`, `Utf8`): daily rotation, and the
  shortening of a UTF-8 text.

Code that changes state is modelled as classes and methods with loops, each
proved against a function on values, and the results are lemmas about those
functions and about runs. SHA-256, zstd, JSON, protobuf and media-type parsing
are function parameters; what is needed of them (no collision among the texts
that occur in a run, lossless compression, round trips) is a precondition of the
lemma that needs it. The clock, the network, the random identifiers and the
outcome of file operations are inputs. Bytes are characters of a `string`, octet
*n* being character *n*.

Where the code does not have a property one would expect, the model follows the
code, a lemma gives an input that shows it, and another says exactly when the
property holds: a live index can lose a blob (`RacingUploadLosesItsBlob`,
`IndexResolvesExactlyWhen`), a crash posted again can lose the index just
written (`RepostLosesFreshIndex`, `RemovedExpiredExactlyWhen`), another crash of
the same source, time and dump replaces an index (`OverwritingUpload`,
`AcceptedCrashReadsBack`), a payload can break the multipart framing
(`SmuggledPart`, `ForgedAttachment`, `BoundaryFirst`, `ReadBackExactlyWhen`), a
media type can come back in another form (`LoweredType`,
`RoundTripIsIdentityExactlyWhen`), repeated attachment keys garble an upload
(`RepeatedKeyBreaks`, `FaithfulExactlyWhen`), context file names can damage a
crash entry (`ReservedNameBreaks`, `ConsistentExactlyWhen`,
`UsableExactlyWhen`), and a clock that goes back can lose log records
(`ClockGoesBack`, `RotationExactlyWhen`). The comment on the compression loop
(crates/detritus-client/src/shipper.rs:421) speaks of the matching attachment;
the code takes the first one with that key. The panic hook lists the length of
the compact form of its configuration
(crates/detritus-client/src/panic_hook.rs:164-166) but writes the indented one,
so that length is an input of its own (`ManifestExactlyWhen`).

## Model

| member | source | states |
|---|---|---|
| Storage.NewSourceKey | crates/detritus-server/src/storage.rs:17-21 | A key is made exactly from two valid components; otherwise the first invalid one is reported by its name and value. |
| Storage.ValidExactlyWhen | crates/detritus-server/src/storage.rs:111-126 | A component is let through exactly when no separator, slash or backslash, splits it and, below every directory, it leads to the entry of that name. |
| Storage.SourceStaysInside | crates/detritus-server/src/storage.rs:62-91 | So the directory of a valid source is the one named after it, below the root. |
| Storage.Layout | crates/detritus-server/src/storage.rs:23-91 | The names of the log, blob and index files and the canonical text, letter for letter. |
| Storage.CanonicalInjective | crates/detritus-server/src/storage.rs:23-25 | Two valid sources with the same canonical text are the same source. |
| Storage.CanonicalNotInjectiveUnvalidated | crates/detritus-server/src/storage.rs:111-125 | Without the validation two sources do share a canonical text. |
| Storage.IndexPathInjective | crates/detritus-server/src/storage.rs:84-91 | An index path determines source, timestamp and dump digest, and nothing else enters it. |
| Storage.BlobPathInjective | crates/detritus-server/src/storage.rs:71-82 | A blob path determines the digest. |
| BlobStore.DedupLedger | crates/detritus-server/src/crashes.rs:262-290 | In every interleaving, for every digest: initial presence plus successful links equals sweep removals plus final presence. |
| BlobStore.BlobsStayContentAddressed | crates/detritus-server/src/crashes.rs:219-290 | In every run a present blob hashes to its name. |
| BlobStore.RunWithin | crates/detritus-server/src/crashes.rs:219-290 | In every run each blob holds, and each upload carries, a text that was there at the start or was sent. |
| BlobStore.FlagTellsPresence | crates/detritus-server/src/crashes.rs:219-297 | Whenever an event gives an upload a pointer, it describes the part at hand, and its dedup flag says whether the blob was in place just before; no event gives two or takes one away. |
| BlobStore.ExactlyOneUploadIsNew | crates/detritus-server/src/crashes.rs:262-290 | Of the pointers to a digest that any number of concurrent uploads obtain while nothing removes it, exactly the first has the dedup flag false if the blob was not there, and none if it was; the blob is there once any was obtained. |
| BlobStore.HeldPointersAreIssued | crates/detritus-server/src/crashes.rs:145-187 | The pointers an upload holds are among those so obtained. |
| BlobStore.IndexPointersAreIssued | crates/detritus-server/src/crashes.rs:299-325 | So are those in the index it writes. |
| BlobStore.EndedStaysEnded | crates/detritus-server/src/crashes.rs:83-203 | An upload that failed or wrote its index does nothing more. |
| BlobStore.YoungIndexStays | crates/detritus-server/src/janitor.rs:112-130 | However uploads and cycles interleave, an index less than the retention in days old, counted in seconds, is not removed. |
| BlobStore.PresentIff | crates/detritus-server/src/janitor.rs:140-166 | A digest is present exactly when it was linked after its last removal, or was there and never removed. |
| BlobStore.CycleInvariantHolds | crates/detritus-server/src/janitor.rs:78-166 | In every phase of a cycle, interleaved with uploads, what has been removed was in the snapshot and was not collected. |
| BlobStore.CycleRemovesOnlyUnreferencedSnapshot | crates/detritus-server/src/janitor.rs:140-166 | A cycle never removes a blob outside its snapshot or one an index it read refers to. |
| BlobStore.GarbageGoes | crates/detritus-server/src/janitor.rs:78-175 | When a cycle finishes, a blob that nobody linked meanwhile and that no index the walk read names as dump or attachment is gone. |
| BlobStore.PointedToUnlessRemoved | crates/detritus-server/src/crashes.rs:145-194 | Whatever an index or an unfinished upload points to is present unless a sweep removed it. |
| BlobStore.IndexResolvesExactlyWhen | crates/detritus-server/src/janitor.rs:78-166 | After a cycle concurrent with any uploads, a retained index keeps a blob exactly when the blob escaped the snapshot, was collected by the walk, or was linked again. |
| BlobStore.IndexesResolveAfterCycle | crates/detritus-server/src/janitor.rs:78-166 | So a retained index whose digests are each outside the snapshot or collected resolves completely. |
| BlobStore.RacingUploadLosesItsBlob | crates/detritus-server/src/janitor.rs:78-166 | An accepted upload that found a snapshot blob and wrote its index behind the walk loses its dump. |
| BlobStore.SettledIndexKeepsItsBlobs | crates/detritus-server/src/janitor.rs:78-166 | Over any number of uploads and cycles, also cycles that end half-way in an error, an index that was complete before the index listing opened keeps all its blobs as long as it is retained, also when the same crash is posted again. |
| BlobStore.SettledBeforeListing | crates/detritus-server/src/janitor.rs:78-89 | Before the index listing opens, an index is safe as soon as it is complete. |
| BlobStore.RemovedExpiredExactlyWhen | crates/detritus-server/src/janitor.rs:124-130 | An index is expired at the moment it is removed exactly when nobody wrote it between the age test and the removal, or that write has expired too. |
| BlobStore.RepostLosesFreshIndex | crates/detritus-server/src/janitor.rs:124-130 | A crash whose own index has expired, and that is posted again between the two, has the index it has just written removed, though it is not expired. |
| BlobStore.MakeIndexDescribes | crates/detritus-server/src/crashes.rs:299-325 | But for dedup flags, an index holds the metadata and for each part its key, media type, encoding, digest and length, the dump apart and the attachments in stream order. |
| BlobStore.IndexIsLastWritten | crates/detritus-server/src/crashes.rs:299-325 | In every run an index is, but for dedup flags, the one of the last upload that wrote it, or unchanged if nobody did; a missing one was removed by the janitor. |
| BlobStore.DescribedExactlyWhen | crates/detritus-server/src/crashes.rs:299-325 | Two uploads whose texts do not collide leave the same index, but for dedup flags, exactly when metadata and parts are the same, the dump apart and the attachments in order. |
| BlobStore.SamePathExactlyWhen | crates/detritus-server/src/crashes.rs:299-313 | Two uploads with digests of one length, whose texts do not collide, write their index at the same path exactly when they have source, timestamp and dump in common. |
| BlobStore.WriterHasPath | crates/detritus-server/src/crashes.rs:299-323 | In every run, whoever last wrote the index at a path is an upload with that path. |
| BlobStore.AcceptedCrashReadsBack | crates/detritus-server/src/crashes.rs:219-325 | At any later time the index of an accepted crash is there unless the janitor removed it; it still holds the metadata, keys, media types and encodings that were sent exactly when the last upload that wrote it since, if any, was of the same crash, and then each pointer that resolves gives the bytes that were sent. |
| BlobStore.OverwrittenBySameOccasion | crates/detritus-server/src/crashes.rs:299-323 | In every run, the last upload that wrote the index of an accepted crash since has the source, the timestamp and the dump of that crash. |
| BlobStore.CompleteCrashStays | crates/detritus-server/src/crashes.rs:219-325 | If moreover no blob was missing at the write, no cycle had opened its index listing, and later writes were retries, every pointer resolves to the bytes that were sent for as long as the index is retained. |
| BlobStore.PostsInvariant | crates/detritus-server/src/crashes.rs:219-325 | While one crash is posted again and again, the store holds at most its blobs and its one index path. |
| BlobStore.EffectivelyOnce | crates/detritus-server/src/crashes.rs:299-325 | Posting a crash any positive number of times, in any interleaving, leaves the same blobs, index paths and, but for dedup flags, the same index. |
| CrashStore.Store.ReadMetadata | crates/detritus-server/src/crashes.rs:205-217 | The metadata part is the concatenation of its chunks, refused exactly when it is over 64 KiB. |
| CrashStore.Store.WritePartToBlob | crates/detritus-server/src/crashes.rs:219-297 | A part is refused, leaving no blob, exactly when it is over the limit; otherwise its bytes are in the store under their digest, with its encoding, its length and whether they were already there. |
| CrashStore.Store.CrashesInner | crates/detritus-server/src/crashes.rs:83-325 | The handler answers as the part-level specification does; an accepted crash adds exactly its blobs and one index with its metadata and what is recorded of each part; a refused one adds no index and the blobs of exactly the parts taken before, none if it is refused for its metadata. |
| CrashStore.ReceivedDumps | crates/detritus-server/src/crashes.rs:142-187 | Among the parts taken there is at most one dump. |
| CrashStore.SortedMakesIndex | crates/detritus-server/src/crashes.rs:142-194 | The dump pointer and attachment list the loop keeps are the ones the index needs. |
| CrashStore.SoloUploadIsARun | crates/detritus-server/src/crashes.rs:219-325 | The effect of one accepted upload is a run of the protocol, in which nothing but that upload happens. |
| CrashStore.OverwritingUpload | crates/detritus-server/src/crashes.rs:299-325 | An uploaded crash with an attachment is kept by its index; then one of the same metadata and dump without the attachment is uploaded, and the index at the same path no longer keeps the first. |
| Disk.Disk.CollectFiles | crates/detritus-server/src/janitor.rs:177-195 | The traversal ends and returns every regular file below the root exactly once, nothing if the root is missing, an error if the root is a file or below one. |
| Janitor.PruneLogs | crates/detritus-server/src/janitor.rs:91-110 | Removes exactly the expired log files below the log root, and counts them and their bytes as logs. |
| Janitor.PruneIndexesAndCollect | crates/detritus-server/src/janitor.rs:112-138 | Removes exactly the expired indexes, counts them and their bytes as indexes, and returns exactly the digests that the remaining readable ones refer to. |
| Janitor.WalkIndexes | crates/detritus-server/src/janitor.rs:120-136 | The loop removes exactly the old indexes, counts them as indexes, and collects from exactly the young readable ones. |
| Janitor.SnapshotBlobs | crates/detritus-server/src/janitor.rs:168-175 | Every blob file once, and nothing else. |
| Janitor.SweepBlobs | crates/detritus-server/src/janitor.rs:140-166 | Removes exactly the unreferenced blobs, and counts them and their bytes as blobs. |
| Janitor.RunCycle | crates/detritus-server/src/janitor.rs:78-89 | On a quiet tree the cycle ends in the specified tree, each counter is the number of files removed of its kind, files and bytes before are those after plus the ones counted, and it fails exactly when a root is, or is below, a file. |
| Janitor.PhasesCompose | crates/detritus-server/src/janitor.rs:78-89 | The phases may each be computed on the tree the cycle started from. |
| Janitor.CycleExactly | crates/detritus-server/src/janitor.rs:78-166 | A blob remains exactly when a remaining readable index refers to it, no expired log or index remains, every other file is untouched. |
| Janitor.BlobStaysExactlyWhen | crates/detritus-server/src/janitor.rs:112-166 | A blob file outlives the cycle exactly when an index file younger than the retention parses to a dump or an attachment of that digest, and those index files stay. |
| Janitor.IndexStaysExactlyWhen | crates/detritus-server/src/janitor.rs:112-130 | The index file of an upload outlives the cycle exactly when it is younger than the retention in days. |
| Janitor.LogStaysExactlyWhen | crates/detritus-server/src/janitor.rs:91-110 | So does the log file of a day. |
| Janitor.SecondCycleIdle | crates/detritus-server/src/janitor.rs:78-166 | A second cycle at the same clock leaves the tree as it is. |
| Janitor.IdleCountsNothing | crates/detritus-server/src/janitor.rs:78-89 | A cycle that left the tree as it is counts no file and no byte. |
| Janitor.SecondCycleReportsNothing | crates/detritus-server/src/janitor.rs:78-166 | A second cycle at the same clock leaves the tree as it is and returns the statistics it began with, which are all zero. |
| Janitor.TotalNumber | crates/detritus-server/src/janitor.rs:91-166 | The number that is counted is the size of the set removed. |
| QuietCycle.CycleRuns | crates/detritus-server/src/janitor.rs:78-166 | In the protocol a cycle that nothing interrupts can run from the snapshot to the end of the sweep, and leaves the young indexes and exactly the blobs they refer to. |
| QuietCycle.PassIsARun | crates/detritus-server/src/janitor.rs:78-166 | What the pass does to a quiet tree is a run of the protocol: a tree that shows the state before it, index by index the digests of dump and attachments in order, shows the state after it. |
| RateLimit.RateLimiter.Check | crates/detritus-server/src/rate_limit.rs:83-126 | A check answers and charges as the specification of the bucket map says. |
| RateLimit.ClosedForm | crates/detritus-server/src/rate_limit.rs:97-108 | Before each check the count is the minimum, over earlier or equal checks, of burst plus rate times elapsed time less the admissions since, and stays between zero and burst. |
| RateLimit.TokensBelow | crates/detritus-server/src/rate_limit.rs:97-108 | The count never exceeds what any earlier check leaves over. |
| RateLimit.TokensAttained | crates/detritus-server/src/rate_limit.rs:97-108 | Some earlier check attains that bound. |
| RateLimit.TokensInRange | crates/detritus-server/src/rate_limit.rs:97-108 | The count stays between zero and the burst. |
| RateLimit.WindowBound | crates/detritus-server/src/rate_limit.rs:97-111 | No window admits more than the burst plus the number per minute for every sixty seconds of its length. |
| RateLimit.MinuteBound | crates/detritus-server/src/rate_limit.rs:97-111 | So no minute admits more than the burst and the number per minute together. |
| RateLimit.BackwardsEarnsNothing | crates/detritus-server/src/rate_limit.rs:101-103 | A clock that goes back earns no tokens. |
| RateLimit.BucketWithinEnvelope | crates/detritus-server/src/rate_limit.rs:97-111 | The bucket's decisions obey the envelope. |
| RateLimit.GreedyOptimal | crates/detritus-server/src/rate_limit.rs:97-111 | On every prefix the bucket admits at least as many requests as any selection that obeys the envelope. |
| RateLimit.RefillTwice | crates/detritus-server/src/rate_limit.rs:97-103 | Refilling in two steps is refilling once. |
| RateLimit.RejectedChecksLeaveNoTrace | crates/detritus-server/src/rate_limit.rs:97-111 | Deleting any rejected checks changes no other decision. |
| RateLimit.BucketOfClient | crates/detritus-server/src/rate_limit.rs:91-97 | In any interleaving a client's bucket depends on that client's request times only. |
| RateLimit.KeysDiffer | crates/detritus-server/src/rate_limit.rs:83-96 | Different clients with valid sources have different bucket keys. |
| RateLimit.BucketIsolation | crates/detritus-server/src/rate_limit.rs:53-126 | In any interleaving a client's verdicts are those of a bucket of its own, with the log limit for logs and the crash limit for crashes. |
| RateLimit.ClientWindowBound | crates/detritus-server/src/rate_limit.rs:83-126 | However requests interleave, the window bound holds per client. |
| Multipart.Sink.WritePart | crates/detritus-protocol/src/multipart.rs:221-246 | Appends the printed part. |
| Multipart.WriteAttachments | crates/detritus-protocol/src/multipart.rs:95-110 | Appends the attachments in order, each with the encoding of its index, none where the list is short. |
| Multipart.WriteEnvelope | crates/detritus-protocol/src/multipart.rs:67-116 | Appends the printed body of metadata, dump and attachments. |
| Multipart.WireFormat | crates/detritus-protocol/src/multipart.rs:111-246 | The text of a part and of the close delimiter, letter for letter. |
| Text.SplitJoinExactlyWhen | crates/detritus-protocol/src/multipart.rs:221-246 | Splitting what was joined gives the pieces back exactly when none contains the delimiter, for delimiters without a border. |
| Text.ExtensionExactlyWhen | crates/detritus-server/src/janitor.rs:97-101 | A file name has an extension exactly when it is a stem, a dot and that extension. |
| Splitter.SegmentsExactlyWhen | crates/detritus-protocol/src/multipart.rs:221-246 | The text between the delimiters is what was printed exactly when no part contains one. |
| Splitter.PayloadIsFree | crates/detritus-protocol/src/multipart.rs:221-246 | A payload without the dash-boundary cannot complete a delimiter with the preceding line break. |
| Splitter.HeadersComeBack | crates/detritus-protocol/src/multipart.rs:235-242 | The header lines printed are the header lines parsed. |
| Splitter.NameComesBackExactlyWhen | crates/detritus-protocol/src/multipart.rs:235-237 | A part name survives the disposition header exactly when it has no quote. |
| Splitter.PrintedPartsReadBack | crates/detritus-protocol/src/multipart.rs:221-246 | Every printed part comes back with name, type, payload and encoding, in order. |
| Splitter.ReadBackExactlyWhen | crates/detritus-protocol/src/multipart.rs:221-246 | A body printed with clean headers reads back part for part exactly when no name has a quote and no payload holds a delimiter. |
| Splitter.SmuggledPart | crates/detritus-protocol/src/multipart.rs:221-246 | A payload that contains a delimiter and the text of another part prints the same body as two parts, and is read as those two. |
| Splitter.BoundaryFirst | crates/detritus-protocol/src/multipart.rs:221-246 | A payload that begins with the dash-boundary makes the reader stop at its own part, whatever follows. |
| Envelope.ReadFrom | crates/detritus-protocol/src/multipart.rs:139-196 | The part loop with its early errors computes the envelope the list of parts stands for. |
| Envelope.ReadExactlyWhen | crates/detritus-protocol/src/multipart.rs:139-196 | A body is read exactly when no part is at fault and it has metadata of the protocol version and a dump; the last of each counts, and the attachments come in order. |
| Envelope.FirstFault | crates/detritus-protocol/src/multipart.rs:155-181 | Otherwise the first part at fault decides the error. |
| Envelope.FaultlessRefused | crates/detritus-protocol/src/multipart.rs:183-191 | Without one, missing metadata are reported before the wrong version, and that before a missing dump. |
| Envelope.MultipartRoundTrip | crates/detritus-protocol/src/multipart.rs:67-196 | Reading what was written gives the metadata, dump and attachments in order, with canonical media types, and each part's encoding. |
| Envelope.RoundTripIsIdentityExactlyWhen | crates/detritus-protocol/src/multipart.rs:160-163 | It gives the envelope itself exactly when its media types are canonical. |
| Envelope.ForgedAttachment | crates/detritus-protocol/src/multipart.rs:86-110 | A dump with a delimiter and an attachment part in it is read as a shorter dump and one more attachment. |
| Envelope.LoweredType | crates/detritus-protocol/src/multipart.rs:160-163 | With a reader that lower-cases media types, an attachment of type `Text/Plain` comes back as `text/plain`. |
| Crashes.RestExactly | crates/detritus-server/src/crashes.rs:142-187 | The part loop succeeds exactly on small enough attachments with at most one dump among them. |
| Crashes.PartsAreFields | crates/detritus-server/src/crashes.rs:145-187 | Each part taken has the bytes and encoding of its field, and as an attachment the key after `attach:` and its media type or octets, in order. |
| Crashes.ServerAcceptsExactly | crates/detritus-server/src/crashes.rs:99-189 | A body is accepted exactly when its parts are metadata, attachments, one dump, attachments; the metadata have at most 65536 bytes, decode, have version 1, two plain source components, and pass token, rate and schema; and no later part is over the limit. |
| Crashes.RefusedExactly | crates/detritus-server/src/crashes.rs:99-189 | A refused body gets the error of the first check that fails, in the order of the source: of the first part, else of the first later part that is refused, else for want of a dump. |
| Crashes.ReadersAgree | crates/detritus-server/src/crashes.rs:99-189 | The client's reader reads every accepted body as the same metadata, dump and attachments. |
| Crashes.ClientReaderIsLaxer | crates/detritus-protocol/src/multipart.rs:155-181 | The client's reader takes a dump before the metadata, which the server refuses. |
| Crashes.PrintedShape | crates/detritus-protocol/src/multipart.rs:76-110 | Every body the writer prints has the shape the server wants. |
| Crashes.WrittenEnvelopeIsServed | crates/detritus-server/src/crashes.rs:83-203 | A written envelope passes exactly when sizes, metadata and permissions do, and the server then holds what the client wrote. |
| Crashes.ServedAsRead | crates/detritus-server/src/crashes.rs:99-189 | On bodies of the shape, both readers agree and only the policy decides. |
| Listing.ListingUnique | crates/detritus-client/src/shipper.rs:334-335 | A sorted listing is determined by its names. |
| Listing.LessExactlyWhen | crates/detritus-client/src/shipper.rs:334-335 | A name comes first if it is the beginning of the other or has the smaller character where they first differ. |
| Listing.Sorted | crates/detritus-client/src/spool.rs:39-53 | Exactly the names found, strictly ascending. |
| Spool.BatchIsPending | crates/detritus-client/src/spool.rs:19-53 | Every batch file that is written is one the replay lists. |
| Worker.Conserved | crates/detritus-client/src/layer.rs:273-309 | At every moment of every run, the batches handed over followed by the one held are the sampled records in order; no batch is empty or over the batch size, and no full batch is held. |
| Worker.NothingHeldBack | crates/detritus-client/src/layer.rs:284-288 | After the channel closes every sampled record has been handed over, in order. |
| Worker.FlushHandsOver | crates/detritus-client/src/layer.rs:289-306 | A flush or a tick leaves nothing behind. |
| Worker.HandedWithItsOutcome | crates/detritus-client/src/layer.rs:273-309 | Each event hands over at most one batch, with the outcome that came with it. |
| Worker.EverythingHandedOver | crates/detritus-client/src/layer.rs:311-320 | At a rate of one or more, as by default, every record that arrives is handed over in order; at zero or less none is. |
| Worker.SampledExactlyWhen | crates/detritus-client/src/layer.rs:311-320 | In between a record is sampled exactly when the residue of its time modulo 10000 lies in the first share of the residues, the rate rounded up. |
| Worker.SampledShare | crates/detritus-client/src/layer.rs:317-318 | So of any 10000 consecutive times exactly that many are sampled. |
| Worker.LargerRateKeepsMore | crates/detritus-client/src/layer.rs:311-320 | A larger rate keeps every record a smaller one keeps. |
| Worker.SettledExactly | crates/detritus-client/src/layer.rs:351-367 | The acknowledged requests are exactly those exported, the lost ones exactly those where export and write both failed, in order. |
| Worker.SampledAccount | crates/detritus-client/src/layer.rs:273-367 | At every moment each sampled record, occurrence by occurrence, was acknowledged, spooled or given up, or is among the fewer than a batch still held. |
| Worker.ResentExactly | crates/detritus-client/src/layer.rs:322-340 | A replay removes exactly the files that were read, decoded, acknowledged and removable, and changes no other. |
| Worker.Worker.ExportRecords | crates/detritus-client/src/layer.rs:351-367 | An empty batch is fine and does nothing; otherwise the batch is settled, and the result is success exactly if it was acknowledged. |
| Worker.Worker.DrainSpooled | crates/detritus-client/src/layer.rs:322-340 | The replay goes through the sorted listing, or does nothing without lock or listing. |
| Worker.Worker.Run | crates/detritus-client/src/layer.rs:273-309 | A lifetime is the replay followed by the settling of exactly the specified hand-overs. |
| Delivery.StepOrderly | crates/detritus-client/src/layer.rs:322-340 | Every event keeps: only the lock holder replays, only batch files, and what is about to be removed is what was sent and acknowledged. |
| Delivery.StepKeepsFile | crates/detritus-client/src/layer.rs:332-338 | A file disappears only by the removal that follows the acknowledgement of its own request, never if it does not decode. |
| Delivery.LockIsReleased | crates/detritus-client/src/layer.rs:322-340 | In every run the lock, if held, is held by a live worker that is replaying: none that ended, was killed or is done keeps it. |
| Delivery.DeliveryLedger | crates/detritus-client/src/layer.rs:322-367 | Over all runs of any number of workers that share one directory, started and killed at any time, occurrence by occurrence: acknowledgements, copies in batch files, copies in a worker's hands and copies given up grow by exactly the hand-overs, plus one for each acknowledged file that stayed or is still to be removed. |
| Delivery.FilesLeaveAcknowledged | crates/detritus-client/src/layer.rs:322-340 | Over all runs each file is unchanged, or the very request read from it was acknowledged in that run. |
| Delivery.NothingLostExactlyWhen | crates/detritus-client/src/layer.rs:351-367 | Nothing is given up exactly when no write fails after a failed export and no worker dies holding a request. |
| Delivery.DeliveredOrWaiting | crates/detritus-client/src/layer.rs:322-367 | Through any number of lifetimes without a mishap, every hand-over and every initial file has an acknowledgement or a file of its own, and there are more of those only for acknowledged files that stayed. |
| Lifetime.SoloLifetimeIsARun | crates/detritus-client/src/layer.rs:273-367 | A whole lifetime of one worker is a run of the shared directory. |
| Lifetime.SpooledHaveFiles | crates/detritus-client/src/layer.rs:351-367 | Every spooled batch has a new file of its own that holds its request, and no earlier file changes. |
| Lifetime.KilledLifetimeIsARun | crates/detritus-client/src/layer.rs:273-367 | So is a lifetime cut short by a kill; each record sampled was acknowledged, is in the file of its batch, was given up, or was in the batch held at the kill. |
| Compression.CompressAttachments | crates/detritus-client/src/shipper.rs:415-435 | The loop fails exactly if a compression does; otherwise each part has the header exactly if it was chosen, and only the first attachment of a key holds compressed bytes, those of the last one chosen. |
| Compression.CompressEnvelope | crates/detritus-client/src/shipper.rs:398-435 | The dump is always compressed and announced; metadata, keys and types are kept. |
| Compression.FaithfulExactlyWhen | crates/detritus-client/src/shipper.rs:415-435 | With a lossless compressor, a receiver that decodes by header gets every attachment back exactly when no compressed attachment repeats an earlier key, unless such an attachment is its own compressed form. |
| Compression.DistinctKeysFaithful | crates/detritus-client/src/shipper.rs:398-435 | With distinct keys every part decodes to the original, and has the header exactly when its bytes were compressed. |
| Compression.RepeatedKeyBreaks | crates/detritus-client/src/shipper.rs:419-431 | Two text attachments under one key: the first arrives with the second's content, the second is announced as compressed but is not. |
| Shipper.CrashSpool.CleanupSent | crates/detritus-client/src/shipper.rs:484-500 | Goes through the sorted entries, removes the stale ones, and stops with an error at the first that cannot be removed. |
| Shipper.CleanupExactlyWhen | crates/detritus-client/src/shipper.rs:484-500 | A cleanup succeeds exactly when every stale entry can be removed, then leaves exactly the recent ones, and never touches a recent one. |
| Shipper.ReadsExactlyWhen | crates/detritus-client/src/shipper.rs:360-384 | An entry reads as an envelope exactly when its metadata decode, its dump is there, and so is every file the manifest names; those are the attachments, in order. |
| Shipper.CrashSpool.ShipEntry | crates/detritus-client/src/shipper.rs:338-358 | An entry moves as it is if it reads, is confirmed, and the old copy and the rename cause no error; otherwise it stays pending. |
| Shipper.CrashSpool.ShipPending | crates/detritus-client/src/shipper.rs:223-243 | Cleans up with 90 days, ships in sorted order, and returns the number shipped, or stops at the first error of either. |
| Shipper.CrashSpool.ShipStoredEntry | crates/detritus-client/src/shipper.rs:314-318 | Also requires a usable stored configuration, and yields its retention. |
| Shipper.CrashSpool.ShipStoredEntries | crates/detritus-client/src/shipper.rs:312-319 | Returns the number shipped and the largest retention among them, or stops at the first error. |
| Shipper.CrashSpool.ShipStored | crates/detritus-client/src/shipper.rs:300-322 | After success cleans up with the largest retention shipped, or 90 days if nothing was, and fails if that fails; after an error it does not clean up. |
| Shipper.StopsAtFirstFailure | crates/detritus-client/src/shipper.rs:223-358 | A run moves exactly a sorted prefix, unchanged: the entries before the first that lacks, written out, a usable configuration, a readable envelope, a success response, the removal of an old copy, or the rename; the rest stays. |
| Shipper.LeavesExactlyWhen | crates/detritus-client/src/shipper.rs:223-358 | A run takes an entry out of pending exactly when none of this is lacking for it or any entry listed before it. |
| Shipper.UnpostedStays | crates/detritus-client/src/shipper.rs:346-347 | An entry whose upload got no success response is pending with the same contents after the run. |
| Shipper.LeavesOnlyConfirmed | crates/detritus-client/src/shipper.rs:223-358 | Over any history of runs and arrivals an entry is still pending as it arrived, or there is a step before which it was so and after which it is not, in which it read, had a usable configuration if one is needed, and got a success response. |
| Shipper.MaxRetentionIsMaximum | crates/detritus-client/src/shipper.rs:502-512 | The recorded retention is attained by a shipped entry and exceeded by none. |
| Shipper.RecentSurvive | crates/detritus-client/src/shipper.rs:484-492 | An entry no older than the retention stays, however large the retention. |
| Shipper.RecentExactlyWhen | crates/detritus-client/src/shipper.rs:484-500 | A sent entry is kept exactly when it is no older than the retention in days, where that goes back no further than time itself. |
| Shipper.PendingRunLeaves | crates/detritus-client/src/shipper.rs:223-243 | A successful run with one endpoint leaves nothing pending, and as sent all that was pending and what else is at most 90 days old. |
| Shipper.StoredRunLeaves | crates/detritus-client/src/shipper.rs:300-322 | A successful run with stored endpoints leaves nothing pending, and as sent what is at most as old as the longest retention a shipped entry asks for, 90 days if there was none. |
| Shipper.FailedCleanupShipsNothing | crates/detritus-client/src/shipper.rs:223-243 | A run with one endpoint that cannot remove a stale entry fails and ships nothing. |
| Shipper.FailedShippingKeepsSent | crates/detritus-client/src/shipper.rs:312-321 | A run with stored endpoints that cannot ship an entry fails and cleans nothing up. |
| Shipper.LongerKeepsMore | crates/detritus-client/src/shipper.rs:484-492 | A longer retention keeps at least as much. |
| PanicHook.CopyContextFile | crates/detritus-client/src/panic_hook.rs:223-237 | Writes the file under its own name, or one after its index, and lists it with key, JSON type and length; or leaves no trace if it cannot be read or written. |
| PanicHook.CopyContextFiles | crates/detritus-client/src/panic_hook.rs:214-221 | Copies in order up to the first failure; success lists all of them. |
| PanicHook.WriteOwnFiles | crates/detritus-client/src/panic_hook.rs:171-182 | Metadata, dump and configuration in this order, up to the first failure. |
| PanicHook.WritePending | crates/detritus-client/src/panic_hook.rs:143-212 | Whatever fails, a prefix of the whole has been written; success means all of it. |
| PanicHook.CrashConsistent | crates/detritus-client/src/panic_hook.rs:143-237 | After every prefix of the writes, with distinct and unreserved names, the entry does not read or reads complete; for the panic hook it reads after the last write, for the minidump handler after the last but one. |
| PanicHook.FinalRead | crates/detritus-client/src/shipper.rs:360-384 | A fully written entry always reads, and reads complete exactly when no context file was written over. |
| PanicHook.RepeatedNameBreaks | crates/detritus-client/src/panic_hook.rs:223-230 | Two context files of one name and different content leave a wrong envelope. |
| PanicHook.ReservedNameBreaks | crates/detritus-client/src/panic_hook.rs:171-182 | So does a context file named like one of the hook's own files. |
| PanicHook.ConsistentExactlyWhen | crates/detritus-client/src/panic_hook.rs:143-237 | Entries are consistent at every moment and for all contents exactly when the names are distinct and unreserved. |
| PanicHook.UsableExactlyWhen | crates/detritus-client/src/panic_hook.rs:223-230 | The context files get distinct and unreserved names exactly when the given names differ from each other, from the hook's files, and from the names that files without one get. |
| PanicHook.ManifestExactlyWhen | crates/detritus-client/src/panic_hook.rs:160-183 | The manifest lists the attachments in order, all as JSON, with their lengths exactly when the length listed for the stored configuration is right. |
| PanicHook.DecimalValue | crates/detritus-client/src/panic_hook.rs:232-233 | A decimal form stands for its number. |
| PanicHook.HookKeysDistinct | crates/detritus-client/src/panic_hook.rs:160-237 | The hook never uses an attachment key twice. |
| PanicHook.HookEntriesFaithful | crates/detritus-client/src/shipper.rs:398-435 | So every complete hook entry is uploaded in a form that decodes by header to the original. |
| EndToEnd.UploadArrives | crates/detritus-client/src/shipper.rs:398-445 | A crash with distinct keys that is compressed, printed, split and accepted by the server is there with its metadata and all attachments in order; each part comes with the header it was sent with, and decodes by it to the original, where only the header `zstd` decodes. |
| EndToEnd.HookCrashArrives | crates/detritus-client/src/panic_hook.rs:143-237 | In particular every complete entry of the panic hook and the minidump handler whose payloads do not contain the boundary. |
| EndToEnd.StoredCrashRecovers | crates/detritus-server/src/crashes.rs:83-325 | A crash compressed, printed, split and accepted, and stored in any interleaving with other uploads and the janitor: at any later time its index was removed by the janitor, or, unless a different crash has overwritten it, holds the metadata, keys and media types, and each blob still in place, decoded by the encoding recorded for it, is the original. |
| EndToEnd.CompleteCrashRecovers | crates/detritus-server/src/crashes.rs:83-325 | If moreover the index was written complete before a cycle opened its index listing, and only retried since, every blob is in place, so the whole crash is recovered for as long as the index is retained. |
| EndToEnd.HookCrashRecovers | crates/detritus-client/src/panic_hook.rs:143-237 | Both hold for every complete hook entry whose payloads do not contain the boundary; a missing index was removed by the janitor. |
| EndToEnd.SpooledCrashRecovers | crates/detritus-client/src/panic_hook.rs:143-237 | From the hook's files, with distinct and unreserved names: if the process died after any number of its writes and the entry can be read and is sent and stored, the server gives back the complete crash with every context file. |
| EndToEnd.OneRequest | crates/detritus-client/src/shipper.rs:386-445 | All accepted attempts to post one pending entry with one compression setting, whatever the boundaries, reach the store as the same request. |
| EndToEnd.EntryStoredOnce | crates/detritus-client/src/shipper.rs:386-445 | So one entry sent any positive number of times, in any interleaving and with any broken attempts, leaves the same blobs, index paths and, but for dedup flags, the same index as any other such history. |
| Logs.LogWriter.Run | crates/detritus-server/src/logs.rs:242-284 | The loop leaves the files the record-by-record specification gives. |
| Logs.AppendedIs | crates/detritus-server/src/logs.rs:253-279 | Every day's file grows by exactly the records of that day that were neither missed nor dropped and could be appended, in order. |
| Logs.FileExistsExactlyWhen | crates/detritus-server/src/logs.rs:253-268 | A day has a file exactly if it had one or the writer opened it. |
| Logs.SilentExactlyWhen | crates/detritus-server/src/logs.rs:253-272 | A record that could be appended is dropped without an error exactly when the clock returns to a day left for one that could not be opened. |
| Logs.RotationExactlyWhen | crates/detritus-server/src/logs.rs:242-284 | Every file grows by exactly its day's records whose open and append did not fail exactly when the clock never returns in that way. |
| Logs.ClockGoesBack | crates/detritus-server/src/logs.rs:253-272 | Three records show the loss. |
| Logs.ForwardHoldsOpen | crates/detritus-server/src/logs.rs:253-272 | With a clock that never goes back, a matching current day implies an open file of that day. |
| Logs.ForwardMisses | crates/detritus-server/src/logs.rs:253-268 | With such a clock a record is missed exactly when its day's file could not be opened up to then. |
| Logs.DayByDayIsArrival | crates/detritus-server/src/logs.rs:242-284 | With such a clock the daily additions in date order are the kept records in order of receipt. |
| Logs.ForwardRotation | crates/detritus-server/src/logs.rs:242-284 | With such a clock both hold, for any pattern of failing opens and appends. |
| Utf8.BoundaryExactly | crates/detritus-server/src/logs.rs:108-110 | In a well-formed text the boundaries are exactly the ends of well-formed prefixes. |
| Utf8.BoundaryNear | crates/detritus-server/src/logs.rs:107-110 | A boundary is at most three octets back. |
| Utf8.WellFormedTogether | crates/detritus-server/src/logs.rs:111 | Well-formed texts concatenate to one. |
| Utf8.Truncated | crates/detritus-server/src/logs.rs:101-115 | A long text is cut at the largest boundary at or below 1021, at most three steps down; the result with its ellipsis is well-formed and has at most 1024 octets; a short one is kept. |

## Left out

- `f64` rounding in the rate limiter and in sampling: exact reals.
- SHA-256, zstd, gzip, tar, JSON, protobuf, media-type parsing, Argon2 and JSON Schema: functions with stated hypotheses, or not modelled.
- The multipart library: replaced by a splitter written from the RFC grammar; folded headers, quoted pairs in names, boundary padding and a preamble other than the empty one are not modelled.
- HTTP, gRPC, TLS, metrics, middleware, tokens, the schema registry and configuration files: an upload or export is an outcome, and what a token permits, what the rate allows and what a schema takes are predicates on the source and the metadata.
- Which content types are compressed: fidelity is proved for every choice.
- Native minidump capture, panic text, the dump tarball and hook chaining: the dump is an input.
- Writing is atomic: a partly written log batch, blob, index or context file is not modelled, nor are temporary files left by an aborted upload.
- Janitor.RunCycle: the clock is read once for the pass, and input or output errors other than a root that is a file or below one do not occur.
- Janitor.CycleExactly: symbolic links and other special files are not modelled, and file names are text.
- BlobStore.CycleInvariantHolds: pruning logs is a phase without events, since it touches neither blobs nor indexes.
- Worker.Worker.Run: records dropped because the channel is full never arrive here.
- Shipper.CrashSpool.CleanupSent: a modification time can always be read, and a removal that fails removes nothing.
- Shipper.StopsAtFirstFailure: files next to the entry directories, and manifest file names that lead out of the entry, are not modelled.
- Logs.LogWriter.Run: a failed append writes nothing, and what a flush does to the disk is not modelled.
- CrashStore.Store.WritePartToBlob: the relative path in a pointer is left out, since the digest determines it.
- The age arithmetic of the janitor for retention periods that overflow 64 bits.

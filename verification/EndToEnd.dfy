/** From a crash entry on the client's disk to what the server holds. */
module EndToEnd {
  import opened Wrappers
  import opened Storage
  import opened Text
  import opened Protocol
  import opened Multipart
  import opened Splitter
  import opened Envelope
  import opened Crashes
  import B = BlobStore
  import opened Compression
  import PanicHook
  import Shipper

  /** The only header the client uses is not changed by reading it. */
  lemma ZstdTrimmed()
    ensures Trim("zstd") == "zstd"
  {
  }

  /** A header the client writes. */
  predicate Known(encoding: Option<Bytes>) { encoding.Some? ==> encoding.value == "zstd" }

  lemma HeadersSeen(json: Json, mime: Mime, e: CrashEnvelope, encodings: Encodings, i: nat)
    requires i < |e.attachments| == |encodings.attachments| && Known(encodings.attachments[i])
    ensures var items := GoodItems(mime, PartsOf(json, e, encodings));
            i + 2 < |items| && items[i + 2].Good? && items[i + 2].field.encoding == encodings.attachments[i]
  {
    ZstdTrimmed();
    assert PartsOf(json, e, encodings)[i + 2] == AttachmentPart(e, encodings, i);
  }

  lemma DumpHeaderSeen(json: Json, mime: Mime, e: CrashEnvelope, encodings: Encodings)
    requires Known(encodings.dump)
    ensures var items := GoodItems(mime, PartsOf(json, e, encodings));
            1 < |items| && items[1].Good? && items[1].field.encoding == encodings.dump && items[1].field.bytes == e.dump
  {
    ZstdTrimmed();
    assert PartsOf(json, e, encodings)[1] == Part("dump", "application/octet-stream", encodings.dump, e.dump);
  }

  /** What came with part `i` of the attachments decodes, by the header it came with, to `original`. */
  ghost predicate ArrivesAs(zstd: Zstd, items: seq<Item>, received: seq<CrashAttachment>, i: nat,
                            original: CrashAttachment) {
    && i < |received| && i + 2 < |items| && items[i + 2].Good?
    && received[i].key == original.key
    && Compression.Decoded(zstd, items[i + 2].field.encoding, received[i].bytes) == Some(original.bytes)
  }

  /** The server holds the crash `e`. */
  ghost predicate Arrived(zstd: Zstd, e: CrashEnvelope, items: seq<Item>, metadata: CrashMetadata, received: Received) {
    && metadata == e.metadata && |received.attachments| == |e.attachments|
    && 1 < |items| && items[1].Good? && received.dump.Some?
    && Compression.Decoded(zstd, items[1].field.encoding, received.dump.value) == Some(e.dump)
    && forall i :: 0 <= i < |e.attachments| ==> ArrivesAs(zstd, items, received.attachments, i, e.attachments[i])
  }

  /** A crash is compressed, printed, sent, split and accepted. Then the server
      has its metadata and the same attachments in order, and decoding each part
      by the header it came with gives back the dump and every attachment. */
  lemma UploadArrives(json: Json, mime: Mime, policy: Policy, zstd: Zstd, should: string -> bool, e: CrashEnvelope,
                      local: CrashEnvelope, encodings: Encodings, boundary: Bytes, items: seq<Item>)
    requires JsonRoundTrips(json) && Lossless(zstd) && DistinctKeys(e.attachments)
    requires e.metadata.schemaVersion == PROTOCOL_VERSION
    requires Prepared(zstd, should, e, local, encodings) && Shippable(json, local, encodings, boundary)
    requires items == ReadItems(mime, Printed(PartsOf(json, local, encodings), boundary), boundary)
    requires Serve(json, policy, items).Ok?
    ensures Arrived(zstd, e, items, Serve(json, policy, items).value.0, Serve(json, policy, items).value.1)
  {
    WrittenEnvelopeIsServed(json, mime, policy, local, encodings, boundary, items);
    MultipartRoundTrip(json, mime, local, encodings, boundary);
    DistinctKeysFaithful(zstd, should, e, local, encodings);
    var received := Serve(json, policy, items).value.1;
    DumpHeaderSeen(json, mime, local, encodings);
    forall i | 0 <= i < |e.attachments| ensures ArrivesAs(zstd, items, received.attachments, i, e.attachments[i]) {
      HeadersSeen(json, mime, local, encodings, i);
      assert Compression.Decoded(zstd, encodings.attachments[i], local.attachments[i].bytes) ==
             Some(e.attachments[i].bytes);
    }
  }

  /** No payload contains the dash-boundary. */
  ghost predicate BoundaryFree(json: Json, local: CrashEnvelope, boundary: Bytes) {
    && NoBreak(boundary)
    && !Contains(json.encode(local.metadata), DashBoundary(boundary)) && !Contains(local.dump, DashBoundary(boundary))
    && forall a :: a in local.attachments ==> !Contains(a.bytes, DashBoundary(boundary))
  }

  /** For the hook's entries this is all the writer needs. */
  lemma HookShippable(json: Json, zstd: Zstd, should: string -> bool, crash: PanicHook.Crash, names: seq<string>,
                      contents: seq<Bytes>, e: CrashEnvelope, local: CrashEnvelope, encodings: Encodings,
                      boundary: Bytes)
    requires |names| == |contents| && e == PanicHook.Complete(crash, names, contents)
    requires Prepared(zstd, should, e, local, encodings) && BoundaryFree(json, local, boundary)
    ensures Shippable(json, local, encodings, boundary)
  {
    forall a | a in local.attachments ensures NoBreak(a.key) && '"' !in a.key && NoBreak(a.contentType) {
      var i :| 0 <= i < |local.attachments| && local.attachments[i] == a;
      PanicHook.HookKeysPlain(crash, names, contents, i, e.attachments);
    }
    forall x | x in encodings.attachments && x.Some? ensures NoBreak(x.value) {
      var i :| 0 <= i < |encodings.attachments| && encodings.attachments[i] == x;
      assert x == Compression.Header(should, e.attachments[i]);
    }
  }

  /** In particular every complete entry of the panic hook and the minidump
      handler whose payloads do not contain the boundary. */
  lemma HookCrashArrives(json: Json, mime: Mime, policy: Policy, zstd: Zstd, should: string -> bool,
                         crash: PanicHook.Crash, names: seq<string>, contents: seq<Bytes>, e: CrashEnvelope,
                         local: CrashEnvelope, encodings: Encodings, boundary: Bytes, items: seq<Item>)
    requires JsonRoundTrips(json) && Lossless(zstd)
    requires |names| == |contents| && e == PanicHook.Complete(crash, names, contents)
    requires crash.metadata.schemaVersion == PROTOCOL_VERSION
    requires Prepared(zstd, should, e, local, encodings) && BoundaryFree(json, local, boundary)
    requires items == ReadItems(mime, Printed(PartsOf(json, local, encodings), boundary), boundary)
    requires Serve(json, policy, items).Ok?
    ensures Arrived(zstd, e, items, Serve(json, policy, items).value.0, Serve(json, policy, items).value.1)
  {
    PanicHook.HookKeysDistinct(crash, names, contents);
    HookShippable(json, zstd, should, crash, names, contents, e, local, encodings, boundary);
    UploadArrives(json, mime, policy, zstd, should, e, local, encodings, boundary, items);
  }

  // ------------------------------------------------------------ in the store

  /** A pointer of the stored index, decoded by the encoding recorded in it. */
  ghost predicate Recovers(zstd: Zstd, pointer: B.Pointer, blobs: map<B.Hash, Bytes>, original: Bytes) {
    pointer.sha256 in blobs ==> Compression.Decoded(zstd, pointer.tag.encoding, blobs[pointer.sha256]) == Some(original)
  }

  ghost predicate RecoversAttachment(zstd: Zstd, mime: Mime, pointer: B.Pointer, blobs: map<B.Hash, Bytes>,
                                     original: CrashAttachment) {
    && pointer.tag.AttachmentTag? && pointer.tag.key == original.key
    && pointer.tag.contentType == NormalType(mime, original.contentType)
    && Recovers(zstd, pointer, blobs, original.bytes)
  }

  /** The index and what its pointers resolve to give the crash back. */
  ghost predicate Recovered(zstd: Zstd, mime: Mime, e: CrashEnvelope, index: B.CrashIndex, blobs: map<B.Hash, Bytes>) {
    && index.metadata == e.metadata && |index.attachments| == |e.attachments|
    && index.dump.tag.DumpTag? && Recovers(zstd, index.dump, blobs, e.dump)
    && forall i :: 0 <= i < |e.attachments| ==>
         RecoversAttachment(zstd, mime, index.attachments[i], blobs, e.attachments[i])
  }

  lemma DumpFirst(parts: seq<B.Part>)
    requires B.OneDump(parts) && parts[0].IsDump()
    ensures B.Arranged(parts, parts) == (parts[0], parts[1..])
  {
    assert B.DumpIndex(parts) == 0;
    assert parts[..0] + parts[1..] == parts[1..];
  }

  ghost predicate TakenAs(part: B.Part, mime: Mime, a: CrashAttachment, encoding: Option<Bytes>) {
    && part.tag.AttachmentTag? && part.tag.key == a.key && part.tag.contentType == NormalType(mime, a.contentType)
    && part.bytes == a.bytes && part.tag.encoding == encoding
  }

  lemma FieldTaken(mime: Mime, a: CrashAttachment, encoding: Option<Bytes>, f: Field)
    requires f == FieldOf(mime, Part("attach:" + a.key, a.contentType, encoding, a.bytes)) && Known(encoding)
    ensures f.name.Some? && ATTACH <= f.name.value && f.name.value != "dump" && TakenAs(PartOf(f), mime, a, encoding)
  {
    AttachName(a.key);
    ZstdTrimmed();
  }

  /** The parts of a printed envelope, as the server takes them. */
  lemma AttachmentTaken(json: Json, mime: Mime, policy: Policy, local: CrashEnvelope, encodings: Encodings,
                        items: seq<Item>, i: nat)
    requires i < |encodings.attachments| == |local.attachments| && Known(encodings.attachments[i])
    requires items == GoodItems(mime, PartsOf(json, local, encodings)) && Serve(json, policy, items).Ok?
    ensures var parts := Serve(json, policy, items).value.1.parts;
            |parts| == |local.attachments| + 1
            && TakenAs(parts[i + 1], mime, local.attachments[i], encodings.attachments[i])
  {
    var f := items[i + 2].field;
    PartsAreFields(policy, items[1..], i + 1);
    assert PartsOf(json, local, encodings)[i + 2] == AttachmentPart(local, encodings, i);
    FieldTaken(mime, local.attachments[i], encodings.attachments[i], f);
  }

  lemma DumpTaken(json: Json, mime: Mime, policy: Policy, local: CrashEnvelope, encodings: Encodings, items: seq<Item>)
    requires Known(encodings.dump)
    requires items == GoodItems(mime, PartsOf(json, local, encodings)) && Serve(json, policy, items).Ok?
    ensures var parts := Serve(json, policy, items).value.1.parts;
            && |parts| == |local.attachments| + 1
            && parts[0] == B.Part(B.DumpTag(encodings.dump), local.dump)
  {
    PartsAreFields(policy, items[1..], 0);
    DumpHeaderSeen(json, mime, local, encodings);
    assert PartsOf(json, local, encodings)[1] == Part("dump", "application/octet-stream", encodings.dump, local.dump);
  }

  /** What an index keeps of a printed envelope recovers the original. */
  lemma KeptRecovers(zstd: Zstd, mime: Mime, should: string -> bool, e: CrashEnvelope, local: CrashEnvelope,
                     encodings: Encodings, request: B.Request, index: B.CrashIndex, blobs: map<B.Hash, Bytes>)
    requires Lossless(zstd) && DistinctKeys(e.attachments) && Prepared(zstd, should, e, local, encodings)
    requires B.OneDump(request.parts) && B.KeepsAll(index, request, blobs) && request.metadata == e.metadata
    requires |request.parts| == |local.attachments| + 1
    requires request.parts[0] == B.Part(B.DumpTag(encodings.dump), local.dump)
    requires forall i :: 0 <= i < |local.attachments| ==>
               TakenAs(request.parts[i + 1], mime, local.attachments[i], encodings.attachments[i])
    ensures Recovered(zstd, mime, e, index, blobs)
  {
    DistinctKeysFaithful(zstd, should, e, local, encodings);
    DumpFirst(request.parts);
    forall i | 0 <= i < |e.attachments|
      ensures RecoversAttachment(zstd, mime, index.attachments[i], blobs, e.attachments[i])
    {
      assert TakenAs(request.parts[i + 1], mime, local.attachments[i], encodings.attachments[i]);
      assert B.Keeps(index.attachments[i], request.parts[1..][i], blobs);
      assert Compression.Decoded(zstd, encodings.attachments[i], local.attachments[i].bytes) ==
             Some(e.attachments[i].bytes);
    }
  }

  /** Crash `e` was compressed to `local`, printed, split and accepted. */
  ghost predicate Transmitted(json: Json, mime: Mime, policy: Policy, zstd: Zstd, should: string -> bool,
                              e: CrashEnvelope, local: CrashEnvelope, encodings: Encodings, boundary: Bytes,
                              metadata: CrashMetadata, received: Received)
  {
    && Prepared(zstd, should, e, local, encodings)
    && Serve(json, policy, ReadItems(mime, Printed(PartsOf(json, local, encodings), boundary), boundary)) ==
       Ok((metadata, received))
  }

  /** Upload `u` carries it, and writes its index at `p` in a run with any others
      and the janitor, that goes on to `end`. Whoever has written the index since
      was posting the same crash. */
  ghost predicate StoredBy(env: B.Env, metadata: CrashMetadata, received: Received, s0: B.State, es: seq<B.Event>,
                           s: B.State, u: nat, p: Path, later: seq<B.Event>, end: B.State)
  {
    && B.Accepted(env, s0, es, s, u, p, later, end)
    && s.uploads[u].request == B.Request(metadata, received.parts)
    && var writer := B.LastWriter(env, B.Apply(env, s, B.Index(u, p)), later, p);
       writer.None? || B.SameCrash(writer.value, s.uploads[u].request)
  }

  lemma TransmittedParts(json: Json, mime: Mime, policy: Policy, zstd: Zstd, should: string -> bool, e: CrashEnvelope,
                         local: CrashEnvelope, encodings: Encodings, boundary: Bytes, metadata: CrashMetadata,
                         received: Received)
    requires JsonRoundTrips(json)
    requires e.metadata.schemaVersion == PROTOCOL_VERSION && Shippable(json, local, encodings, boundary)
    requires Transmitted(json, mime, policy, zstd, should, e, local, encodings, boundary, metadata, received)
    ensures metadata == e.metadata && |received.parts| == |local.attachments| + 1
    ensures received.parts[0] == B.Part(B.DumpTag(encodings.dump), local.dump)
    ensures forall i :: 0 <= i < |local.attachments| ==>
              TakenAs(received.parts[i + 1], mime, local.attachments[i], encodings.attachments[i])
  {
    var items := ReadItems(mime, Printed(PartsOf(json, local, encodings), boundary), boundary);
    WrittenEnvelopeIsServed(json, mime, policy, local, encodings, boundary, items);
    MultipartRoundTrip(json, mime, local, encodings, boundary);
    DumpTaken(json, mime, policy, local, encodings, items);
    forall i | 0 <= i < |local.attachments|
      ensures TakenAs(received.parts[i + 1], mime, local.attachments[i], encodings.attachments[i])
    {
      assert encodings.attachments[i] == Compression.Header(should, e.attachments[i]);
      AttachmentTaken(json, mime, policy, local, encodings, items, i);
    }
  }

  /** From the client's disk to the server's, and for good. A crash is compressed,
      printed, split and accepted, and its parts are stored by an upload that runs
      in any interleaving with others and the janitor. Then, at any later time, the
      index, if it is still there, holds the crash's metadata, keys and media types,
      and each blob still in place, decoded by the encoding recorded for it, is the
      original. */
  lemma StoredCrashRecovers(env: B.Env, json: Json, mime: Mime, policy: Policy, zstd: Zstd, should: string -> bool,
                            e: CrashEnvelope, local: CrashEnvelope, encodings: Encodings, boundary: Bytes,
                            metadata: CrashMetadata, received: Received, s0: B.State, es: seq<B.Event>, s: B.State,
                            u: nat, p: Path, later: seq<B.Event>, end: B.State)
    requires JsonRoundTrips(json) && Lossless(zstd) && DistinctKeys(e.attachments)
    requires e.metadata.schemaVersion == PROTOCOL_VERSION && Shippable(json, local, encodings, boundary)
    requires Transmitted(json, mime, policy, zstd, should, e, local, encodings, boundary, metadata, received)
    requires StoredBy(env, metadata, received, s0, es, s, u, p, later, end)
    ensures p !in end.indexes ==> B.Unlinked(p) in later
    ensures p in end.indexes ==>
              end.indexes[p].body.Some? && Recovered(zstd, mime, e, end.indexes[p].body.value, end.blobs)
  {
    TransmittedParts(json, mime, policy, zstd, should, e, local, encodings, boundary, metadata, received);
    B.AcceptedCrashReadsBack(env, s0, es, s, u, p, later, end);
    if p in end.indexes {
      KeptRecovers(zstd, mime, should, e, local, encodings, s.uploads[u].request, end.indexes[p].body.value, end.blobs);
    }
  }

  /** Every pointer of the index resolves. */
  ghost predicate Whole(index: B.CrashIndex, blobs: map<B.Hash, Bytes>) {
    index.dump.sha256 in blobs && forall i :: 0 <= i < |index.attachments| ==> index.attachments[i].sha256 in blobs
  }

  lemma RefsWhole(index: B.CrashIndex, blobs: map<B.Hash, Bytes>)
    requires B.Refs(index) <= blobs.Keys
    ensures Whole(index, blobs)
  {
    forall i | 0 <= i < |index.attachments| ensures index.attachments[i].sha256 in blobs {
      assert index.attachments[i] in index.attachments;
    }
  }

  /** If moreover the index was complete when it was written, before a cycle opens
      its index listing, and posts of the same crash came while it was there, the
      whole crash is recovered for as long as the index is retained. */
  lemma CompleteCrashRecovers(env: B.Env, json: Json, mime: Mime, policy: Policy, zstd: Zstd, should: string -> bool,
                              e: CrashEnvelope, local: CrashEnvelope, encodings: Encodings, boundary: Bytes,
                              metadata: CrashMetadata, received: Received, s0: B.State, es: seq<B.Event>, s: B.State,
                              u: nat, p: Path, later: seq<B.Event>, end: B.State)
    requires JsonRoundTrips(json) && Lossless(zstd) && DistinctKeys(e.attachments)
    requires e.metadata.schemaVersion == PROTOCOL_VERSION && Shippable(json, local, encodings, boundary)
    requires Transmitted(json, mime, policy, zstd, should, e, local, encodings, boundary, metadata, received)
    requires StoredBy(env, metadata, received, s0, es, s, u, p, later, end) && p in end.indexes
    requires B.WrittenInTime(env, s, u, p, later)
    ensures end.indexes[p].body.Some? && Whole(end.indexes[p].body.value, end.blobs)
    ensures Recovered(zstd, mime, e, end.indexes[p].body.value, end.blobs)
  {
    StoredCrashRecovers(env, json, mime, policy, zstd, should, e, local, encodings, boundary, metadata, received,
                        s0, es, s, u, p, later, end);
    B.CompleteCrashStays(env, s0, es, s, u, p, later, end);
    RefsWhole(end.indexes[p].body.value, end.blobs);
  }

  /** So it is for every complete entry that the panic hook or the minidump handler leaves behind. */
  lemma HookCrashRecovers(env: B.Env, json: Json, mime: Mime, policy: Policy, zstd: Zstd, should: string -> bool,
                          crash: PanicHook.Crash, names: seq<string>, contents: seq<Bytes>,
                          e: CrashEnvelope, local: CrashEnvelope, encodings: Encodings, boundary: Bytes,
                          metadata: CrashMetadata, received: Received, s0: B.State, es: seq<B.Event>, s: B.State,
                          u: nat, p: Path, later: seq<B.Event>, end: B.State)
    requires JsonRoundTrips(json) && Lossless(zstd) && |names| == |contents|
    requires e == PanicHook.Complete(crash, names, contents)
    requires crash.metadata.schemaVersion == PROTOCOL_VERSION && BoundaryFree(json, local, boundary)
    requires Transmitted(json, mime, policy, zstd, should, e, local, encodings, boundary, metadata, received)
    requires StoredBy(env, metadata, received, s0, es, s, u, p, later, end)
    ensures p !in end.indexes ==> B.Unlinked(p) in later
    ensures p in end.indexes ==>
              && end.indexes[p].body.Some? && Recovered(zstd, mime, e, end.indexes[p].body.value, end.blobs)
              && (B.WrittenInTime(env, s, u, p, later) ==> Whole(end.indexes[p].body.value, end.blobs))
  {
    PanicHook.HookKeysDistinct(crash, names, contents);
    HookShippable(json, zstd, should, crash, names, contents, e, local, encodings, boundary);
    StoredCrashRecovers(env, json, mime, policy, zstd, should, e, local, encodings, boundary, metadata, received,
                        s0, es, s, u, p, later, end);
    if p in end.indexes && B.WrittenInTime(env, s, u, p, later) {
      CompleteCrashRecovers(env, json, mime, policy, zstd, should, e, local, encodings, boundary, metadata, received,
                            s0, es, s, u, p, later, end);
    }
  }

  /** From the hook's files. The process may die after any number `k` of its writes:
      if a later process can read the entry at all, and sends what it read, the
      server's store gives back the complete crash, with every context file. */
  lemma SpooledCrashRecovers(env: B.Env, json: Json, mime: Mime, policy: Policy, zstd: Zstd, should: string -> bool,
                             crash: PanicHook.Crash, names: seq<string>, contents: seq<Bytes>, k: nat,
                             e: CrashEnvelope, local: CrashEnvelope, encodings: Encodings, boundary: Bytes,
                             metadata: CrashMetadata, received: Received, s0: B.State, es: seq<B.Event>, s: B.State,
                             u: nat, p: Path, later: seq<B.Event>, end: B.State)
    requires JsonRoundTrips(json) && Lossless(zstd)
    requires |names| == |contents| && PanicHook.Usable(names) && k <= |names| + 3
    requires var files := PanicHook.Written(PanicHook.Writes(json, crash, names, contents)[..k]);
             Shipper.ReadEnvelope(json, files) == Some(e)
    requires crash.metadata.schemaVersion == PROTOCOL_VERSION && BoundaryFree(json, local, boundary)
    requires Transmitted(json, mime, policy, zstd, should, e, local, encodings, boundary, metadata, received)
    requires StoredBy(env, metadata, received, s0, es, s, u, p, later, end)
    ensures p !in end.indexes ==> B.Unlinked(p) in later
    ensures p in end.indexes ==>
              var complete := PanicHook.Complete(crash, names, contents);
              && end.indexes[p].body.Some? && Recovered(zstd, mime, complete, end.indexes[p].body.value, end.blobs)
              && (B.WrittenInTime(env, s, u, p, later) ==> Whole(end.indexes[p].body.value, end.blobs))
  {
    PanicHook.CrashConsistent(json, crash, names, contents, k);
    HookCrashRecovers(env, json, mime, policy, zstd, should, crash, names, contents, e, local, encodings, boundary,
                      metadata, received, s0, es, s, u, p, later, end);
  }

  // --------------------------------------------------- posting more than once

  /** Compression is a function of the envelope. */
  lemma PreparedOnce(zstd: Zstd, should: string -> bool, e: CrashEnvelope, local: CrashEnvelope, encodings: Encodings,
                     local': CrashEnvelope, encodings': Encodings)
    requires Prepared(zstd, should, e, local, encodings) && Prepared(zstd, should, e, local', encodings')
    ensures local == local' && encodings == encodings'
  {
    var n := |e.attachments|;
    forall i | 0 <= i < n ensures local.attachments[i] == local'.attachments[i] {
      assert BytesAfter(zstd, should, e.attachments, n, i) == Some(local.attachments[i].bytes);
    }
    assert local.attachments == local'.attachments && encodings.attachments == encodings'.attachments;
  }

  /** Some attempt to post entry `e`, with whatever boundary, is accepted as `request`. */
  ghost predicate Carries(json: Json, mime: Mime, policy: Policy, zstd: Zstd, should: string -> bool, e: CrashEnvelope,
                          request: B.Request)
  {
    exists local, encodings, boundary, metadata, received ::
      && Shippable(json, local, encodings, boundary)
      && Transmitted(json, mime, policy, zstd, should, e, local, encodings, boundary, metadata, received)
      && request == B.Request(metadata, received.parts)
  }

  /** What the server takes of a printed envelope. */
  function TakenParts(mime: Mime, local: CrashEnvelope, encodings: Encodings): seq<B.Part>
    requires |local.attachments| == |encodings.attachments|
  {
    var attachments := local.attachments;
    [B.Part(B.DumpTag(encodings.dump), local.dump)]
    + seq(|attachments|, i requires 0 <= i < |attachments| =>
            B.Part(B.AttachmentTag(attachments[i].key, NormalType(mime, attachments[i].contentType),
                                   encodings.attachments[i]), attachments[i].bytes))
  }

  lemma TakenAreParts(mime: Mime, local: CrashEnvelope, encodings: Encodings, parts: seq<B.Part>)
    requires |parts| == |local.attachments| + 1 && |local.attachments| == |encodings.attachments|
    requires parts[0] == B.Part(B.DumpTag(encodings.dump), local.dump)
    requires forall i :: 0 <= i < |local.attachments| ==>
               TakenAs(parts[i + 1], mime, local.attachments[i], encodings.attachments[i])
    ensures parts == TakenParts(mime, local, encodings) && B.OneDump(parts)
  {
    forall i | 0 < i < |parts| ensures parts[i] == TakenParts(mime, local, encodings)[i] && !parts[i].IsDump() {
      assert TakenAs(parts[i - 1 + 1], mime, local.attachments[i - 1], encodings.attachments[i - 1]);
    }
    assert B.DumpAt(parts, 0);
  }

  lemma CarriedIs(json: Json, mime: Mime, policy: Policy, zstd: Zstd, should: string -> bool, e: CrashEnvelope,
                  request: B.Request) returns (local: CrashEnvelope, encodings: Encodings)
    requires JsonRoundTrips(json) && e.metadata.schemaVersion == PROTOCOL_VERSION
    requires Carries(json, mime, policy, zstd, should, e, request)
    ensures Prepared(zstd, should, e, local, encodings) && |local.attachments| == |encodings.attachments|
    ensures request == B.Request(e.metadata, TakenParts(mime, local, encodings)) && B.OneDump(request.parts)
  {
    var boundary, metadata, received;
    local, encodings, boundary, metadata, received :|
      && Shippable(json, local, encodings, boundary)
      && Transmitted(json, mime, policy, zstd, should, e, local, encodings, boundary, metadata, received)
      && request == B.Request(metadata, received.parts);
    TransmittedParts(json, mime, policy, zstd, should, e, local, encodings, boundary, metadata, received);
    TakenAreParts(mime, local, encodings, received.parts);
  }

  /** All accepted attempts to post one entry are one request. */
  lemma OneRequest(json: Json, mime: Mime, policy: Policy, zstd: Zstd, should: string -> bool, e: CrashEnvelope,
                   r: B.Request, r': B.Request)
    requires JsonRoundTrips(json) && e.metadata.schemaVersion == PROTOCOL_VERSION
    requires Carries(json, mime, policy, zstd, should, e, r) && Carries(json, mime, policy, zstd, should, e, r')
    ensures r == r' && B.OneDump(r.parts)
  {
    var local, encodings := CarriedIs(json, mime, policy, zstd, should, e, r);
    var local', encodings' := CarriedIs(json, mime, policy, zstd, should, e, r');
    PreparedOnce(zstd, should, e, local, encodings, local', encodings');
  }

  /** Nothing happens at the store but attempts to post entry `e`. */
  ghost predicate OnlyAttempts(json: Json, mime: Mime, policy: Policy, zstd: Zstd, should: string -> bool,
                               e: CrashEnvelope, es: seq<B.Event>)
  {
    forall x :: x in es ==>
      !B.JanitorEvent(x) && (x.Begin? ==> Carries(json, mime, policy, zstd, should, e, x.request))
  }

  lemma AttemptsArePosts(json: Json, mime: Mime, policy: Policy, zstd: Zstd, should: string -> bool, e: CrashEnvelope,
                         es: seq<B.Event>, r: B.Request)
    requires JsonRoundTrips(json) && e.metadata.schemaVersion == PROTOCOL_VERSION
    requires Carries(json, mime, policy, zstd, should, e, r) && OnlyAttempts(json, mime, policy, zstd, should, e, es)
    ensures B.OnlyPosts(es, r)
  {
    forall x | x in es && x.Begin? ensures x.request == r {
      OneRequest(json, mime, policy, zstd, should, e, r, x.request);
    }
  }

  /** However often the client sends one entry, with one compression setting and
      any boundaries, and however the attempts interleave or break off: once one
      has been accepted, the store holds the same blobs, index paths and, but for dedup
      flags, the same index as after any other such history. */
  lemma EntryStoredOnce(env: B.Env, json: Json, mime: Mime, policy: Policy, zstd: Zstd, should: string -> bool,
                        e: CrashEnvelope, r: B.Request, s0: B.State, es: seq<B.Event>, es': seq<B.Event>)
    requires JsonRoundTrips(json) && e.metadata.schemaVersion == PROTOCOL_VERSION && s0.uploads == map[]
    requires Carries(json, mime, policy, zstd, should, e, r)
    requires OnlyAttempts(json, mime, policy, zstd, should, e, es) && B.Posted(es) && B.Run(env, s0, es).Some?
    requires OnlyAttempts(json, mime, policy, zstd, should, e, es') && B.Posted(es') && B.Run(env, s0, es').Some?
    ensures B.OneDump(r.parts)
    ensures var s, s', p := B.Run(env, s0, es).value, B.Run(env, s0, es').value, B.PathFor(env, r);
            && s.blobs.Keys == s'.blobs.Keys && s.indexes.Keys == s'.indexes.Keys == s0.indexes.Keys + {p}
            && s.indexes[p].body.Some? && s'.indexes[p].body.Some?
            && B.Plain(s.indexes[p].body.value) == B.Plain(s'.indexes[p].body.value)
    ensures B.CollisionFree(env, B.Texts(s0, es + es')) && B.ContentAddressed(env, s0) ==>
              B.Run(env, s0, es).value.blobs == B.Run(env, s0, es').value.blobs
  {
    OneRequest(json, mime, policy, zstd, should, e, r, r);
    AttemptsArePosts(json, mime, policy, zstd, should, e, es, r);
    AttemptsArePosts(json, mime, policy, zstd, should, e, es', r);
    B.EffectivelyOnce(env, s0, es, es', r);
  }
}

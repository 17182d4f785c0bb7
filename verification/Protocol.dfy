/** Crash envelopes and their metadata. */
module Protocol {
  import opened Wrappers
  import opened Storage

  const PROTOCOL_VERSION: nat := 1

  datatype AttachmentManifest =
    AttachmentManifest(key: string, filename: Option<string>, contentType: string, len: nat)

  /** `source` holds the project and the install id; `details` stands for the
      platform, version, kind, build, panic text and context fields, which
      nothing here inspects. */
  datatype CrashMetadata = CrashMetadata(
    schemaVersion: nat,
    source: SourceKey,
    timestamp: string,
    details: string,
    attachments: seq<AttachmentManifest>)

  datatype CrashAttachment = CrashAttachment(key: string, contentType: string, bytes: Bytes)

  datatype CrashEnvelope =
    CrashEnvelope(metadata: CrashMetadata, dump: Bytes, attachments: seq<CrashAttachment>)

  /** The JSON codec for metadata. */
  datatype Json = Json(encode: CrashMetadata -> Bytes, decode: Bytes -> Option<CrashMetadata>)

  ghost predicate JsonRoundTrips(json: Json) {
    forall m: CrashMetadata :: json.decode(json.encode(m)) == Some(m)
  }
}

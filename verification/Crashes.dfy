/**
 What the crash endpoint takes from the parts of a body, and how that compares
 with the client's reader. Token scope, rate limit and schema validation are
 predicates of the `policy`. `CrashStore` says what is written to disk.
 */
module Crashes {
  import opened Wrappers
  import opened Storage
  import opened Protocol
  import opened Multipart
  import opened Splitter
  import opened Envelope
  import B = BlobStore

  const METADATA_MAX_BYTES: nat := 64 * 1024

  datatype CrashError =
    | BadRequest
    | Missing(part: string)
    | ProtocolVersion(actual: nat)
    | InvalidSource
    | PermissionDenied
    | RateLimited
    | SchemaInvalid
    | PayloadTooLarge(max: nat)
    | BadJson
    | BadMultipart

  /** Which sources the token permits, which are within their rate now, and which
      metadata the schema of its project takes. */
  datatype Policy = Policy(permits: SourceKey -> bool, withinRate: SourceKey -> bool,
                           validates: CrashMetadata -> bool, maxDumpBytes: nat)

  /** What the part loop has taken: the dump, the attachments in order, and all
      parts in stream order. */
  datatype Received = Received(dump: Option<Bytes>, attachments: seq<CrashAttachment>, parts: seq<B.Part>)

  const NOTHING := Received(None, [], [])

  function TakeFirst(json: Json, policy: Policy, items: seq<Item>): Result<CrashMetadata, CrashError> {
    if items == [] then Err(Missing("metadata"))
    else if items[0].Bad? then Err(BadMultipart)
    else if items[0].field.name != Some("metadata") then Err(BadRequest)
    else TakeMetadata(json, policy, items[0].field.bytes)
  }

  function TakeMetadata(json: Json, policy: Policy, bytes: Bytes): Result<CrashMetadata, CrashError> {
    if |bytes| > METADATA_MAX_BYTES then Err(PayloadTooLarge(METADATA_MAX_BYTES))
    else
      match json.decode(bytes)
      case None => Err(BadJson)
      case Some(m) =>
        if m.schemaVersion != PROTOCOL_VERSION then Err(ProtocolVersion(m.schemaVersion))
        else if NewSourceKey(m.source.project, m.source.sourceId).Err? then Err(InvalidSource)
        else if !policy.permits(m.source) then Err(PermissionDenied)
        else if !policy.withinRate(m.source) then Err(RateLimited)
        else if !policy.validates(m) then Err(SchemaInvalid)
        else Ok(m)
  }

  /** A field as a part of the upload, with what is recorded about it. */
  function PartOf(f: Field): B.Part
    requires f.name.Some? && (f.name.value == "dump" || ATTACH <= f.name.value)
  {
    B.Part(if f.name.value == "dump" then B.DumpTag(f.encoding)
           else B.AttachmentTag(AttachmentOf(f).key, AttachmentOf(f).contentType, f.encoding), f.bytes)
  }

  function TakeNext(policy: Policy, acc: Received, item: Item): Result<Received, CrashError> {
    if item.Bad? then Err(BadMultipart)
    else
      var f := item.field;
      if f.name.None? || f.name.value == "metadata" then Err(BadRequest)
      else if f.name.value == "dump" then
        if acc.dump.Some? then Err(BadRequest)
        else if |f.bytes| > policy.maxDumpBytes then Err(PayloadTooLarge(policy.maxDumpBytes))
        else Ok(acc.(dump := Some(f.bytes), parts := acc.parts + [PartOf(f)]))
      else if ATTACH <= f.name.value then
        if |f.bytes| > policy.maxDumpBytes then Err(PayloadTooLarge(policy.maxDumpBytes))
        else Ok(acc.(attachments := acc.attachments + [AttachmentOf(f)], parts := acc.parts + [PartOf(f)]))
      else Err(BadRequest)
  }

  /** The loop over the items after the first. */
  function TakeRest(policy: Policy, items: seq<Item>): Result<Received, CrashError> {
    if items == [] then Ok(NOTHING)
    else
      var acc :- TakeRest(policy, items[..|items| - 1]);
      TakeNext(policy, acc, items[|items| - 1])
  }

  /** The part has the bytes and the encoding of the field; an attachment has for its
      key what follows `attach:`, and a media type, octets if none is given. */
  ghost predicate Records(part: B.Part, f: Field)
    requires f.name.Some?
  {
    && part.bytes == f.bytes && part.tag.encoding == f.encoding && (part.IsDump() <==> f.name.value == "dump")
    && (!part.IsDump() ==>
          && f.name.value == "attach:" + part.tag.key
          && part.tag.contentType == if f.contentType.Some? then f.contentType.value else "application/octet-stream")
  }

  /** The parts taken are the fields, one by one. */
  lemma {:induction false} PartsAreFields(policy: Policy, items: seq<Item>, j: nat)
    requires TakeRest(policy, items).Ok? && j < |items|
    ensures |TakeRest(policy, items).value.parts| == |items|
    ensures items[j].Good? && items[j].field.name.Some?
    ensures items[j].field.name.value == "dump" || ATTACH <= items[j].field.name.value
    ensures TakeRest(policy, items).value.parts[j] == PartOf(items[j].field)
    ensures Records(TakeRest(policy, items).value.parts[j], items[j].field)
  {
    var n := |items| - 1;
    if n > 0 {
      PartsAreFields(policy, items[..n], if j < n then j else 0);
    }
  }

  function Serve(json: Json, policy: Policy, items: seq<Item>): Result<(CrashMetadata, Received), CrashError> {
    var metadata :- TakeFirst(json, policy, items);
    var received :- TakeRest(policy, items[1..]);
    if received.dump.None? then Err(Missing("dump")) else Ok((metadata, received))
  }

  // ------------------------------------------------------- what the server accepts

  predicate Named(item: Item, name: Bytes) { item.Good? && item.field.name == Some(name) }

  predicate Attachment(item: Item) {
    item.Good? && item.field.name.Some? && ATTACH <= item.field.name.value
  }

  /** `k` is the place of the only dump among attachments. */
  ghost predicate DumpAmongAttachments(items: seq<Item>, k: nat) {
    k < |items| && Named(items[k], "dump") && forall i :: 0 <= i < |items| && i != k ==> Attachment(items[i])
  }

  /** metadata, attachments, one dump, attachments. */
  ghost predicate Shape(items: seq<Item>) {
    items != [] && Named(items[0], "metadata") && exists k: nat :: DumpAmongAttachments(items[1..], k)
  }

  /** A path component the server takes. */
  ghost predicate Plain(component: string) {
    component !in {"", ".", ".."} && '/' !in component && '\\' !in component
  }

  ghost predicate Admissible(policy: Policy, m: CrashMetadata) {
    && m.schemaVersion == 1 && Plain(m.source.project) && Plain(m.source.sourceId)
    && policy.permits(m.source) && policy.withinRate(m.source) && policy.validates(m)
  }

  /** Everything else the server asks of a body of that shape. */
  ghost predicate Acceptable(json: Json, policy: Policy, items: seq<Item>) {
    && items != [] && items[0].Good? && |items[0].field.bytes| <= 65536
    && json.decode(items[0].field.bytes).Some? && Admissible(policy, json.decode(items[0].field.bytes).value)
    && (forall i :: 1 <= i < |items| ==> items[i].Good? && |items[i].field.bytes| <= policy.maxDumpBytes)
  }

  lemma MetadataTaken(json: Json, policy: Policy, bytes: Bytes)
    ensures TakeMetadata(json, policy, bytes).Ok? <==>
            |bytes| <= 65536 && json.decode(bytes).Some? && Admissible(policy, json.decode(bytes).value)
    ensures TakeMetadata(json, policy, bytes).Ok? ==>
              json.decode(bytes) == Some(TakeMetadata(json, policy, bytes).value)
  {
  }

  lemma NamesDiffer(item: Item)
    requires Attachment(item)
    ensures !Named(item, "metadata") && !Named(item, "dump")
  {
    var name := item.field.name.value;
    assert name[0] == ATTACH[0] == 'a' && "metadata"[0] == 'm' && "dump"[0] == 'd';
  }

  ghost predicate SmallEnough(policy: Policy, items: seq<Item>) {
    forall i :: 0 <= i < |items| ==> items[i].Good? && |items[i].field.bytes| <= policy.maxDumpBytes
  }

  ghost predicate AllAttachments(items: seq<Item>) {
    forall i :: 0 <= i < |items| ==> Attachment(items[i])
  }

  /** The loop succeeds exactly on attachments with at most one dump. */
  lemma {:induction false} RestExactly(policy: Policy, items: seq<Item>)
    ensures TakeRest(policy, items).Ok? <==>
            SmallEnough(policy, items) && (AllAttachments(items) || exists k: nat :: DumpAmongAttachments(items, k))
    ensures TakeRest(policy, items).Ok? ==>
              (TakeRest(policy, items).value.dump.None? <==> AllAttachments(items))
  {
    if items != [] {
      var n := |items| - 1;
      var init, item := items[..n], items[n];
      RestExactly(policy, init);
      RestStep(items, n);
      if Attachment(item) {
        NamesDiffer(item);
      }
    }
  }

  lemma RestStep(items: seq<Item>, n: nat)
    requires n + 1 == |items|
    ensures AllAttachments(items) <==> AllAttachments(items[..n]) && Attachment(items[n])
    ensures (exists k: nat :: DumpAmongAttachments(items, k)) <==>
            || ((exists k: nat :: DumpAmongAttachments(items[..n], k)) && Attachment(items[n]))
            || (AllAttachments(items[..n]) && Named(items[n], "dump"))
  {
    var init := items[..n];
    if k: nat :| DumpAmongAttachments(items, k) {
      if k < n {
        assert DumpAmongAttachments(init, k);
      } else {
        assert AllAttachments(init);
      }
    }
    if k: nat :| DumpAmongAttachments(init, k) && Attachment(items[n]) {
      assert DumpAmongAttachments(items, k);
    }
    if AllAttachments(init) && Named(items[n], "dump") {
      assert DumpAmongAttachments(items, n);
    }
  }

  /** The server accepts a body if and only if it has the shape and passes the
      checks that do not concern part names. */
  lemma ServerAcceptsExactly(json: Json, policy: Policy, items: seq<Item>)
    ensures Serve(json, policy, items).Ok? <==> Shape(items) && Acceptable(json, policy, items)
  {
    if items != [] {
      var rest := items[1..];
      RestExactly(policy, rest);
      if items[0].Good? {
        MetadataTaken(json, policy, items[0].field.bytes);
      }
      assert SmallEnough(policy, rest) <==>
             forall i :: 1 <= i < |items| ==> items[i].Good? && |items[i].field.bytes| <= policy.maxDumpBytes by {
        assert forall i :: 1 <= i < |items| ==> rest[i - 1] == items[i];
      }
      if k: nat :| DumpAmongAttachments(rest, k) {
        assert !Attachment(rest[k]) by {
          if Attachment(rest[k]) { NamesDiffer(rest[k]); }
        }
      }
    }
  }

  // ------------------------------------------------------------ which error is given

  /** Metadata that decodes to `m` is refused for the first of these reasons. */
  ghost predicate RefusedFor(policy: Policy, m: CrashMetadata, error: CrashError) {
    if m.schemaVersion != 1 then error == ProtocolVersion(m.schemaVersion)
    else if !Plain(m.source.project) || !Plain(m.source.sourceId) then error == InvalidSource
    else if !policy.permits(m.source) then error == PermissionDenied
    else if !policy.withinRate(m.source) then error == RateLimited
    else !policy.validates(m) && error == SchemaInvalid
  }

  /** A first part is refused for the first of these reasons. */
  ghost predicate FirstRefusedFor(json: Json, policy: Policy, items: seq<Item>, error: CrashError) {
    if items == [] then error == Missing("metadata")
    else if items[0].Bad? then error == BadMultipart
    else if !Named(items[0], "metadata") then error == BadRequest
    else if |items[0].field.bytes| > 65536 then error == PayloadTooLarge(65536)
    else
      match json.decode(items[0].field.bytes)
      case None => error == BadJson
      case Some(m) => RefusedFor(policy, m, error)
  }

  /** Part `j` is refused after attachments with at most one dump: the wrong name or
      a second dump come before the size. */
  ghost predicate NextRefusedFor(policy: Policy, items: seq<Item>, j: nat, error: CrashError)
    requires j < |items|
  {
    if items[j].Bad? then error == BadMultipart
    else if !Attachment(items[j]) && !(Named(items[j], "dump") && AllAttachments(items[..j])) then error == BadRequest
    else |items[j].field.bytes| > policy.maxDumpBytes && error == PayloadTooLarge(policy.maxDumpBytes)
  }

  lemma FirstRefused(json: Json, policy: Policy, items: seq<Item>, error: CrashError)
    ensures TakeFirst(json, policy, items) == Err(error) <==> FirstRefusedFor(json, policy, items, error)
  {
  }

  lemma NextRefused(policy: Policy, items: seq<Item>, j: nat, error: CrashError)
    requires j < |items| && TakeRest(policy, items[..j]).Ok?
    ensures TakeRest(policy, items[..j + 1]) == Err(error) <==> NextRefusedFor(policy, items, j, error)
  {
    assert items[..j + 1][..j] == items[..j];
    RestExactly(policy, items[..j]);
    if Attachment(items[j]) {
      NamesDiffer(items[j]);
    }
  }

  /** The loop is refused at the first part that is. */
  lemma {:induction false} RestRefused(policy: Policy, items: seq<Item>) returns (j: nat)
    requires TakeRest(policy, items).Err?
    ensures j < |items| && TakeRest(policy, items[..j]).Ok?
    ensures NextRefusedFor(policy, items, j, TakeRest(policy, items).error)
    decreases |items|
  {
    var n := |items| - 1;
    if TakeRest(policy, items[..n]).Err? {
      j := RestRefused(policy, items[..n]);
      assert items[..n][..j] == items[..j];
    } else {
      j := n;
      assert items[..n + 1] == items;
      NextRefused(policy, items, n, TakeRest(policy, items).error);
    }
  }

  /** A refused body is refused for its first part, or for the first later part
      that is refused, or, at the end, for want of a dump. */
  lemma RefusedExactly(json: Json, policy: Policy, items: seq<Item>) returns (j: nat)
    requires Serve(json, policy, items).Err?
    ensures var error := Serve(json, policy, items).error;
            if j == 0 then FirstRefusedFor(json, policy, items, error)
            else
              && items != [] && TakeFirst(json, policy, items).Ok? && j <= |items|
              && TakeRest(policy, items[1..j]).Ok?
              && if j < |items| then NextRefusedFor(policy, items[1..], j - 1, error)
                 else AllAttachments(items[1..]) && error == Missing("dump")
  {
    var error := Serve(json, policy, items).error;
    FirstRefused(json, policy, items, error);
    if TakeFirst(json, policy, items).Err? {
      j := 0;
    } else if TakeRest(policy, items[1..]).Err? {
      var i := RestRefused(policy, items[1..]);
      j := i + 1;
      assert items[1..][..i] == items[1..j];
    } else {
      j := |items|;
      assert items[1..j] == items[1..];
      RestExactly(policy, items[1..]);
    }
  }

  // ------------------------------------------------------------ the readers agree

  lemma {:induction false} ReadersAgreeOnPrefix(json: Json, policy: Policy, items: seq<Item>, n: nat)
    requires 1 <= n <= |items| && TakeFirst(json, policy, items).Ok? && TakeRest(policy, items[1..n]).Ok?
    ensures var received := TakeRest(policy, items[1..n]).value;
            AbsorbAll(json, items[..n]) ==
            Ok(Partial(Some(TakeFirst(json, policy, items).value), received.dump, received.attachments))
  {
    if n == 1 {
      assert items[..1][..0] == [] && items[1..1] == [];
    } else {
      assert items[1..n][..n - 2] == items[1..n - 1] && items[..n][..n - 1] == items[..n - 1];
      ReadersAgreeOnPrefix(json, policy, items, n - 1);
    }
  }

  /** Whatever the server accepts, `read_from_with_boundary` reads as the same
      metadata, dump and attachments. */
  lemma ReadersAgree(json: Json, policy: Policy, items: seq<Item>)
    requires Serve(json, policy, items).Ok?
    ensures var (metadata, received) := Serve(json, policy, items).value;
            EnvelopeOf(json, items) == Ok(CrashEnvelope(metadata, received.dump.value, received.attachments))
  {
    var n := |items|;
    assert items[1..n] == items[1..] && items[..n] == items;
    ReadersAgreeOnPrefix(json, policy, items, n);
  }

  /** The client reader is laxer: it takes the dump before the metadata, which
      the server refuses. */
  lemma ClientReaderIsLaxer(json: Json, policy: Policy, m: CrashMetadata, dump: Bytes)
    requires JsonRoundTrips(json) && m.schemaVersion == PROTOCOL_VERSION
    ensures var items := [Good(Field(Some("dump"), None, None, dump)),
                          Good(Field(Some("metadata"), None, None, json.encode(m)))];
            EnvelopeOf(json, items) == Ok(CrashEnvelope(m, dump, [])) && Serve(json, policy, items) == Err(BadRequest)
  {
    var items := [Good(Field(Some("dump"), None, None, dump)),
                  Good(Field(Some("metadata"), None, None, json.encode(m)))];
    assert items[..1][..0] == [] && items[..1] == [items[0]];
    assert AbsorbAll(json, items[..1]) == Ok(Partial(None, Some(dump), []));
    assert |"dump"| != |"metadata"|;
  }

  lemma PrintedShape(json: Json, mime: Mime, e: CrashEnvelope, encodings: Encodings)
    ensures Shape(GoodItems(mime, PartsOf(json, e, encodings)))
  {
    var parts := PartsOf(json, e, encodings);
    var items := GoodItems(mime, parts);
    forall i | 1 <= i < |items| - 1 ensures Attachment(items[1..][i]) {
      assert parts[i + 1] == AttachmentPart(e, encodings, i - 1);
      AttachName(e.attachments[i - 1].key);
    }
    assert DumpAmongAttachments(items[1..], 0);
  }

  /** A written envelope passes the server exactly when its sizes, metadata and
      permissions do, and the server then holds what the client wrote. */
  lemma WrittenEnvelopeIsServed(json: Json, mime: Mime, policy: Policy, e: CrashEnvelope, encodings: Encodings,
                                boundary: Bytes, items: seq<Item>)
    requires JsonRoundTrips(json) && Shippable(json, e, encodings, boundary)
    requires e.metadata.schemaVersion == PROTOCOL_VERSION
    requires items == ReadItems(mime, Printed(PartsOf(json, e, encodings), boundary), boundary)
    ensures Serve(json, policy, items).Ok? <==> Acceptable(json, policy, items)
    ensures Serve(json, policy, items).Ok? ==>
              var (metadata, received) := Serve(json, policy, items).value;
              && metadata == e.metadata && received.dump == Some(e.dump)
              && received.attachments == NormalAttachments(mime, e)
  {
    WrittenItems(json, mime, e, encodings, boundary, items);
    ServedAsRead(json, policy, items);
  }

  lemma WrittenItems(json: Json, mime: Mime, e: CrashEnvelope, encodings: Encodings, boundary: Bytes,
                     items: seq<Item>)
    requires JsonRoundTrips(json) && Shippable(json, e, encodings, boundary)
    requires e.metadata.schemaVersion == PROTOCOL_VERSION
    requires items == ReadItems(mime, Printed(PartsOf(json, e, encodings), boundary), boundary)
    ensures Shape(items) && EnvelopeOf(json, items) == Ok(e.(attachments := NormalAttachments(mime, e)))
  {
    MultipartRoundTrip(json, mime, e, encodings, boundary);
    PrintedShape(json, mime, e, encodings);
  }

  lemma ServedAsRead(json: Json, policy: Policy, items: seq<Item>)
    requires Shape(items) && EnvelopeOf(json, items).Ok?
    ensures Serve(json, policy, items).Ok? <==> Acceptable(json, policy, items)
    ensures Serve(json, policy, items).Ok? ==>
              var (metadata, received) := Serve(json, policy, items).value;
              EnvelopeOf(json, items).value ==
              CrashEnvelope(metadata, received.dump.value, received.attachments)
  {
    ServerAcceptsExactly(json, policy, items);
    if Serve(json, policy, items).Ok? {
      ReadersAgree(json, policy, items);
    }
  }
}

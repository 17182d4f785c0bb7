/** The client's reader of a crash body, and the round trip with the writer. */
module Envelope {
  import opened Wrappers
  import opened Text
  import opened Protocol
  import opened Multipart
  import opened Splitter

  const OCTET_STREAM: Bytes := "application/octet-stream"
  const ATTACH: Bytes := "attach:"

  function TypeOf(f: Field): Bytes {
    if f.contentType.Some? then f.contentType.value else OCTET_STREAM
  }

  // --------------------------------------------------------- the client reader

  datatype ProtocolError =
    | JsonError
    | MultipartError
    | MissingPart(part: string)
    | InvalidPartName
    | InvalidMultipart(name: Bytes)

  datatype Partial =
    Partial(metadata: Option<CrashMetadata>, dump: Option<Bytes>, attachments: seq<CrashAttachment>)

  function AttachmentOf(f: Field): CrashAttachment
    requires f.name.Some? && ATTACH <= f.name.value
  {
    CrashAttachment(f.name.value[|ATTACH|..], TypeOf(f), f.bytes)
  }

  /** One turn of the reader's loop; a later `metadata` or `dump` replaces an
      earlier one. */
  function Absorb(json: Json, acc: Partial, item: Item): Result<Partial, ProtocolError> {
    match item
    case Bad => Err(MultipartError)
    case Good(f) =>
      if f.name.None? then Err(InvalidPartName)
      else if f.name.value == "metadata" then
        match json.decode(f.bytes)
        case None => Err(JsonError)
        case Some(m) => Ok(acc.(metadata := Some(m)))
      else if f.name.value == "dump" then Ok(acc.(dump := Some(f.bytes)))
      else if ATTACH <= f.name.value then Ok(acc.(attachments := acc.attachments + [AttachmentOf(f)]))
      else Err(InvalidMultipart(f.name.value))
  }

  function AbsorbAll(json: Json, items: seq<Item>): Result<Partial, ProtocolError> {
    if items == [] then Ok(Partial(None, None, []))
    else
      var acc :- AbsorbAll(json, items[..|items| - 1]);
      Absorb(json, acc, items[|items| - 1])
  }

  function Assembled(acc: Partial): Result<CrashEnvelope, ProtocolError> {
    if acc.metadata.None? then Err(MissingPart("metadata"))
    else if acc.metadata.value.schemaVersion != PROTOCOL_VERSION then Err(InvalidMultipart("schema version"))
    else if acc.dump.None? then Err(MissingPart("dump"))
    else Ok(CrashEnvelope(acc.metadata.value, acc.dump.value, acc.attachments))
  }

  function EnvelopeOf(json: Json, items: seq<Item>): Result<CrashEnvelope, ProtocolError> {
    var acc :- AbsorbAll(json, items);
    Assembled(acc)
  }

  /** `read_from_with_boundary`. */
  method ReadFrom(json: Json, mime: Mime, body: Bytes, boundary: Bytes)
    returns (r: Result<CrashEnvelope, ProtocolError>)
    ensures r == EnvelopeOf(json, ReadItems(mime, body, boundary))
  {
    var items := ReadItems(mime, body, boundary);
    var acc := Partial(None, None, []);
    for i := 0 to |items|
      invariant AbsorbAll(json, items[..i]) == Ok(acc)
    {
      assert items[..i + 1][..i] == items[..i];
      var next := Absorb(json, acc, items[i]);
      if next.Err? {
        ErrorStops(json, items, i + 1);
        return Err(next.error);
      }
      acc := next.value;
    }
    assert items[..|items|] == items;
    r := Assembled(acc);
  }

  lemma {:induction false} ErrorStops(json: Json, items: seq<Item>, n: nat)
    requires n <= |items| && AbsorbAll(json, items[..n]).Err?
    ensures AbsorbAll(json, items) == Err(AbsorbAll(json, items[..n]).error)
    decreases |items|
  {
    if n == |items| {
      assert items[..n] == items;
    } else {
      var k := |items| - 1;
      assert items[..k][..n] == items[..n];
      ErrorStops(json, items[..k], n);
    }
  }

  // ------------------------------------------------------------ what the reader takes

  /** What is wrong with an item by itself. */
  function Fault(json: Json, item: Item): Option<ProtocolError> {
    if item.Bad? then Some(MultipartError)
    else if item.field.name.None? then Some(InvalidPartName)
    else
      var name := item.field.name.value;
      if name == "metadata" && json.decode(item.field.bytes).None? then Some(JsonError)
      else if name != "metadata" && name != "dump" && !("attach:" <= name) then Some(InvalidMultipart(name))
      else None
  }

  /** The bytes of the last part of this name. */
  function LastNamed(items: seq<Item>, name: Bytes): Option<Bytes> {
    if items == [] then None
    else
      var item := items[|items| - 1];
      if item.Good? && item.field.name == Some(name) then Some(item.field.bytes)
      else LastNamed(items[..|items| - 1], name)
  }

  /** The attachments in order. */
  function AttachmentsIn(items: seq<Item>): seq<CrashAttachment> {
    if items == [] then []
    else
      var before, item := AttachmentsIn(items[..|items| - 1]), items[|items| - 1];
      if item.Good? && item.field.name.Some? && "attach:" <= item.field.name.value then
        var f := item.field;
        before + [CrashAttachment(f.name.value[7..],
                                  if f.contentType.Some? then f.contentType.value else "application/octet-stream",
                                  f.bytes)]
      else
        before
  }

  lemma NamesApart(name: Bytes)
    requires "attach:" <= name
    ensures name != "metadata" && name != "dump"
  {
    assert name[0] == 'a' && "metadata"[0] == 'm' && "dump"[0] == 'd';
  }

  ghost predicate AllTaken(json: Json, items: seq<Item>) {
    forall i :: 0 <= i < |items| ==> Fault(json, items[i]).None?
  }

  lemma {:induction false} AbsorbedExactly(json: Json, items: seq<Item>)
    ensures AbsorbAll(json, items).Ok? <==> AllTaken(json, items)
    ensures AbsorbAll(json, items).Ok? ==>
              var acc := AbsorbAll(json, items).value;
              && acc.dump == LastNamed(items, "dump") && acc.attachments == AttachmentsIn(items)
              && match LastNamed(items, "metadata")
                 case None => acc.metadata.None?
                 case Some(bytes) => acc.metadata.Some? && json.decode(bytes) == acc.metadata
  {
    if items != [] {
      var n := |items| - 1;
      AbsorbedExactly(json, items[..n]);
      AbsorbedOne(json, items[n]);
      assert AllTaken(json, items) <==> AllTaken(json, items[..n]) && Fault(json, items[n]).None?;
    }
  }

  lemma AbsorbedOne(json: Json, item: Item)
    ensures forall acc :: Absorb(json, acc, item).Ok? <==> Fault(json, item).None?
    ensures item.Good? && item.field.name.Some? && "attach:" <= item.field.name.value ==>
              item.field.name.value != "metadata" && item.field.name.value != "dump"
    ensures forall acc :: Absorb(json, acc, item).Err? ==> Some(Absorb(json, acc, item).error) == Fault(json, item)
    ensures "metadata" != "dump"
  {
    assert "metadata"[0] == 'm' && "dump"[0] == 'd';
    if item.Good? && item.field.name.Some? && "attach:" <= item.field.name.value {
      NamesApart(item.field.name.value);
    }
  }

  /** A body is read exactly when no part is at fault and there are metadata and a
      dump. The last of each counts, and the metadata must have the protocol version. */
  lemma ReadExactlyWhen(json: Json, items: seq<Item>, e: CrashEnvelope)
    ensures EnvelopeOf(json, items) == Ok(e) <==>
            && AllTaken(json, items)
            && LastNamed(items, "metadata").Some? && LastNamed(items, "dump") == Some(e.dump)
            && json.decode(LastNamed(items, "metadata").value) == Some(e.metadata)
            && e.metadata.schemaVersion == 1 && e.attachments == AttachmentsIn(items)
  {
    AbsorbedExactly(json, items);
  }

  /** The first part at fault decides the error. */
  lemma {:induction false} FirstFault(json: Json, items: seq<Item>) returns (j: nat)
    requires !AllTaken(json, items)
    ensures j < |items| && AllTaken(json, items[..j]) && Fault(json, items[j]).Some?
    ensures EnvelopeOf(json, items) == Err(Fault(json, items[j]).value)
  {
    var n := |items| - 1;
    AbsorbedExactly(json, items[..n]);
    if AllTaken(json, items[..n]) {
      j := n;
      AbsorbedOne(json, items[n]);
    } else {
      j := FirstFault(json, items[..n]);
      assert items[..n][..j] == items[..j];
    }
  }

  /** Without a fault, a missing metadata part is reported before the wrong version,
      and that before a missing dump. */
  lemma FaultlessRefused(json: Json, items: seq<Item>)
    requires AllTaken(json, items)
    ensures LastNamed(items, "metadata").None? ==> EnvelopeOf(json, items) == Err(MissingPart("metadata"))
    ensures LastNamed(items, "metadata").Some? ==>
              var m := json.decode(LastNamed(items, "metadata").value);
              && m.Some?
              && (m.value.schemaVersion != 1 ==> EnvelopeOf(json, items) == Err(InvalidMultipart("schema version")))
              && (m.value.schemaVersion == 1 && LastNamed(items, "dump").None? ==>
                    EnvelopeOf(json, items) == Err(MissingPart("dump")))
  {
    AbsorbedExactly(json, items);
  }

  // ------------------------------------------------------------ the round trip

  /** The media type a reader reports for a printed one. */
  function NormalType(mime: Mime, contentType: Bytes): Bytes {
    var m := mime(Trim(contentType));
    if m.Some? then m.value else OCTET_STREAM
  }

  function NormalAttachments(mime: Mime, e: CrashEnvelope): (r: seq<CrashAttachment>)
    ensures |r| == |e.attachments|
  {
    seq(|e.attachments|, i requires 0 <= i < |e.attachments| =>
      e.attachments[i].(contentType := NormalType(mime, e.attachments[i].contentType)))
  }

  /** Payloads without `--boundary`, keys without quote or line break, media types
      and encodings without line break. */
  ghost predicate Shippable(json: Json, e: CrashEnvelope, encodings: Encodings, boundary: Bytes) {
    && NoBreak(boundary)
    && !Contains(json.encode(e.metadata), DashBoundary(boundary))
    && !Contains(e.dump, DashBoundary(boundary))
    && (encodings.dump.Some? ==> NoBreak(encodings.dump.value))
    && (forall a :: a in e.attachments ==>
          && NoBreak(a.key) && '"' !in a.key && NoBreak(a.contentType)
          && !Contains(a.bytes, DashBoundary(boundary)))
    && (forall x :: x in encodings.attachments && x.Some? ==> NoBreak(x.value))
  }

  lemma PrintablePart(p: Part, boundary: Bytes)
    requires Clean(p) && '"' !in p.name && !Contains(p.bytes, DashBoundary(boundary))
    ensures Printable(p, boundary)
  {
    PayloadIsFree(p.bytes, boundary);
  }

  lemma AttachName(key: Bytes)
    ensures ATTACH <= ATTACH + key && (ATTACH + key)[|ATTACH|..] == key
    ensures ATTACH + key != "metadata" && ATTACH + key != "dump"
    ensures NoBreak(key) ==> NoBreak(ATTACH + key)
    ensures '"' !in key ==> '"' !in ATTACH + key
  {
    assert (ATTACH + key)[0] == 'a' && "metadata"[0] == 'm' && "dump"[0] == 'd';
  }

  lemma ShippableIsPrintable(json: Json, e: CrashEnvelope, encodings: Encodings, boundary: Bytes)
    requires Shippable(json, e, encodings, boundary)
    ensures forall p :: p in PartsOf(json, e, encodings) ==> Printable(p, boundary)
  {
    var parts := PartsOf(json, e, encodings);
    FixedNames();
    PrintablePart(parts[0], boundary);
    PrintablePart(parts[1], boundary);
    forall i | 0 <= i < |e.attachments| ensures Printable(AttachmentPart(e, encodings, i), boundary) {
      assert e.attachments[i] in e.attachments;
      AttachName(e.attachments[i].key);
      PrintablePart(AttachmentPart(e, encodings, i), boundary);
    }
  }

  lemma FixedNames()
    ensures NoBreak("metadata") && NoBreak("dump") && '"' !in "metadata" && '"' !in "dump"
    ensures NoBreak("application/json") && NoBreak("application/octet-stream")
  {
  }

  /** The reader's loop over the items of a printed envelope. */
  lemma {:induction false} AbsorbPrinted(json: Json, mime: Mime, e: CrashEnvelope, encodings: Encodings, n: nat)
    requires JsonRoundTrips(json) && n <= |e.attachments|
    ensures AbsorbAll(json, GoodItems(mime, PartsOf(json, e, encodings))[..n + 2]) ==
            Ok(Partial(Some(e.metadata), Some(e.dump), NormalAttachments(mime, e)[..n]))
  {
    var parts := PartsOf(json, e, encodings);
    var items := GoodItems(mime, parts);
    assert items[..n + 2][..n + 1] == items[..n + 1];
    if n == 0 {
      assert items[..1][..0] == [] && items[..2][..1] == items[..1];
      assert Absorb(json, Partial(None, None, []), items[0]) == Ok(Partial(Some(e.metadata), None, []));
      assert Absorb(json, Partial(Some(e.metadata), None, []), items[1]) ==
             Ok(Partial(Some(e.metadata), Some(e.dump), []));
      assert NormalAttachments(mime, e)[..0] == [];
      assert AbsorbAll(json, items[..1]) == Ok(Partial(Some(e.metadata), None, []));
    } else {
      AbsorbPrinted(json, mime, e, encodings, n - 1);
      AbsorbAttachment(json, mime, e, encodings, n - 1);
    }
  }

  lemma AbsorbAttachment(json: Json, mime: Mime, e: CrashEnvelope, encodings: Encodings, i: nat)
    requires i < |e.attachments|
    ensures Absorb(json, Partial(Some(e.metadata), Some(e.dump), NormalAttachments(mime, e)[..i]),
                   GoodItems(mime, PartsOf(json, e, encodings))[i + 2]) ==
            Ok(Partial(Some(e.metadata), Some(e.dump), NormalAttachments(mime, e)[..i + 1]))
  {
    var item := GoodItems(mime, PartsOf(json, e, encodings))[i + 2];
    var p := AttachmentPart(e, encodings, i);
    assert PartsOf(json, e, encodings)[i + 2] == p;
    AttachName(e.attachments[i].key);
    assert item == Good(FieldOf(mime, p)) && p.name == ATTACH + e.attachments[i].key;
    var normal := NormalAttachments(mime, e);
    assert AttachmentOf(item.field) == normal[i];
    assert normal[..i] + [normal[i]] == normal[..i + 1];
  }

  /** Reading what was written returns the envelope: same metadata, dump and
      attachments in order, media types in canonical form; and each part shows
      the encoding it was given. */
  lemma MultipartRoundTrip(json: Json, mime: Mime, e: CrashEnvelope, encodings: Encodings, boundary: Bytes)
    requires JsonRoundTrips(json) && Shippable(json, e, encodings, boundary)
    requires e.metadata.schemaVersion == PROTOCOL_VERSION
    ensures
      var items := ReadItems(mime, Printed(PartsOf(json, e, encodings), boundary), boundary);
      && items == GoodItems(mime, PartsOf(json, e, encodings))
      && EnvelopeOf(json, items) == Ok(e.(attachments := NormalAttachments(mime, e)))
  {
    var parts := PartsOf(json, e, encodings);
    ShippableIsPrintable(json, e, encodings, boundary);
    PrintedPartsReadBack(mime, parts, boundary);
    var items := GoodItems(mime, parts);
    AbsorbPrinted(json, mime, e, encodings, |e.attachments|);
    assert items[..|e.attachments| + 2] == items;
    assert NormalAttachments(mime, e)[..|e.attachments|] == NormalAttachments(mime, e);
  }

  /** The envelope itself comes back if and only if its media types are canonical. */
  lemma RoundTripIsIdentityExactlyWhen(json: Json, mime: Mime, e: CrashEnvelope, encodings: Encodings, boundary: Bytes)
    requires JsonRoundTrips(json) && Shippable(json, e, encodings, boundary)
    requires e.metadata.schemaVersion == PROTOCOL_VERSION
    ensures EnvelopeOf(json, ReadItems(mime, Printed(PartsOf(json, e, encodings), boundary), boundary)) == Ok(e) <==>
            forall i :: 0 <= i < |e.attachments| ==>
              NormalType(mime, e.attachments[i].contentType) == e.attachments[i].contentType
  {
    MultipartRoundTrip(json, mime, e, encodings, boundary);
    var normal := NormalAttachments(mime, e);
    if normal == e.attachments {
      forall i | 0 <= i < |e.attachments|
        ensures NormalType(mime, e.attachments[i].contentType) == e.attachments[i].contentType
      {
        assert normal[i] == e.attachments[i];
      }
    }
  }

  // ------------------------------------------------- envelopes that do not come back

  /** The envelope with one more attachment in front. */
  function WithFirst(e: CrashEnvelope, dump: Bytes, a: CrashAttachment): CrashEnvelope {
    e.(dump := dump, attachments := [a] + e.attachments)
  }

  lemma PartsWithFirst(json: Json, e: CrashEnvelope, encodings: Encodings, dump: Bytes, a: CrashAttachment,
                       encoding: Option<Bytes>)
    ensures var parts := AttachmentParts(e, encodings);
            PartsOf(json, WithFirst(e, dump, a), Encodings(encodings.dump, [encoding] + encodings.attachments)) ==
            [Part("metadata", "application/json", None, json.encode(e.metadata))]
            + [Part("dump", "application/octet-stream", encodings.dump, dump),
               Part("attach:" + a.key, a.contentType, encoding, a.bytes)]
            + parts
  {
    var e', encodings' := WithFirst(e, dump, a), Encodings(encodings.dump, [encoding] + encodings.attachments);
    forall i | 0 <= i < |e.attachments|
      ensures AttachmentPart(e', encodings', i + 1) == AttachmentPart(e, encodings, i)
    {
    }
    assert AttachmentParts(e', encodings') == [AttachmentPart(e', encodings', 0)] + AttachmentParts(e, encodings);
  }

  /** A dump that contains a delimiter followed by the text of an attachment part:
      the body written for it is read as a shorter dump and one more attachment. */
  lemma ForgedAttachment(json: Json, mime: Mime, e: CrashEnvelope, encodings: Encodings, boundary: Bytes, dump: Bytes,
                         a: CrashAttachment, encoding: Option<Bytes>)
    requires JsonRoundTrips(json) && e.metadata.schemaVersion == PROTOCOL_VERSION
    requires e.dump ==
             dump + Delimiter(boundary) + CRLF + Content(Part("attach:" + a.key, a.contentType, encoding, a.bytes))
    requires Shippable(json, WithFirst(e, dump, a), Encodings(encodings.dump, [encoding] + encodings.attachments),
                       boundary)
    ensures var read := EnvelopeOf(json, ReadItems(mime, Printed(PartsOf(json, e, encodings), boundary), boundary));
            && read == Ok(WithFirst(e, dump, a).(attachments := NormalAttachments(mime, WithFirst(e, dump, a))))
            && read != Ok(e)
  {
    var e', encodings' := WithFirst(e, dump, a), Encodings(encodings.dump, [encoding] + encodings.attachments);
    var m := Part("metadata", "application/json", None, json.encode(e.metadata));
    var p := Part("dump", "application/octet-stream", encodings.dump, dump);
    var q := Part("attach:" + a.key, a.contentType, encoding, a.bytes);
    var rest := AttachmentParts(e, encodings);
    PartsWithFirst(json, e, encodings, dump, a, encoding);
    ShippableIsPrintable(json, e', encodings', boundary);
    SmuggledPart(mime, [m], p, q, rest, boundary);
    assert PartsOf(json, e, encodings) == [m] + [p.(bytes := e.dump)] + rest;
    MultipartRoundTrip(json, mime, e', encodings', boundary);
  }

  lemma PlainLowered(mime: Mime)
    requires mime("Text/Plain") == Some(Lower("Text/Plain"))
    ensures NormalType(mime, "Text/Plain") == "text/plain"
  {
    assert Trim("Text/Plain") == "Text/Plain";
    assert Lower("Text/Plain") == "text/plain";
  }

  lemma OneAttachment(json: Json, mime: Mime, e: CrashEnvelope, a: CrashAttachment, boundary: Bytes)
    requires JsonRoundTrips(json) && e.metadata.schemaVersion == PROTOCOL_VERSION && e.attachments == [a]
    requires NoBreak(boundary) && !Contains(json.encode(e.metadata), DashBoundary(boundary))
    requires !Contains(e.dump, DashBoundary(boundary)) && !Contains(a.bytes, DashBoundary(boundary))
    requires NoBreak(a.key) && '"' !in a.key && NoBreak(a.contentType)
    ensures EnvelopeOf(json, ReadItems(mime, Printed(PartsOf(json, e, Encodings(None, [])), boundary), boundary)) ==
            Ok(e.(attachments := [a.(contentType := NormalType(mime, a.contentType))]))
  {
    assert Shippable(json, e, Encodings(None, []), boundary);
    MultipartRoundTrip(json, mime, e, Encodings(None, []), boundary);
    assert NormalAttachments(mime, e) == [a.(contentType := NormalType(mime, a.contentType))];
  }

  /** A reader that writes media types in lower case gives `Text/Plain` back as another type. */
  lemma LoweredType(json: Json, mime: Mime, m: CrashMetadata, boundary: Bytes)
    requires JsonRoundTrips(json) && m.schemaVersion == PROTOCOL_VERSION
             && mime("Text/Plain") == Some(Lower("Text/Plain"))
    requires NoBreak(boundary) && !Contains(json.encode(m), DashBoundary(boundary))
    ensures var e := CrashEnvelope(m, [], [CrashAttachment("k", "Text/Plain", [])]);
            EnvelopeOf(json, ReadItems(mime, Printed(PartsOf(json, e, Encodings(None, [])), boundary), boundary)) ==
            Ok(CrashEnvelope(m, [], [CrashAttachment("k", "text/plain", [])]))
  {
    PlainLowered(mime);
    var a := CrashAttachment("k", "Text/Plain", []);
    OneAttachment(json, mime, CrashEnvelope(m, [], [a]), a, boundary);
  }
}

/** The multipart body of a crash upload: its text as a function of the parts, and the writer. */
module Multipart {
  import opened Wrappers
  import opened Protocol

  const CRLF: Bytes := "\r\n"

  // --------------------------------------------------------------- the writer

  datatype Part = Part(name: Bytes, contentType: Bytes, encoding: Option<Bytes>, bytes: Bytes)

  function DispositionValue(name: Bytes): Bytes { "form-data" + ";" + (" name=\"" + name + "\"") }

  function DispositionLine(name: Bytes): Bytes { "Content-Disposition" + ":" + (" " + DispositionValue(name)) }

  function TypeLine(contentType: Bytes): Bytes { "Content-Type" + ":" + (" " + contentType) }

  function EncodingLine(encoding: Bytes): Bytes { "Content-Encoding" + ":" + (" " + encoding) }

  function Headers(p: Part): Bytes {
    var two := DispositionLine(p.name) + CRLF + TypeLine(p.contentType) + CRLF;
    if p.encoding.Some? then two + EncodingLine(p.encoding.value) + CRLF else two
  }

  function Content(p: Part): Bytes { Headers(p) + CRLF + p.bytes }

  function DashBoundary(boundary: Bytes): Bytes { "--" + boundary }

  function PrintedPart(p: Part, boundary: Bytes): Bytes {
    DashBoundary(boundary) + CRLF + Content(p) + CRLF
  }

  function Concat(xs: seq<Bytes>): Bytes {
    if xs == [] then [] else xs[0] + Concat(xs[1..])
  }

  function PrintedParts(parts: seq<Part>, boundary: Bytes): (r: seq<Bytes>)
    ensures |r| == |parts|
  {
    seq(|parts|, i requires 0 <= i < |parts| => PrintedPart(parts[i], boundary))
  }

  function Printed(parts: seq<Part>, boundary: Bytes): Bytes {
    Concat(PrintedParts(parts, boundary)) + (DashBoundary(boundary) + "--" + CRLF)
  }

  lemma HeaderLineTexts(name: Bytes, contentType: Bytes, encoding: Bytes)
    ensures DispositionLine(name) == "Content-Disposition: form-data; name=\"" + name + "\""
    ensures TypeLine(contentType) == "Content-Type: " + contentType
    ensures EncodingLine(encoding) == "Content-Encoding: " + encoding
  {
    var start := "Content-Disposition" + ":" + (" " + ("form-data" + ";" + " name=\""));
    assert DispositionLine(name) == start + name + "\"";
    assert start == "Content-Disposition: form-data; name=\"";
    assert TypeLine(contentType) == "Content-Type" + ":" + " " + contentType;
    assert EncodingLine(encoding) == "Content-Encoding" + ":" + " " + encoding;
  }

  /** The text of a part, and of the close delimiter, letter for letter. */
  lemma WireFormat(p: Part, boundary: Bytes)
    ensures var disposition := "Content-Disposition: form-data; name=\"" + p.name + "\"";
            var two := disposition + "\r\n" + ("Content-Type: " + p.contentType) + "\r\n";
            var headers := if p.encoding.Some? then two + ("Content-Encoding: " + p.encoding.value) + "\r\n" else two;
            PrintedPart(p, boundary) == "--" + boundary + "\r\n" + (headers + "\r\n" + p.bytes) + "\r\n"
    ensures Printed([], boundary) == "--" + boundary + "--" + "\r\n"
  {
    HeaderLineTexts(p.name, p.contentType, if p.encoding.Some? then p.encoding.value else "");
  }

  /** Per-part encodings; a missing tail means no `Content-Encoding` header. */
  datatype Encodings = Encodings(dump: Option<Bytes>, attachments: seq<Option<Bytes>>)

  function AttachmentPart(e: CrashEnvelope, encodings: Encodings, i: nat): Part
    requires i < |e.attachments|
  {
    var a := e.attachments[i];
    Part("attach:" + a.key, a.contentType, if i < |encodings.attachments| then encodings.attachments[i] else None,
         a.bytes)
  }

  function AttachmentParts(e: CrashEnvelope, encodings: Encodings): (r: seq<Part>)
    ensures |r| == |e.attachments|
  {
    seq(|e.attachments|, i requires 0 <= i < |e.attachments| => AttachmentPart(e, encodings, i))
  }

  function PartsOf(json: Json, e: CrashEnvelope, encodings: Encodings): seq<Part> {
    [Part("metadata", "application/json", None, json.encode(e.metadata)),
     Part("dump", "application/octet-stream", encodings.dump, e.dump)]
    + AttachmentParts(e, encodings)
  }

  class Sink {
    var bytes: Bytes

    constructor ()
      ensures bytes == []
    {
      bytes := [];
    }

    method WriteAll(more: Bytes)
      modifies this
      ensures bytes == old(bytes) + more
    {
      bytes := bytes + more;
    }

    method WritePart(boundary: Bytes, name: Bytes, contentType: Bytes, encoding: Option<Bytes>, payload: Bytes)
      modifies this
      ensures bytes == old(bytes) + PrintedPart(Part(name, contentType, encoding, payload), boundary)
    {
      WriteAll(DashBoundary(boundary) + CRLF);
      var headers := DispositionLine(name) + CRLF + TypeLine(contentType) + CRLF;
      if encoding.Some? {
        headers := headers + EncodingLine(encoding.value) + CRLF;
      }
      Assemble(old(bytes), DashBoundary(boundary), headers, payload);
      headers := headers + CRLF;
      WriteAll(headers);
      WriteAll(payload);
      WriteAll(CRLF);
    }
  }

  lemma Assemble(before: Bytes, dash: Bytes, headers: Bytes, payload: Bytes)
    ensures before + (dash + CRLF) + (headers + CRLF) + payload + CRLF ==
            before + (dash + CRLF + (headers + CRLF + payload) + CRLF)
  {
  }

  lemma {:induction false} ConcatAppend(xs: seq<Bytes>, x: Bytes)
    ensures Concat(xs + [x]) == Concat(xs) + x
  {
    if xs == [] {
      assert (xs + [x])[1..] == [];
    } else {
      ConcatAppend(xs[1..], x);
      assert (xs + [x])[1..] == xs[1..] + [x];
      assert (xs + [x])[0] == xs[0];
    }
  }

  lemma OneMore(before: Bytes, texts: seq<Bytes>, i: nat)
    requires i < |texts|
    ensures before + Concat(texts[..i]) + texts[i] == before + Concat(texts[..i + 1])
  {
    ConcatAppend(texts[..i], texts[i]);
    assert texts[..i] + [texts[i]] == texts[..i + 1];
  }

  method WriteAttachments(sink: Sink, e: CrashEnvelope, boundary: Bytes, encodings: Encodings)
    modifies sink
    ensures sink.bytes == old(sink.bytes) + Concat(PrintedParts(AttachmentParts(e, encodings), boundary))
  {
    ghost var before, texts := sink.bytes, PrintedParts(AttachmentParts(e, encodings), boundary);
    for i := 0 to |e.attachments|
      invariant sink.bytes == before + Concat(texts[..i])
    {
      var a := e.attachments[i];
      var encoding := if i < |encodings.attachments| then encodings.attachments[i] else None;
      sink.WritePart(boundary, "attach:" + a.key, a.contentType, encoding, a.bytes);
      OneMore(before, texts, i);
    }
    assert texts[..|e.attachments|] == texts;
  }

  /** `write_to_with_boundary_and_encodings`. */
  method WriteEnvelope(sink: Sink, json: Json, e: CrashEnvelope, boundary: Bytes, encodings: Encodings)
    modifies sink
    ensures sink.bytes == old(sink.bytes) + Printed(PartsOf(json, e, encodings), boundary)
  {
    sink.WritePart(boundary, "metadata", "application/json", None, json.encode(e.metadata));
    sink.WritePart(boundary, "dump", "application/octet-stream", encodings.dump, e.dump);
    WriteAttachments(sink, e, boundary, encodings);
    sink.WriteAll(DashBoundary(boundary) + "--" + CRLF);
    TwoThenRest(old(sink.bytes), PartsOf(json, e, encodings), AttachmentParts(e, encodings), boundary,
                DashBoundary(boundary) + "--" + CRLF);
  }

  lemma TwoThenRest(before: Bytes, parts: seq<Part>, rest: seq<Part>, boundary: Bytes, close: Bytes)
    requires |parts| >= 2 && parts[2..] == rest
    ensures before + PrintedPart(parts[0], boundary) + PrintedPart(parts[1], boundary)
            + Concat(PrintedParts(rest, boundary)) + close ==
            before + (Concat(PrintedParts(parts, boundary)) + close)
  {
    var texts := PrintedParts(parts, boundary);
    assert texts[1..][1..] == PrintedParts(rest, boundary);
    FourTerms(before, texts[0], texts[1], Concat(PrintedParts(rest, boundary)), close);
  }

  lemma FourTerms(a: Bytes, b: Bytes, c: Bytes, d: Bytes, e: Bytes)
    ensures a + b + c + d + e == a + ((b + (c + d)) + e)
  {
  }
}

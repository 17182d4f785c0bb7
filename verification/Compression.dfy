/**
 The compression step of an upload, and what a receiver that decodes every part
 by its `Content-Encoding` header gets back. zstd is a pair of functions;
 `should` decides by content type which attachments are compressed.
 */
module Compression {
  import opened Wrappers
  import opened Protocol
  import opened Multipart

  datatype Zstd = Zstd(compress: Bytes -> Option<Bytes>, decompress: Bytes -> Option<Bytes>)

  ghost predicate Lossless(zstd: Zstd) {
    forall x :: zstd.compress(x).Some? ==> zstd.decompress(zstd.compress(x).value) == Some(x)
  }

  /** What a part with this header stands for; only zstd is known. */
  function Decoded(zstd: Zstd, encoding: Option<Bytes>, bytes: Bytes): Option<Bytes> {
    match encoding
    case None => Some(bytes)
    case Some(name) => if name == "zstd" then zstd.decompress(bytes) else None
  }

  /** The first attachment with a key. */
  function First(attachments: seq<CrashAttachment>, key: string): (r: Option<nat>)
    ensures r.Some? ==>
              && r.value < |attachments| && attachments[r.value].key == key
              && forall i :: 0 <= i < r.value ==> attachments[i].key != key
    ensures r.None? ==> forall i :: 0 <= i < |attachments| ==> attachments[i].key != key
  {
    if attachments == [] then None
    else if attachments[0].key == key then Some(0)
    else
      var r := First(attachments[1..], key);
      if r.Some? then Some(r.value + 1) else None
  }

  predicate Compressed(should: string -> bool, a: CrashAttachment) { should(a.contentType) }

  /** The last of the first `n` attachments that is compressed under this key. */
  function LastUnder(should: string -> bool, attachments: seq<CrashAttachment>, n: nat, key: string): (r: Option<nat>)
    requires n <= |attachments|
    ensures r.Some? ==> r.value < n && attachments[r.value].key == key && Compressed(should, attachments[r.value])
    ensures forall j :: (if r.Some? then r.value < j else 0 <= j) && j < n ==>
              !(attachments[j].key == key && Compressed(should, attachments[j]))
  {
    if n == 0 then None
    else if attachments[n - 1].key == key && Compressed(should, attachments[n - 1]) then Some(n - 1)
    else LastUnder(should, attachments, n - 1, key)
  }

  /** The bytes of attachment `i` after the loop has gone through `n` of them:
      only the first attachment of a key ever receives compressed bytes. */
  function BytesAfter(zstd: Zstd, should: string -> bool, attachments: seq<CrashAttachment>, n: nat,
                      i: nat): Option<Bytes>
    requires n <= |attachments| && i < |attachments|
  {
    var last := LastUnder(should, attachments, n, attachments[i].key);
    if First(attachments, attachments[i].key) == Some(i) && last.Some? then zstd.compress(attachments[last.value].bytes)
    else Some(attachments[i].bytes)
  }

  predicate AllCompress(zstd: Zstd, should: string -> bool, attachments: seq<CrashAttachment>) {
    forall i :: 0 <= i < |attachments| && Compressed(should, attachments[i]) ==>
      zstd.compress(attachments[i].bytes).Some?
  }

  ghost predicate SameKeys(a: seq<CrashAttachment>, b: seq<CrashAttachment>) {
    |a| == |b| && forall i :: 0 <= i < |a| ==> a[i].key == b[i].key && a[i].contentType == b[i].contentType
  }

  /** A header on exactly the parts chosen for compression. */
  ghost predicate Headed(should: string -> bool, attachments: seq<CrashAttachment>, encodings: seq<Option<Bytes>>) {
    && |encodings| == |attachments|
    && forall i :: 0 <= i < |attachments| ==>
         encodings[i] == Header(should, attachments[i])
  }

  function Header(should: string -> bool, a: CrashAttachment): Option<Bytes> {
    if Compressed(should, a) then Some("zstd") else None
  }

  lemma HeadedNext(should: string -> bool, attachments: seq<CrashAttachment>, encodings: seq<Option<Bytes>>, n: nat)
    requires n < |attachments| && Headed(should, attachments[..n], encodings)
    ensures Headed(should, attachments[..n + 1], encodings + [Header(should, attachments[n])])
  {
  }

  lemma {:induction false} FirstByKeys(a: seq<CrashAttachment>, b: seq<CrashAttachment>, key: string)
    requires SameKeys(a, b)
    ensures First(a, key) == First(b, key)
  {
    if a != [] && a[0].key != key {
      FirstByKeys(a[1..], b[1..], key);
    }
  }

  ghost predicate Midway(zstd: Zstd, should: string -> bool, attachments: seq<CrashAttachment>,
                         local: seq<CrashAttachment>, n: nat)
    requires n <= |attachments|
  {
    && SameKeys(attachments, local)
    && forall i {:trigger BytesAfter(zstd, should, attachments, n, i)} :: 0 <= i < |local| ==>
         BytesAfter(zstd, should, attachments, n, i) == Some(local[i].bytes)
  }

  lemma Begins(zstd: Zstd, should: string -> bool, attachments: seq<CrashAttachment>)
    ensures Midway(zstd, should, attachments, attachments, 0)
  {
  }

  lemma Replaces(zstd: Zstd, should: string -> bool, attachments: seq<CrashAttachment>, local: seq<CrashAttachment>,
                 n: nat, bytes: Bytes)
    requires n < |attachments| && Midway(zstd, should, attachments, local, n)
    requires Compressed(should, attachments[n]) && zstd.compress(attachments[n].bytes) == Some(bytes)
    ensures First(local, attachments[n].key).Some?
    ensures var k := First(local, attachments[n].key).value;
            Midway(zstd, should, attachments, local[k := local[k].(bytes := bytes)], n + 1)
  {
    var key := attachments[n].key;
    FirstByKeys(attachments, local, key);
    var k := First(local, key).value;
    var local' := local[k := local[k].(bytes := bytes)];
    forall i | 0 <= i < |local'| ensures BytesAfter(zstd, should, attachments, n + 1, i) == Some(local'[i].bytes) {
      assert BytesAfter(zstd, should, attachments, n, i) == Some(local[i].bytes);
    }
  }

  lemma Passes(zstd: Zstd, should: string -> bool, attachments: seq<CrashAttachment>, local: seq<CrashAttachment>,
               n: nat)
    requires n < |attachments| && Midway(zstd, should, attachments, local, n) && !Compressed(should, attachments[n])
    ensures Midway(zstd, should, attachments, local, n + 1)
  {
    forall i | 0 <= i < |local| ensures BytesAfter(zstd, should, attachments, n + 1, i) == Some(local[i].bytes) {
      assert BytesAfter(zstd, should, attachments, n, i) == Some(local[i].bytes);
    }
  }

  /** The loop over the attachments; `None` when a compression fails. */
  method CompressAttachments(zstd: Zstd, should: string -> bool, attachments: seq<CrashAttachment>)
    returns (r: Option<(seq<CrashAttachment>, seq<Option<Bytes>>)>)
    ensures r.Some? <==> AllCompress(zstd, should, attachments)
    ensures r.Some? ==>
              Midway(zstd, should, attachments, r.value.0, |attachments|) && Headed(should, attachments, r.value.1)
  {
    var local, encodings := attachments, [];
    Begins(zstd, should, attachments);
    for n := 0 to |attachments|
      invariant Midway(zstd, should, attachments, local, n)
      invariant Headed(should, attachments[..n], encodings)
      invariant AllCompress(zstd, should, attachments[..n])
    {
      var attachment := attachments[n];
      HeadedNext(should, attachments, encodings, n);
      assert attachments[..n + 1] == attachments[..n] + [attachment];
      if Compressed(should, attachment) {
        var bytes :- zstd.compress(attachment.bytes);
        Replaces(zstd, should, attachments, local, n, bytes);
        var found := First(local, attachment.key);
        if found.Some? {
          local := local[found.value := local[found.value].(bytes := bytes)];
        }
        encodings := encodings + [Some("zstd")];
      } else {
        Passes(zstd, should, attachments, local, n);
        encodings := encodings + [None];
      }
    }
    assert attachments[..|attachments|] == attachments;
    r := Some((local, encodings));
  }

  /** The envelope and encodings handed to the multipart writer; `None` when a compression fails. */
  method CompressEnvelope(zstd: Zstd, should: string -> bool, e: CrashEnvelope)
    returns (r: Option<(CrashEnvelope, Encodings)>)
    ensures r.Some? <==> zstd.compress(e.dump).Some? && AllCompress(zstd, should, e.attachments)
    ensures r.Some? ==> Prepared(zstd, should, e, r.value.0, r.value.1)
  {
    var dump :- zstd.compress(e.dump);
    var parts :- CompressAttachments(zstd, should, e.attachments);
    r := Some((e.(dump := dump, attachments := parts.0), Encodings(Some("zstd"), parts.1)));
  }

  /** What the writer is given for envelope `e`. */
  ghost predicate Prepared(zstd: Zstd, should: string -> bool, e: CrashEnvelope, local: CrashEnvelope,
                           encodings: Encodings) {
    && local.metadata == e.metadata
    && encodings.dump == Some("zstd") && zstd.compress(e.dump) == Some(local.dump)
    && Midway(zstd, should, e.attachments, local.attachments, |e.attachments|)
    && Headed(should, e.attachments, encodings.attachments)
  }

  /** The receiver gets every attachment back as it was. */
  ghost predicate Faithful(zstd: Zstd, original: seq<CrashAttachment>, local: seq<CrashAttachment>,
                           encodings: seq<Option<Bytes>>)
    requires |original| == |local| == |encodings|
  {
    forall i :: 0 <= i < |original| ==> Decoded(zstd, encodings[i], local[i].bytes) == Some(original[i].bytes)
  }

  /** No attachment that is compressed repeats an earlier key. */
  predicate KeysUsable(should: string -> bool, attachments: seq<CrashAttachment>) {
    forall i, j :: 0 <= i < j < |attachments| && attachments[i].key == attachments[j].key ==>
      !Compressed(should, attachments[j])
  }

  predicate RepeatsKey(attachments: seq<CrashAttachment>, j: nat)
    requires j < |attachments|
  {
    exists i :: 0 <= i < j && attachments[i].key == attachments[j].key
  }

  /** A repeated attachment that is compressed does not happen to be its own
      compressed form, which nothing could tell from a mistake. */
  predicate NotSelfCompressed(zstd: Zstd, should: string -> bool, attachments: seq<CrashAttachment>) {
    forall j :: 0 <= j < |attachments| && RepeatsKey(attachments, j) && Compressed(should, attachments[j]) ==>
      zstd.decompress(attachments[j].bytes) != Some(attachments[j].bytes)
  }

  predicate DistinctKeys(attachments: seq<CrashAttachment>) {
    forall i, j :: 0 <= i < j < |attachments| ==> attachments[i].key != attachments[j].key
  }

  lemma UsableKeyDecodes(zstd: Zstd, should: string -> bool, attachments: seq<CrashAttachment>,
                         local: seq<CrashAttachment>, i: nat)
    requires Lossless(zstd) && KeysUsable(should, attachments) && i < |attachments|
    requires Midway(zstd, should, attachments, local, |attachments|)
    ensures Decoded(zstd, Header(should, attachments[i]), local[i].bytes) == Some(attachments[i].bytes)
  {
    var n := |attachments|;
    assert BytesAfter(zstd, should, attachments, n, i) == Some(local[i].bytes);
    var first, last := First(attachments, attachments[i].key), LastUnder(should, attachments, n, attachments[i].key);
    assert first.value <= i;
    if last.Some? {
      assert !(first.value < last.value);
      assert last.value == first.value;
    }
  }

  lemma UnusableKeyBreaks(zstd: Zstd, should: string -> bool, attachments: seq<CrashAttachment>,
                          local: seq<CrashAttachment>, i: nat, j: nat)
    requires i < j < |attachments| && zstd.decompress(attachments[j].bytes) != Some(attachments[j].bytes)
    requires attachments[i].key == attachments[j].key && Compressed(should, attachments[j])
    requires Midway(zstd, should, attachments, local, |attachments|)
    ensures Decoded(zstd, Header(should, attachments[j]), local[j].bytes) != Some(attachments[j].bytes)
  {
    assert BytesAfter(zstd, should, attachments, |attachments|, j) == Some(local[j].bytes);
    assert First(attachments, attachments[j].key).value <= i;
  }

  /** Payload fidelity, exactly: a receiver that decodes by header gets every
      attachment back if and only if no compressed attachment repeats an earlier key. */
  lemma FaithfulExactlyWhen(zstd: Zstd, should: string -> bool, e: CrashEnvelope, local: CrashEnvelope,
                            encodings: Encodings)
    requires Lossless(zstd) && NotSelfCompressed(zstd, should, e.attachments)
             && Prepared(zstd, should, e, local, encodings)
    ensures Faithful(zstd, e.attachments, local.attachments, encodings.attachments) <==>
            KeysUsable(should, e.attachments)
    ensures Decoded(zstd, encodings.dump, local.dump) == Some(e.dump)
  {
    if KeysUsable(should, e.attachments) {
      forall i | 0 <= i < |e.attachments|
        ensures Decoded(zstd, encodings.attachments[i], local.attachments[i].bytes) == Some(e.attachments[i].bytes)
      {
        UsableKeyDecodes(zstd, should, e.attachments, local.attachments, i);
      }
    } else {
      var i, j :| 0 <= i < j < |e.attachments| && e.attachments[i].key == e.attachments[j].key
                  && Compressed(should, e.attachments[j]);
      assert RepeatsKey(e.attachments, j);
      UnusableKeyBreaks(zstd, should, e.attachments, local.attachments, i, j);
    }
  }

  /** With pairwise distinct keys, whatever the compressor, every part decodes
      to the original and carries the header exactly when its bytes were replaced by compressed ones. */
  lemma DistinctKeysFaithful(zstd: Zstd, should: string -> bool, e: CrashEnvelope, local: CrashEnvelope,
                             encodings: Encodings)
    requires Lossless(zstd) && Prepared(zstd, should, e, local, encodings) && DistinctKeys(e.attachments)
    ensures Decoded(zstd, encodings.dump, local.dump) == Some(e.dump)
    ensures Faithful(zstd, e.attachments, local.attachments, encodings.attachments)
    ensures forall i :: 0 <= i < |e.attachments| ==>
              Some(local.attachments[i].bytes) ==
              if encodings.attachments[i].Some? then zstd.compress(e.attachments[i].bytes)
              else Some(e.attachments[i].bytes)
  {
    var n := |e.attachments|;
    forall i | 0 <= i < n
      ensures Decoded(zstd, encodings.attachments[i], local.attachments[i].bytes) == Some(e.attachments[i].bytes)
      ensures Some(local.attachments[i].bytes) ==
              if encodings.attachments[i].Some? then zstd.compress(e.attachments[i].bytes)
              else Some(e.attachments[i].bytes)
    {
      UsableKeyDecodes(zstd, should, e.attachments, local.attachments, i);
      assert BytesAfter(zstd, should, e.attachments, n, i) == Some(local.attachments[i].bytes);
      assert First(e.attachments, e.attachments[i].key) == Some(i);
    }
  }

  /** Two text attachments under one key: the second is announced as compressed
      but sent as it was, and the first carries the second's bytes. */
  lemma RepeatedKeyBreaks(zstd: Zstd, a: Bytes, b: Bytes, local: CrashEnvelope, encodings: Encodings,
                          metadata: CrashMetadata)
    requires Lossless(zstd) && a != b
    requires var e := CrashEnvelope(metadata, a,
                                    [CrashAttachment("k", "text/plain", a), CrashAttachment("k", "text/plain", b)]);
             Prepared(zstd, t => true, e, local, encodings)
    ensures Decoded(zstd, encodings.attachments[0], local.attachments[0].bytes) == Some(b)
    ensures encodings.attachments[1].Some? && local.attachments[1].bytes == b
  {
    var attachments := [CrashAttachment("k", "text/plain", a), CrashAttachment("k", "text/plain", b)];
    assert BytesAfter(zstd, t => true, attachments, 2, 0) == Some(local.attachments[0].bytes);
    assert BytesAfter(zstd, t => true, attachments, 2, 1) == Some(local.attachments[1].bytes);
  }
}

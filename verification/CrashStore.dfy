/**
 The crash store on disk as one request changes it. `CrashesInner` is the whole
 handler; `SoloUploadIsARun` places it in the concurrent protocol of `BlobStore`.
 */
module CrashStore {
  import opened Wrappers
  import opened Storage
  import opened Protocol
  import opened Multipart
  import opened Splitter
  import opened Envelope
  import opened Crashes
  import B = BlobStore

  datatype Stored = Stored(blobs: map<B.Hash, Bytes>, pointers: seq<B.Pointer>)

  /** `finalize_blob`: link the bytes under their digest unless it is taken. */
  function Put(env: B.Env, st: Stored, part: B.Part): Stored {
    var h := env.sha(part.bytes);
    Stored(if h in st.blobs then st.blobs else st.blobs[h := part.bytes],
           st.pointers + [B.PointerTo(env, part, h in st.blobs)])
  }

  function PutAll(env: B.Env, blobs: map<B.Hash, Bytes>, parts: seq<B.Part>): (r: Stored)
    ensures |r.pointers| == |parts|
  {
    if parts == [] then Stored(blobs, [])
    else Put(env, PutAll(env, blobs, parts[..|parts| - 1]), parts[|parts| - 1])
  }

  /** What belongs to the dump and to the attachments, as the loop collects it. */
  function Sorted<T>(parts: seq<B.Part>, pointers: seq<T>): (Option<T>, seq<T>)
    requires |parts| == |pointers|
  {
    if parts == [] then (None, [])
    else
      var n := |parts| - 1;
      var (dump, attachments) := Sorted(parts[..n], pointers[..n]);
      if parts[n].IsDump() then (Some(pointers[n]), attachments) else (dump, attachments + [pointers[n]])
  }

  lemma {:induction false} SortedAfterDump<T>(parts: seq<B.Part>, pointers: seq<T>, k: nat)
    requires |parts| == |pointers| && k < |parts| && B.DumpAt(parts, k)
    ensures Sorted(parts, pointers) == (Some(pointers[k]), pointers[..k] + pointers[k + 1..])
  {
    var n := |parts| - 1;
    if k == n {
      SortedNoDump(parts[..n], pointers[..n]);
      assert pointers[k + 1..] == [] && pointers[..k] + [] == pointers[..k];
    } else {
      SortedAfterDump(parts[..n], pointers[..n], k);
      assert pointers[..n][..k] == pointers[..k];
      assert pointers[..n][k + 1..] + [pointers[n]] == pointers[k + 1..];
      assert pointers[..k] + pointers[..n][k + 1..] + [pointers[n]] == pointers[..k] + pointers[k + 1..];
    }
  }

  lemma {:induction false} SortedNoDump<T>(parts: seq<B.Part>, pointers: seq<T>)
    requires |parts| == |pointers| && forall i :: 0 <= i < |parts| ==> !parts[i].IsDump()
    ensures Sorted(parts, pointers) == (None, pointers)
  {
    if parts != [] {
      var n := |parts| - 1;
      SortedNoDump(parts[..n], pointers[..n]);
      assert pointers == pointers[..n] + [pointers[n]];
    }
  }

  lemma SortedMakesIndex<T>(parts: seq<B.Part>, xs: seq<T>)
    requires |parts| == |xs| && B.OneDump(parts)
    ensures Sorted(parts, xs) == (Some(B.Arranged(parts, xs).0), B.Arranged(parts, xs).1)
  {
    SortedAfterDump(parts, xs, B.DumpIndex(parts));
  }

  /** A received dump is the only one among the parts. */
  lemma {:induction false} ReceivedDumps(policy: Policy, items: seq<Item>)
    requires TakeRest(policy, items).Ok?
    ensures var r := TakeRest(policy, items).value;
            if r.dump.Some? then B.OneDump(r.parts) else forall i :: 0 <= i < |r.parts| ==> !r.parts[i].IsDump()
  {
    if items != [] {
      var n := |items| - 1;
      ReceivedDumps(policy, items[..n]);
      var before, r := TakeRest(policy, items[..n]).value, TakeRest(policy, items).value;
      var m := |before.parts|;
      if before.dump.Some? {
        assert B.DumpAt(r.parts, B.DumpIndex(before.parts));
      } else if r.dump.Some? {
        assert B.DumpAt(r.parts, m);
      }
    }
  }

  /** No blob is lost or altered. */
  ghost predicate Keeps(before: map<B.Hash, Bytes>, after: map<B.Hash, Bytes>) {
    forall h :: h in before ==> h in after && after[h] == before[h]
  }

  lemma {:induction false} PutAllKeeps(env: B.Env, blobs: map<B.Hash, Bytes>, parts: seq<B.Part>)
    ensures Keeps(blobs, PutAll(env, blobs, parts).blobs)
  {
    if parts != [] {
      PutAllKeeps(env, blobs, parts[..|parts| - 1]);
    }
  }

  /** The parts the loop takes before it is refused, or all of them. */
  function TakenBefore(policy: Policy, items: seq<Item>): seq<B.Part> {
    if TakeRest(policy, items).Ok? then TakeRest(policy, items).value.parts
    else TakenBefore(policy, items[..|items| - 1])
  }

  lemma {:induction false} TakenUpTo(policy: Policy, items: seq<Item>, i: nat)
    requires i < |items| && TakeRest(policy, items[..i]).Ok? && TakeRest(policy, items[..i + 1]).Err?
    ensures TakenBefore(policy, items) == TakeRest(policy, items[..i]).value.parts
    decreases |items|
  {
    RefusalStops(policy, items, i + 1);
    var n := |items| - 1;
    if i < n {
      assert items[..n][..i] == items[..i] && items[..n][..i + 1] == items[..i + 1];
      TakenUpTo(policy, items[..n], i);
    }
  }

  class Store {
    var blobs: map<B.Hash, Bytes>
    var indexes: map<Path, B.IndexFile>

    /** `read_metadata`: the chunks joined, refused as soon as they exceed the limit. */
    method ReadMetadata(chunks: seq<Bytes>) returns (r: Result<Bytes, CrashError>)
      ensures r == if |Concat(chunks)| > METADATA_MAX_BYTES then Err(PayloadTooLarge(METADATA_MAX_BYTES))
                   else Ok(Concat(chunks))
    {
      var bytes := [];
      for i := 0 to |chunks|
        invariant bytes == Concat(chunks[..i]) && |bytes| <= METADATA_MAX_BYTES
      {
        OneMore([], chunks, i);
        assert [] + Concat(chunks[..i]) + chunks[i] == bytes + chunks[i];
        if |bytes| + |chunks[i]| > METADATA_MAX_BYTES {
          ConcatGrows(chunks, i + 1);
          return Err(PayloadTooLarge(METADATA_MAX_BYTES));
        }
        bytes := bytes + chunks[i];
      }
      assert chunks[..|chunks|] == chunks;
      r := Ok(bytes);
    }

    /** `write_part_to_blob`: the part is hashed and spooled chunk by chunk. */
    method WritePartToBlob(env: B.Env, tag: B.Tag, chunks: seq<Bytes>, max: nat)
      returns (r: Result<B.Pointer, CrashError>)
      modifies this`blobs
      ensures r.Err? <==> |Concat(chunks)| > max
      ensures r.Err? ==> r.error == PayloadTooLarge(max) && blobs == old(blobs)
      ensures r.Ok? ==> Put(env, Stored(old(blobs), []), B.Part(tag, Concat(chunks))) == Stored(blobs, [r.value])
    {
      var temp, len := [], 0;
      for i := 0 to |chunks|
        invariant temp == Concat(chunks[..i]) && len == |temp| <= max && blobs == old(blobs)
      {
        OneMore([], chunks, i);
        assert [] + Concat(chunks[..i]) + chunks[i] == temp + chunks[i];
        len := len + |chunks[i]|;
        if len > max {
          ConcatGrows(chunks, i + 1);
          return Err(PayloadTooLarge(max));
        }
        temp := temp + chunks[i];
      }
      assert chunks[..|chunks|] == chunks;
      var h := env.sha(temp);
      var dedup := h in blobs;
      if !dedup {
        blobs := blobs[h := temp];
      }
      r := Ok(B.Pointer(tag, h, len, dedup));
    }

    method WriteIndex(metadata: CrashMetadata, dump: B.Pointer, attachments: seq<B.Pointer>, now: int)
      modifies this`indexes
      ensures indexes == old(indexes)[IndexPath(metadata.source, metadata.timestamp, dump.sha256) :=
                                        B.IndexFile(now, Some(B.CrashIndex(metadata, dump, attachments)))]
    {
      var index := B.CrashIndex(metadata, dump, attachments);
      indexes := indexes[IndexPath(metadata.source, metadata.timestamp, dump.sha256) := B.IndexFile(now, Some(index))];
    }

    /** `crashes_inner` on an uninterrupted store. `chunked` is how the transport
        cuts a part into chunks. A refused upload leaves the blobs of the parts taken
        before, none if it is refused for its metadata, and never an index. */
    method CrashesInner(env: B.Env, json: Json, policy: Policy, items: seq<Item>, chunked: Bytes -> seq<Bytes>,
                        now: int)
      returns (r: Result<(B.Hash, bool), CrashError>)
      requires forall b :: Concat(chunked(b)) == b
      modifies this
      ensures Keeps(old(blobs), blobs)
      ensures Serve(json, policy, items).Err? ==> r == Err(Serve(json, policy, items).error) && indexes == old(indexes)
      ensures TakeFirst(json, policy, items).Err? ==> blobs == old(blobs)
      ensures TakeFirst(json, policy, items).Ok? ==>
                blobs == PutAll(env, old(blobs), TakenBefore(policy, items[1..])).blobs
      ensures Serve(json, policy, items).Ok? ==>
                var (m, received) := Serve(json, policy, items).value;
                var stored := PutAll(env, old(blobs), received.parts);
                && B.OneDump(received.parts)
                && var index := B.MakeIndex(B.Request(m, received.parts), stored.pointers);
                   && blobs == stored.blobs
                   && indexes == old(indexes)[IndexPath(m.source, m.timestamp, index.dump.sha256) :=
                                                B.IndexFile(now, Some(index))]
                   && r == Ok((index.dump.sha256, index.dump.dedup))
    {
      if items == [] {
        return Err(Missing("metadata"));
      }
      if items[0].Bad? {
        return Err(BadMultipart);
      }
      if items[0].field.name != Some("metadata") {
        return Err(BadRequest);
      }
      var bytes := ReadMetadata(chunked(items[0].field.bytes));
      if bytes.Err? {
        return Err(bytes.error);
      }
      var metadata := TakeMetadata(json, policy, bytes.value);
      if metadata.Err? {
        return Err(metadata.error);
      }
      var dump, attachments, error := TakeParts(env, policy, items[1..], chunked);
      if error.Some? {
        return Err(error.value);
      }
      if dump.None? {
        return Err(Missing("dump"));
      }
      ghost var received := TakeRest(policy, items[1..]).value;
      ReceivedDumps(policy, items[1..]);
      SortedMakesIndex(received.parts, PutAll(env, old(blobs), received.parts).pointers);
      WriteIndex(metadata.value, dump.value, attachments, now);
      r := Ok((dump.value.sha256, dump.value.dedup));
    }

    /** The loop over the parts after the metadata. */
    method TakeParts(env: B.Env, policy: Policy, items: seq<Item>, chunked: Bytes -> seq<Bytes>)
      returns (dump: Option<B.Pointer>, attachments: seq<B.Pointer>, error: Option<CrashError>)
      requires forall b :: Concat(chunked(b)) == b
      modifies this`blobs
      ensures Keeps(old(blobs), blobs)
      ensures error.Some? <==> TakeRest(policy, items).Err?
      ensures error.Some? ==> error.value == TakeRest(policy, items).error
      ensures blobs == PutAll(env, old(blobs), TakenBefore(policy, items)).blobs
      ensures error.None? ==>
                var received := TakeRest(policy, items).value;
                var stored := PutAll(env, old(blobs), received.parts);
                && blobs == stored.blobs && (dump, attachments) == Sorted(received.parts, stored.pointers)
                && (dump.Some? <==> received.dump.Some?)
    {
      dump, attachments, error := None, [], None;
      ghost var received := NOTHING;
      for i := 0 to |items|
        invariant TakeRest(policy, items[..i]) == Ok(received)
        invariant blobs == PutAll(env, old(blobs), received.parts).blobs
        invariant (dump, attachments) ==
                  Sorted(received.parts, PutAll(env, old(blobs), received.parts).pointers)
        invariant dump.Some? <==> received.dump.Some?
      {
        assert items[..i + 1][..i] == items[..i];
        PutAllKeeps(env, old(blobs), received.parts);
        var part := TakePart(env, policy, items[i], dump.Some?, chunked, received);
        if part.Err? {
          RefusalStops(policy, items, i + 1);
          TakenUpTo(policy, items, i);
          error := Some(part.error);
          return;
        }
        var pointer := part.value;
        PutOneMore(env, old(blobs), received.parts, PartOf(items[i].field), pointer);
        if pointer.tag.DumpTag? {
          dump := Some(pointer);
        } else {
          attachments := attachments + [pointer];
        }
        received := TakeNext(policy, received, items[i]).value;
      }
      assert items[..|items|] == items;
      PutAllKeeps(env, old(blobs), received.parts);
    }

    /** One turn of the loop: the checks on the name, then the blob. */
    method TakePart(env: B.Env, policy: Policy, item: Item, haveDump: bool, chunked: Bytes -> seq<Bytes>,
                    ghost acc: Received)
      returns (r: Result<B.Pointer, CrashError>)
      requires forall b :: Concat(chunked(b)) == b
      requires haveDump <==> acc.dump.Some?
      modifies this`blobs
      ensures r.Err? ==> TakeNext(policy, acc, item) == Err(r.error) && blobs == old(blobs)
      ensures r.Ok? ==>
                && TakeNext(policy, acc, item).Ok? && item.Good?
                && item.field.name.Some? && (item.field.name.value == "dump" || ATTACH <= item.field.name.value)
                && TakeNext(policy, acc, item).value.parts == acc.parts + [PartOf(item.field)]
                && (TakeNext(policy, acc, item).value.dump.Some? <==> haveDump || r.value.tag.DumpTag?)
                && Put(env, Stored(old(blobs), []), PartOf(item.field)) == Stored(blobs, [r.value])
    {
      if item.Bad? {
        return Err(BadMultipart);
      }
      var f := item.field;
      if f.name.None? || f.name.value == "metadata" {
        return Err(BadRequest);
      }
      var isDump := f.name.value == "dump";
      if (isDump && haveDump) || !(isDump || ATTACH <= f.name.value) {
        return Err(BadRequest);
      }
      r := WritePartToBlob(env, PartOf(f).tag, chunked(f.bytes), policy.maxDumpBytes);
      assert B.Part(PartOf(f).tag, Concat(chunked(f.bytes))) == PartOf(f);
      assert r.Ok? ==> Put(env, Stored(old(blobs), []), PartOf(f)).pointers[0] == r.value;
    }
  }

  lemma {:induction false} ConcatGrows(chunks: seq<Bytes>, n: nat)
    requires n <= |chunks|
    ensures |Concat(chunks[..n])| <= |Concat(chunks)|
    decreases |chunks|
  {
    if n == |chunks| {
      assert chunks[..n] == chunks;
    } else {
      var k := |chunks| - 1;
      ConcatGrows(chunks[..k], n);
      assert chunks[..k][..n] == chunks[..n];
      ConcatAppend(chunks[..k], chunks[k]);
      assert chunks == chunks[..k] + [chunks[k]];
    }
  }

  lemma {:induction false} RefusalStops(policy: Policy, items: seq<Item>, n: nat)
    requires n <= |items| && TakeRest(policy, items[..n]).Err?
    ensures TakeRest(policy, items) == Err(TakeRest(policy, items[..n]).error)
    decreases |items|
  {
    if n == |items| {
      assert items[..n] == items;
    } else {
      var k := |items| - 1;
      assert items[..k][..n] == items[..n];
      RefusalStops(policy, items[..k], n);
    }
  }

  lemma PutOneMore(env: B.Env, blobs: map<B.Hash, Bytes>, parts: seq<B.Part>, part: B.Part, pointer: B.Pointer)
    requires Put(env, Stored(PutAll(env, blobs, parts).blobs, []), part).pointers == [pointer]
    ensures var st, all := PutAll(env, blobs, parts), PutAll(env, blobs, parts + [part]);
            && all == Put(env, st, part) && all.pointers == st.pointers + [pointer] && pointer.tag == part.tag
            && var (dump, attachments) := Sorted(parts, st.pointers);
               Sorted(parts + [part], all.pointers) ==
               if part.IsDump() then (Some(pointer), attachments) else (dump, attachments + [pointer])
  {
    var st, all := PutAll(env, blobs, parts), PutAll(env, blobs, parts + [part]);
    assert (parts + [part])[..|parts|] == parts;
    assert Put(env, Stored(st.blobs, []), part).pointers == [] + [pointer];
    assert all.pointers[..|parts|] == st.pointers;
  }

  // ------------------------------------------------------- in the protocol

  /** The state once upload `u` has its first `n` pointers and nothing else moved. */
  function Midway(env: B.Env, s: B.State, u: nat, request: B.Request, n: nat): B.State
    requires n <= |request.parts|
  {
    var stored := PutAll(env, s.blobs, request.parts[..n]);
    s.(blobs := stored.blobs, uploads := s.uploads[u := B.Upload(request, stored.pointers, B.Ready)])
  }

  /** The run goes on with an event of an upload of `request`. */
  lemma ThenPost(env: B.Env, s0: B.State, es: seq<B.Event>, e: B.Event, s': B.State, request: B.Request)
      returns (es': seq<B.Event>)
    requires B.Run(env, s0, es).Some? && B.Enabled(env, B.Run(env, s0, es).value, e)
    requires B.Apply(env, B.Run(env, s0, es).value, e) == s'
    requires B.OnlyPosts(es, request) && !B.JanitorEvent(e) && (e.Begin? ==> e.request == request)
    ensures B.Run(env, s0, es') == Some(s') && B.OnlyPosts(es', request)
  {
    es' := B.Then(env, s0, es, e, s');
  }

  lemma {:induction false} SoloParts(env: B.Env, s: B.State, u: nat, request: B.Request, n: nat)
    returns (es: seq<B.Event>)
    requires u !in s.uploads && n <= |request.parts|
    ensures B.Run(env, s, es) == Some(Midway(env, s, u, request, n)) && B.OnlyPosts(es, request)
  {
    if n == 0 {
      es := ThenPost(env, s, [], B.Begin(u, request), Midway(env, s, u, request, 0), request);
    } else {
      es := SoloParts(env, s, u, request, n - 1);
      es := SoloPart(env, s, u, request, n - 1, es);
    }
  }

  lemma SoloPart(env: B.Env, s: B.State, u: nat, request: B.Request, n: nat, es: seq<B.Event>)
      returns (es': seq<B.Event>)
    requires n < |request.parts| && B.Run(env, s, es) == Some(Midway(env, s, u, request, n)) && B.OnlyPosts(es, request)
    ensures B.Run(env, s, es') == Some(Midway(env, s, u, request, n + 1)) && B.OnlyPosts(es', request)
  {
    var parts, mid, after := request.parts, Midway(env, s, u, request, n), Midway(env, s, u, request, n + 1);
    assert parts[..n + 1][..n] == parts[..n];
    var h := env.sha(parts[n].bytes);
    es' := ThenPost(env, s, es, B.Stage(u), At(mid, u, B.Staged), request);
    if h !in mid.blobs {
      es' := ThenPost(env, s, es', B.Missing(u, h), At(mid, u, B.Absent), request);
    }
    MidwayStep(env, s, u, request, n);
    var e := if h in mid.blobs then B.Exists(u, h) else B.Linked(u, h);
    es' := ThenPost(env, s, es', e, after, request);
  }

  function At(s: B.State, u: nat, progress: B.Progress): B.State
    requires u in s.uploads
  {
    s.(uploads := s.uploads[u := s.uploads[u].(progress := progress)])
  }

  lemma MidwayStep(env: B.Env, s: B.State, u: nat, request: B.Request, n: nat)
    requires n < |request.parts|
    ensures var mid, h := Midway(env, s, u, request, n), env.sha(request.parts[n].bytes);
            var e := if h in mid.blobs then B.Exists(u, h) else B.Linked(u, h);
            var ready := At(mid, u, if h in mid.blobs then B.Staged else B.Absent);
            B.Enabled(env, ready, e) && B.Apply(env, ready, e) == Midway(env, s, u, request, n + 1)
  {
    assert request.parts[..n + 1][..n] == request.parts[..n];
  }

  /** The handler's effect on an accepted request is one run of the protocol, so
      every result about runs speaks about it. */
  lemma SoloUploadIsARun(env: B.Env, s: B.State, u: nat, request: B.Request) returns (es: seq<B.Event>)
    requires u !in s.uploads && B.OneDump(request.parts)
    ensures var stored := PutAll(env, s.blobs, request.parts);
            var index, m := B.MakeIndex(request, stored.pointers), request.metadata;
            B.Run(env, s, es) ==
            Some(s.(blobs := stored.blobs,
                    indexes := s.indexes[IndexPath(m.source, m.timestamp, index.dump.sha256) :=
                                           B.IndexFile(s.now, Some(index))]))
    ensures B.OnlyPosts(es, request) && B.Posted(es)
  {
    var parts, n := request.parts, |request.parts|;
    es := SoloParts(env, s, u, request, n);
    assert parts[..n] == parts;
    var mid := Midway(env, s, u, request, n);
    assert mid.uploads - {u} == s.uploads;
    var p := B.PathOf(mid, u);
    es := B.Then(env, s, es, B.Index(u, p), B.Apply(env, mid, B.Index(u, p)));
    assert es[|es| - 1] in es;
  }

  lemma FirstPartIsDump(env: B.Env, blobs: map<B.Hash, Bytes>, r: B.Request, dump: B.Part)
    requires r.parts != [] && r.parts[0] == dump && B.DumpAt(r.parts, 0)
    ensures B.OneDump(r.parts)
    ensures var index := B.MakeIndex(r, PutAll(env, blobs, r.parts).pointers);
            index.dump.sha256 == env.sha(dump.bytes) && |index.attachments| == |r.parts| - 1
  {
    assert B.DumpIndex(r.parts) == 0;
    PutAllPointsTo(env, blobs, r.parts, 0);
  }

  lemma {:induction false} PutAllPointsTo(env: B.Env, blobs: map<B.Hash, Bytes>, parts: seq<B.Part>, i: nat)
    requires i < |parts|
    ensures PutAll(env, blobs, parts).pointers[i].sha256 == env.sha(parts[i].bytes)
  {
    var n := |parts| - 1;
    if i < n {
      PutAllPointsTo(env, blobs, parts[..n], i);
    }
  }

  /** A store that was posted nothing but `r`, and was empty before, keeps it. */
  lemma PostedKeeps(env: B.Env, s0: B.State, es: seq<B.Event>, r: B.Request, texts: set<Bytes>)
    requires s0.uploads == map[] && s0.blobs == map[] && B.OneDump(r.parts)
    requires B.OnlyPosts(es, r) && B.Posted(es) && B.Run(env, s0, es).Some?
    requires B.CollisionFree(env, texts) && B.PartsWithin(r.parts, texts)
    ensures var s, p := B.Run(env, s0, es).value, B.PathFor(env, r);
            p in s.indexes && s.indexes[p].body.Some? && B.KeepsAll(s.indexes[p].body.value, r, s.blobs)
  {
    B.PostsInvariant(env, s0, es, r);
    B.BlobsStayContentAddressed(env, s0, es);
    B.RunWithin(env, s0, es, texts);
    var s := B.Run(env, s0, es).value;
    B.DescribedKeeps(env, texts, s.indexes[B.PathFor(env, r)].body.value, r, s.blobs);
  }

  /** Two crashes of one source, time and dump share an index: the first is there
      and kept, the second, which has no attachment, is posted, and the index no
      longer keeps the first. */
  lemma OverwritingUpload(env: B.Env, metadata: CrashMetadata, dump: B.Part, attachment: B.Part)
      returns (s0: B.State, es: seq<B.Event>, s: B.State, later: seq<B.Event>, end: B.State, p: Path)
    requires dump.IsDump() && !attachment.IsDump() && B.CollisionFree(env, {dump.bytes, attachment.bytes})
    ensures B.OneDump([dump, attachment]) && B.Run(env, s0, es) == Some(s) && B.Run(env, s, later) == Some(end)
    ensures B.OnlyPosts(es, B.Request(metadata, [dump, attachment]))
    ensures B.OnlyPosts(later, B.Request(metadata, [dump])) && B.Posted(later)
    ensures p in s.indexes && s.indexes[p].body.Some?
    ensures B.KeepsAll(s.indexes[p].body.value, B.Request(metadata, [dump, attachment]), s.blobs)
    ensures p in end.indexes && end.indexes[p].body.Some?
    ensures !B.KeepsAll(end.indexes[p].body.value, B.Request(metadata, [dump, attachment]), end.blobs)
  {
    var r, r' := B.Request(metadata, [dump, attachment]), B.Request(metadata, [dump]);
    assert B.DumpAt(r.parts, 0) && B.DumpAt(r'.parts, 0);
    s0 := B.State(0, map[], map[], map[], B.Idle);
    p := IndexPath(metadata.source, metadata.timestamp, env.sha(dump.bytes));
    FirstPartIsDump(env, s0.blobs, r, dump);
    es := SoloUploadIsARun(env, s0, 0, r);
    s := B.Run(env, s0, es).value;
    PostedKeeps(env, s0, es, r, {dump.bytes, attachment.bytes});
    FirstPartIsDump(env, s.blobs, r', dump);
    later := SoloUploadIsARun(env, s, 0, r');
    end := B.Run(env, s, later).value;
    assert B.Arranged(r.parts, r.parts).0 == dump;
    assert |B.Arranged(r.parts, r.parts).1| == 1;
  }
}

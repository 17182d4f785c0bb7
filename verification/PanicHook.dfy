/**
 The crash entries that the panic hook and the minidump handler leave behind,
 and what a shipper reads from one that was cut off half-way. `fs::write` is
 atomic; the process may die, or a write may fail, between any two writes.
 */
module PanicHook {
  import opened Wrappers
  import opened Protocol
  import opened Shipper
  import opened Compression
  import M = Multipart

  // ------------------------------------------------------------ names

  function Digit(d: nat): char
    requires d < 10
  {
    '0' + d as char
  }

  function Decimal(n: nat): (s: string)
    ensures s != ""
  {
    if n < 10 then [Digit(n)] else Decimal(n / 10) + [Digit(n % 10)]
  }

  /** The number that decimal digits stand for. */
  function Value(s: string): int {
    if s == "" then 0 else 10 * Value(s[..|s| - 1]) + (s[|s| - 1] as int - '0' as int)
  }

  lemma {:induction false} DecimalValue(n: nat)
    ensures Value(Decimal(n)) == n
  {
    if n >= 10 {
      DecimalValue(n / 10);
      assert Decimal(n)[..|Decimal(n)| - 1] == Decimal(n / 10);
    }
  }

  /** A context file of the configuration: its UTF-8 file name, if it has one,
      and its bytes, if they can be read. */
  datatype ContextFile = ContextFile(name: Option<string>, bytes: Option<Bytes>)

  function FileName(index: nat, context: ContextFile): string {
    if context.name.Some? then context.name.value else "context-" + Decimal(index) + ".json"
  }

  function Key(index: nat): string { "context-" + Decimal(index) }

  lemma DecimalInjective(m: nat, n: nat)
    requires Decimal(m) == Decimal(n)
    ensures m == n
  {
    DecimalValue(m);
    DecimalValue(n);
  }

  // ------------------------------------------------------------ writes

  datatype Write = Write(name: string, bytes: Bytes)

  function Written(writes: seq<Write>): Files {
    if writes == [] then map[]
    else Written(writes[..|writes| - 1])[writes[|writes| - 1].name := writes[|writes| - 1].bytes]
  }

  /** The crash as the hook sees it: `inManifest` for the panic hook, which lists
      `sdk-config.json` among the attachments; `configLen` is the length it lists. */
  datatype Crash = Crash(metadata: CrashMetadata, inManifest: bool, configLen: nat, dump: Bytes, config: Bytes)

  function Manifest(index: nat, name: string, bytes: Bytes): AttachmentManifest {
    AttachmentManifest(Key(index), Some(name), "application/json", |bytes|)
  }

  function Manifests(names: seq<string>, contents: seq<Bytes>): (r: seq<AttachmentManifest>)
    requires |names| == |contents|
    ensures |r| == |names| && forall i :: 0 <= i < |r| ==> r[i] == Manifest(i, names[i], contents[i])
  {
    seq(|names|, i requires 0 <= i < |names| => Manifest(i, names[i], contents[i]))
  }

  function SdkManifest(crash: Crash): seq<AttachmentManifest> {
    if crash.inManifest then
      [AttachmentManifest("sdk-config", Some("sdk-config.json"), "application/json", crash.configLen)]
    else []
  }

  function Metadata(crash: Crash, names: seq<string>, contents: seq<Bytes>): CrashMetadata
    requires |names| == |contents|
  {
    crash.metadata.(attachments := SdkManifest(crash) + Manifests(names, contents))
  }

  function ContextWrites(names: seq<string>, contents: seq<Bytes>): (r: seq<Write>)
    requires |names| == |contents|
    ensures |r| == |names| && forall i :: 0 <= i < |r| ==> r[i] == Write(names[i], contents[i])
  {
    seq(|names|, i requires 0 <= i < |names| => Write(names[i], contents[i]))
  }

  /** Everything the hook writes, in order. */
  function Writes(json: Json, crash: Crash, names: seq<string>, contents: seq<Bytes>): seq<Write>
    requires |names| == |contents|
  {
    ContextWrites(names, contents) + OwnWrites(json.encode(Metadata(crash, names, contents)), crash.dump, crash.config)
  }

  /** What comes after the context files. */
  function OwnWrites(metadata: Bytes, dump: Bytes, config: Bytes): seq<Write> {
    [Write("metadata.json", metadata), Write("dump.bin", dump), Write("sdk-config.json", config)]
  }

  /** The entry the hook means to leave behind. */
  function Complete(crash: Crash, names: seq<string>, contents: seq<Bytes>): CrashEnvelope
    requires |names| == |contents|
  {
    CrashEnvelope(Metadata(crash, names, contents), crash.dump, SdkAttachment(crash) + ContextAttachments(contents))
  }

  function SdkAttachment(crash: Crash): seq<CrashAttachment> {
    if crash.inManifest then [CrashAttachment("sdk-config", "application/json", crash.config)] else []
  }

  function ContextAttachments(contents: seq<Bytes>): (r: seq<CrashAttachment>)
    ensures |r| == |contents|
    ensures forall i :: 0 <= i < |r| ==> r[i] == CrashAttachment(Key(i), "application/json", contents[i])
  {
    seq(|contents|, i requires 0 <= i < |contents| => CrashAttachment(Key(i), "application/json", contents[i]))
  }

  class EntryDir {
    var files: Files
    ghost var trace: seq<Write>

    ghost predicate Valid()
      reads this
    {
      files == Written(trace)
    }

    constructor ()
      ensures Valid() && trace == []
    {
      files, trace := map[], [];
    }

    /** `fs::write`, which may fail. */
    method WriteFile(name: string, bytes: Bytes, works: bool)
      requires Valid()
      modifies this
      ensures Valid() && trace == if works then old(trace) + [Write(name, bytes)] else old(trace)
    {
      if works {
        files := files[name := bytes];
        trace := trace + [Write(name, bytes)];
        assert trace[..|trace| - 1] == old(trace);
      }
    }
  }

  /** A context file keeps its name, or gets one after its index. */
  ghost predicate NamedBy(context: ContextFile, index: nat, name: string) {
    match context.name
    case Some(given) => name == given
    case None => name == "context-" + Decimal(index) + ".json"
  }

  /** The names and contents that the context files stand for. */
  ghost predicate Describes(contexts: seq<ContextFile>, names: seq<string>, contents: seq<Bytes>) {
    && |names| == |contents| == |contexts|
    && (forall i :: 0 <= i < |contexts| ==> NamedBy(contexts[i], i, names[i]))
    && (forall i :: 0 <= i < |contexts| && contexts[i].bytes.Some? ==> contents[i] == contexts[i].bytes.value)
  }

  /** `copy_context_file`. */
  method CopyContextFile(dir: EntryDir, index: nat, context: ContextFile, works: bool)
    returns (r: Option<AttachmentManifest>)
    requires dir.Valid()
    modifies dir
    ensures dir.Valid() && (r.Some? <==> context.bytes.Some? && works)
    ensures r.None? ==> dir.trace == old(dir.trace)
    ensures r.Some? ==>
              && r.value.filename.Some? && NamedBy(context, index, r.value.filename.value)
              && dir.trace == old(dir.trace) + [Write(r.value.filename.value, context.bytes.value)]
              && r.value.key == "context-" + Decimal(index) && r.value.contentType == "application/json"
              && r.value.len == |context.bytes.value|
  {
    var name := FileName(index, context);
    var bytes :- context.bytes;
    dir.WriteFile(name, bytes, works);
    r := if works then Some(Manifest(index, name, bytes)) else None;
  }

  /** `copy_context_files`: stops at the first file that cannot be read or written. */
  method CopyContextFiles(dir: EntryDir, contexts: seq<ContextFile>, works: nat -> bool, ghost all: seq<Write>,
                          ghost listed: seq<AttachmentManifest>)
    returns (r: Option<seq<AttachmentManifest>>)
    requires dir.Valid() && dir.trace == []
    requires Shape(contexts, all, listed)
    modifies dir
    ensures dir.Valid() && dir.trace <= all
    ensures r.Some? <==> forall i :: 0 <= i < |contexts| ==> contexts[i].bytes.Some? && works(i)
    ensures r.Some? ==> dir.trace == all && r.value == listed
  {
    var manifests := [];
    for i := 0 to |contexts|
      invariant dir.Valid() && dir.trace == all[..i] && manifests == listed[..i]
      invariant forall j :: 0 <= j < i ==> contexts[j].bytes.Some? && works(j)
    {
      var manifest :- CopyContextFile(dir, i, contexts[i], works(i));
      assert all[..i + 1] == all[..i] + [all[i]] && listed[..i + 1] == listed[..i] + [listed[i]];
      manifests := manifests + [manifest];
    }
    r := Some(manifests);
  }

  ghost predicate Shape(contexts: seq<ContextFile>, contextWrites: seq<Write>, manifests: seq<AttachmentManifest>) {
    && |contextWrites| == |manifests| == |contexts|
    && forall i :: 0 <= i < |contexts| && contexts[i].bytes.Some? ==>
         && NamedBy(contexts[i], i, contextWrites[i].name) && contextWrites[i].bytes == contexts[i].bytes.value
         && manifests[i] ==
            AttachmentManifest("context-" + Decimal(i), Some(contextWrites[i].name), "application/json",
                               |contexts[i].bytes.value|)
  }

  lemma WritesShape(json: Json, crash: Crash, contexts: seq<ContextFile>, names: seq<string>, contents: seq<Bytes>)
    returns (contextWrites: seq<Write>, manifests: seq<AttachmentManifest>)
    requires Describes(contexts, names, contents)
    ensures Shape(contexts, contextWrites, manifests)
    ensures var n, all := |contexts|, Writes(json, crash, names, contents);
            && |all| == n + 3 && all[..n] == contextWrites
            && all[n] == Write("metadata.json",
                               json.encode(crash.metadata.(attachments := SdkManifest(crash) + manifests)))
            && all[n + 1] == Write("dump.bin", crash.dump) && all[n + 2] == Write("sdk-config.json", crash.config)
  {
    contextWrites, manifests := ContextWrites(names, contents), Manifests(names, contents);
  }

  /** `write_pending_crash` and `write_pending_minidump`. Whatever goes wrong, what
      has been written is a prefix of the whole; success means all of it. */
  method WritePending(dir: EntryDir, json: Json, crash: Crash, contexts: seq<ContextFile>, works: nat -> bool,
                      ghost names: seq<string>, ghost contents: seq<Bytes>)
    returns (ok: bool)
    requires dir.Valid() && dir.trace == [] && Describes(contexts, names, contents)
    modifies dir
    ensures dir.Valid() && dir.trace <= Writes(json, crash, names, contents)
    ensures ok <==> dir.trace == Writes(json, crash, names, contents)
    ensures ok <==> && (forall i :: 0 <= i < |contexts| ==> contexts[i].bytes.Some? && works(i))
                    && works(|contexts|) && works(|contexts| + 1) && works(|contexts| + 2)
  {
    ghost var contextWrites, manifests := WritesShape(json, crash, contexts, names, contents);
    var copied := CopyContextFiles(dir, contexts, works, contextWrites, manifests);
    if copied.None? {
      return false;
    }
    var metadata := crash.metadata.(attachments := SdkManifest(crash) + copied.value);
    ok := WriteOwnFiles(dir, json.encode(metadata), crash.dump, crash.config, works, |contexts|,
                        Writes(json, crash, names, contents));
  }

  method WriteOwnFiles(dir: EntryDir, metadata: Bytes, dump: Bytes, config: Bytes, works: nat -> bool, n: nat,
                       ghost all: seq<Write>)
    returns (ok: bool)
    requires dir.Valid() && |dir.trace| == n && |all| == n + 3 && dir.trace == all[..n]
    requires all[n] == Write("metadata.json", metadata)
    requires all[n + 1] == Write("dump.bin", dump) && all[n + 2] == Write("sdk-config.json", config)
    modifies dir
    ensures dir.Valid() && dir.trace <= all
    ensures ok <==> dir.trace == all
    ensures ok <==> works(n) && works(n + 1) && works(n + 2)
  {
    dir.WriteFile("metadata.json", metadata, works(n));
    if !works(n) {
      return false;
    }
    assert dir.trace == all[..n + 1];
    dir.WriteFile("dump.bin", dump, works(n + 1));
    if !works(n + 1) {
      return false;
    }
    assert dir.trace == all[..n + 2];
    dir.WriteFile("sdk-config.json", config, works(n + 2));
    return works(n + 2);
  }

  // ------------------------------------------------------------ reading back

  lemma {:induction false} WrittenNames(writes: seq<Write>, n: string)
    ensures n in Written(writes) <==> exists i :: 0 <= i < |writes| && writes[i].name == n
  {
    if writes != [] {
      var last := |writes| - 1;
      WrittenNames(writes[..last], n);
      if i :| 0 <= i < |writes| && writes[i].name == n {
        assert i < last ==> writes[..last][i].name == n;
      }
    }
  }

  lemma {:induction false} LastWriteWins(writes: seq<Write>, i: nat)
    requires i < |writes| && forall j :: i < j < |writes| ==> writes[j].name != writes[i].name
    ensures writes[i].name in Written(writes) && Written(writes)[writes[i].name] == writes[i].bytes
  {
    var last := |writes| - 1;
    if i < last {
      assert writes[..last][i] == writes[i];
      LastWriteWins(writes[..last], i);
    }
  }

  ghost predicate AllThere(files: Files, manifests: seq<AttachmentManifest>) {
    forall i :: 0 <= i < |manifests| ==> manifests[i].filename.Some? && manifests[i].filename.value in files
  }

  ghost function Got(files: Files, manifests: seq<AttachmentManifest>): (r: seq<CrashAttachment>)
    requires AllThere(files, manifests)
    ensures |r| == |manifests|
    ensures forall i :: 0 <= i < |r| ==>
              r[i] == CrashAttachment(manifests[i].key, manifests[i].contentType, files[manifests[i].filename.value])
  {
    seq(|manifests|, i requires 0 <= i < |manifests| =>
      CrashAttachment(manifests[i].key, manifests[i].contentType, files[manifests[i].filename.value]))
  }

  lemma {:induction false} ReadsAll(files: Files, manifests: seq<AttachmentManifest>)
    requires AllThere(files, manifests)
    ensures ReadAttachments(files, manifests) == Some(Got(files, manifests))
  {
    if manifests != [] {
      ReadsAll(files, manifests[1..]);
      assert Got(files, manifests) == [Got(files, manifests)[0]] + Got(files, manifests[1..]);
    }
  }

  lemma {:induction false} ReadsNoneMissing(files: Files, manifests: seq<AttachmentManifest>, i: nat)
    requires i < |manifests| && manifests[i].filename.Some? && manifests[i].filename.value !in files
    ensures ReadAttachments(files, manifests).None?
  {
    if i > 0 {
      ReadsNoneMissing(files, manifests[1..], i - 1);
    }
  }

  // ------------------------------------------------------------ half-written entries

  predicate Reserved(name: string) {
    name == "metadata.json" || name == "dump.bin" || name == "sdk-config.json"
  }

  /** Context file names that are distinct and clash with none of the hook's own files. */
  predicate Usable(names: seq<string>) {
    && (forall i, j :: 0 <= i < j < |names| ==> names[i] != names[j])
    && (forall i :: 0 <= i < |names| ==> !Reserved(names[i]))
  }

  ghost predicate DistinctNames(writes: seq<Write>) {
    forall i, j :: 0 <= i < j < |writes| ==> writes[i].name != writes[j].name
  }

  /** No given name is `name`. */
  ghost predicate NotGiven(contexts: seq<ContextFile>, name: string) {
    forall i :: 0 <= i < |contexts| ==> contexts[i].name != Some(name)
  }

  /** Given names that differ from each other, from the hook's own files, and from
      the names that context files without one get. */
  ghost predicate GivenApart(contexts: seq<ContextFile>) {
    && (forall i, j :: 0 <= i < j < |contexts| && contexts[i].name.Some? ==> contexts[i].name != contexts[j].name)
    && NotGiven(contexts, "metadata.json") && NotGiven(contexts, "dump.bin") && NotGiven(contexts, "sdk-config.json")
    && forall i :: 0 <= i < |contexts| && contexts[i].name.None? ==>
         NotGiven(contexts, "context-" + Decimal(i) + ".json")
  }

  lemma FallbacksApart(i: nat, j: nat)
    requires "context-" + Decimal(i) + ".json" == "context-" + Decimal(j) + ".json"
    ensures i == j
  {
    var s, t := "context-" + Decimal(i) + ".json", "context-" + Decimal(j) + ".json";
    assert Decimal(i) == s[8..|s| - 5] && Decimal(j) == t[8..|t| - 5];
    DecimalInjective(i, j);
  }

  lemma FallbackFree(i: nat)
    ensures !Reserved("context-" + Decimal(i) + ".json")
  {
    var s := "context-" + Decimal(i) + ".json";
    assert s[0] == 'c' && "metadata.json"[0] == 'm' && "dump.bin"[0] == 'd' && "sdk-config.json"[0] == 's';
  }

  /** Which configurations of context files the hook can keep apart. */
  lemma UsableExactlyWhen(contexts: seq<ContextFile>, names: seq<string>, contents: seq<Bytes>)
    requires Describes(contexts, names, contents)
    ensures Usable(names) <==> GivenApart(contexts)
  {
    if GivenApart(contexts) {
      forall i, j | 0 <= i < j < |names| ensures names[i] != names[j] {
        if contexts[i].name.None? && contexts[j].name.None? && names[i] == names[j] {
          FallbacksApart(i, j);
        }
      }
      forall i | 0 <= i < |names| ensures !Reserved(names[i]) {
        FallbackFree(i);
      }
    }
    if Usable(names) {
      forall i, j | 0 <= i < |contexts| && 0 <= j < |contexts| && contexts[i].name.None?
        ensures contexts[j].name != Some("context-" + Decimal(i) + ".json")
      {
        assert i != j ==> names[i] != names[j];
      }
    }
  }

  lemma UsableWritesDistinct(json: Json, crash: Crash, names: seq<string>, contents: seq<Bytes>)
    requires |names| == |contents| && Usable(names)
    ensures DistinctNames(Writes(json, crash, names, contents))
  {
    var n, writes := |names|, Writes(json, crash, names, contents);
    assert forall i :: 0 <= i < n ==> writes[i].name == names[i];
    assert writes[n].name == "metadata.json" && writes[n + 1].name == "dump.bin"
           && writes[n + 2].name == "sdk-config.json";
  }

  lemma PrefixHas(writes: seq<Write>, k: nat, i: nat)
    requires DistinctNames(writes) && i < |writes| && k <= |writes|
    ensures writes[i].name in Written(writes[..k]) <==> i < k
    ensures i < k ==> Written(writes[..k])[writes[i].name] == writes[i].bytes
  {
    WrittenNames(writes[..k], writes[i].name);
    if i < k {
      LastWriteWins(writes[..k], i);
    }
  }

  /** The envelope read from files that hold what the metadata lists. */
  lemma ReadsListed(json: Json, crash: Crash, names: seq<string>, contents: seq<Bytes>, files: Files)
    requires JsonRoundTrips(json) && |names| == |contents|
    requires "metadata.json" in files && files["metadata.json"] == json.encode(Metadata(crash, names, contents))
    requires "dump.bin" in files && files["dump.bin"] == crash.dump
    requires AllThere(files, Metadata(crash, names, contents).attachments)
    ensures var metadata := Metadata(crash, names, contents);
            ReadEnvelope(json, files) == Some(CrashEnvelope(metadata, crash.dump, Got(files, metadata.attachments)))
  {
    ReadsAll(files, Metadata(crash, names, contents).attachments);
  }

  lemma GotEach(files: Files, a: seq<AttachmentManifest>, b: seq<AttachmentManifest>)
    requires AllThere(files, a) && AllThere(files, b)
    ensures AllThere(files, a + b) && Got(files, a + b) == Got(files, a) + Got(files, b)
  {
  }

  lemma GotContexts(files: Files, names: seq<string>, contents: seq<Bytes>)
    requires |names| == |contents| && forall i :: 0 <= i < |names| ==> names[i] in files
    ensures AllThere(files, Manifests(names, contents))
    ensures Got(files, Manifests(names, contents)) == ContextAttachments(contents) <==>
            forall i :: 0 <= i < |names| ==> files[names[i]] == contents[i]
  {
    var manifests := Manifests(names, contents);
    var got, want := Got(files, manifests), ContextAttachments(contents);
    if got == want {
      forall i | 0 <= i < |names| ensures files[names[i]] == contents[i] {
        assert got[i] == want[i];
      }
    }
  }

  lemma SamePrefix<T>(a: seq<T>, b: seq<T>, c: seq<T>)
    ensures a + b == a + c <==> b == c
  {
    if a + b == a + c {
      assert b == (a + b)[|a|..] == (a + c)[|a|..] == c;
    }
  }

  lemma ListedIsComplete(crash: Crash, names: seq<string>, contents: seq<Bytes>, files: Files)
    requires |names| == |contents|
    requires crash.inManifest ==> "sdk-config.json" in files && files["sdk-config.json"] == crash.config
    requires forall i :: 0 <= i < |names| ==> names[i] in files
    ensures var manifests := SdkManifest(crash) + Manifests(names, contents);
            && AllThere(files, manifests)
            && (Got(files, manifests) == Complete(crash, names, contents).attachments <==>
                forall i :: 0 <= i < |names| ==> files[names[i]] == contents[i])
  {
    GotContexts(files, names, contents);
    GotEach(files, SdkManifest(crash), Manifests(names, contents));
    assert Got(files, SdkManifest(crash)) == SdkAttachment(crash);
    SamePrefix(SdkAttachment(crash), Got(files, Manifests(names, contents)), ContextAttachments(contents));
  }

  ghost predicate ConsistentAt(json: Json, crash: Crash, names: seq<string>, contents: seq<Bytes>, k: nat)
    requires |names| == |contents| && k <= |names| + 3
  {
    var r := ReadEnvelope(json, Written(Writes(json, crash, names, contents)[..k]));
    r.None? || r.value == Complete(crash, names, contents)
  }

  /** How many writes it takes until the entry reads: all of them for the panic
      hook, all but the last for the minidump handler. */
  function Needed(crash: Crash, names: seq<string>): nat {
    if crash.inManifest then |names| + 3 else |names| + 2
  }

  lemma TooEarly(json: Json, crash: Crash, names: seq<string>, contents: seq<Bytes>, k: nat)
    requires JsonRoundTrips(json) && |names| == |contents| && Usable(names) && k < Needed(crash, names)
    ensures ReadEnvelope(json, Written(Writes(json, crash, names, contents)[..k])).None?
  {
    var n, writes := |names|, Writes(json, crash, names, contents);
    var metadata := Metadata(crash, names, contents);
    UsableWritesDistinct(json, crash, names, contents);
    PrefixHas(writes, k, n);
    PrefixHas(writes, k, n + 1);
    PrefixHas(writes, k, n + 2);
    if k == n + 2 {
      ReadsNoneMissing(Written(writes[..k]), metadata.attachments, 0);
    }
  }

  lemma InTime(json: Json, crash: Crash, names: seq<string>, contents: seq<Bytes>, k: nat)
    requires JsonRoundTrips(json) && |names| == |contents| && Usable(names) && Needed(crash, names) <= k <= |names| + 3
    ensures ReadEnvelope(json, Written(Writes(json, crash, names, contents)[..k])) ==
            Some(Complete(crash, names, contents))
  {
    var n, writes := |names|, Writes(json, crash, names, contents);
    var files := Written(writes[..k]);
    UsableWritesDistinct(json, crash, names, contents);
    PrefixHas(writes, k, n);
    PrefixHas(writes, k, n + 1);
    PrefixHas(writes, k, n + 2);
    forall i | 0 <= i < n ensures names[i] in files && files[names[i]] == contents[i] {
      PrefixHas(writes, k, i);
    }
    ListedIsComplete(crash, names, contents, files);
    ReadsListed(json, crash, names, contents, files);
  }

  /** Crash consistency: after every prefix of the writes, reading the entry fails
      or gives the complete envelope, and which of the two depends only on how far the hook got. */
  lemma CrashConsistent(json: Json, crash: Crash, names: seq<string>, contents: seq<Bytes>, k: nat)
    requires JsonRoundTrips(json) && |names| == |contents| && Usable(names) && k <= |names| + 3
    ensures ReadEnvelope(json, Written(Writes(json, crash, names, contents)[..k])) ==
            if k < Needed(crash, names) then None else Some(Complete(crash, names, contents))
  {
    if k < Needed(crash, names) {
      TooEarly(json, crash, names, contents, k);
    } else {
      InTime(json, crash, names, contents, k);
    }
  }

  /** With all writes done, whatever the names, the entry reads, and it reads
      complete exactly when no context file was written over. */
  lemma FinalRead(json: Json, crash: Crash, names: seq<string>, contents: seq<Bytes>)
    requires JsonRoundTrips(json) && |names| == |contents|
    ensures var files := Written(Writes(json, crash, names, contents));
            && "metadata.json" in files && files["metadata.json"] == json.encode(Metadata(crash, names, contents))
            && "dump.bin" in files && files["dump.bin"] == crash.dump
            && "sdk-config.json" in files && files["sdk-config.json"] == crash.config
            && (forall i :: 0 <= i < |names| ==> names[i] in files)
            && (ConsistentAt(json, crash, names, contents, |names| + 3) <==>
                forall i :: 0 <= i < |names| ==> files[names[i]] == contents[i])
  {
    var n, writes := |names|, Writes(json, crash, names, contents);
    assert writes[n].name == "metadata.json" && writes[n + 1].name == "dump.bin"
           && writes[n + 2].name == "sdk-config.json";
    LastWriteWins(writes, n);
    LastWriteWins(writes, n + 1);
    LastWriteWins(writes, n + 2);
    var files := Written(writes);
    forall i | 0 <= i < n ensures names[i] in files {
      assert writes[i].name == names[i];
      WrittenNames(writes, names[i]);
    }
    ListedIsComplete(crash, names, contents, files);
    ReadsListed(json, crash, names, contents, files);
    assert writes[..n + 3] == writes;
  }

  lemma RepeatedNameBreaks(json: Json, crash: Crash, names: seq<string>, contents: seq<Bytes>, i: nat, j: nat)
    requires JsonRoundTrips(json) && |names| == |contents|
    requires i < j < |names| && names[i] == names[j] && contents[i] != contents[j]
    ensures !ConsistentAt(json, crash, names, contents, |names| + 3)
  {
    FinalRead(json, crash, names, contents);
  }

  lemma ReservedNameBreaks(json: Json, crash: Crash, names: seq<string>, contents: seq<Bytes>, i: nat)
    requires JsonRoundTrips(json) && |names| == |contents| && i < |names|
    requires || (names[i] == "metadata.json" && contents[i] != json.encode(Metadata(crash, names, contents)))
             || (names[i] == "dump.bin" && contents[i] != crash.dump)
             || (names[i] == "sdk-config.json" && contents[i] != crash.config)
    ensures !ConsistentAt(json, crash, names, contents, |names| + 3)
  {
    FinalRead(json, crash, names, contents);
  }

  function Uniform(n: nat, bytes: Bytes): (r: seq<Bytes>)
    ensures |r| == n && forall i :: 0 <= i < n ==> r[i] == bytes
  {
    seq(n, _ => bytes)
  }

  lemma UniformMetadata(crash: Crash, names: seq<string>)
    ensures Metadata(crash, names, Uniform(|names|, "a")) == Metadata(crash, names, Uniform(|names|, "b"))
  {
    assert Manifests(names, Uniform(|names|, "a")) == Manifests(names, Uniform(|names|, "b"));
  }

  lemma UnusableBreaks(json: Json, crash: Crash, names: seq<string>) returns (crash': Crash, contents: seq<Bytes>)
    requires JsonRoundTrips(json) && !Usable(names)
    ensures crash' == crash.(dump := crash'.dump, config := crash'.config) && |contents| == |names|
    ensures !ConsistentAt(json, crash', names, contents, |names| + 3)
  {
    crash', contents := crash.(dump := "b", config := "b"), Uniform(|names|, "a");
    if i, j :| 0 <= i < j < |names| && names[i] == names[j] {
      contents := contents[i := "b"];
      RepeatedNameBreaks(json, crash', names, contents, i, j);
    } else {
      var i :| 0 <= i < |names| && Reserved(names[i]);
      if names[i] == "metadata.json" && json.encode(Metadata(crash', names, contents)) == "a" {
        UniformMetadata(crash', names);
        contents := Uniform(|names|, "b");
      }
      ReservedNameBreaks(json, crash', names, contents, i);
    }
  }

  /** Consistent at every moment, whatever the context files, the dump and the configuration contain. */
  ghost predicate AlwaysConsistent(json: Json, crash: Crash, names: seq<string>) {
    forall contents: seq<Bytes>, dump, config, k: nat ::
      |contents| == |names| && k <= |names| + 3 ==>
        ConsistentAt(json, crash.(dump := dump, config := config), names, contents, k)
  }

  /** The names decide it: distinct and unreserved names make every half-written
      entry unreadable or complete, and any other names do not. */
  lemma ConsistentExactlyWhen(json: Json, crash: Crash, names: seq<string>)
    requires JsonRoundTrips(json)
    ensures AlwaysConsistent(json, crash, names) <==> Usable(names)
  {
    if Usable(names) {
      forall contents: seq<Bytes>, dump, config, k: nat | |contents| == |names| && k <= |names| + 3
        ensures ConsistentAt(json, crash.(dump := dump, config := config), names, contents, k)
      {
        CrashConsistent(json, crash.(dump := dump, config := config), names, contents, k);
      }
    } else {
      var crash', contents := UnusableBreaks(json, crash, names);
      assert crash' == crash.(dump := crash'.dump, config := crash'.config);
    }
  }

  // ------------------------------------------------------------ attachment keys

  lemma KeysDistinct(i: nat, j: nat)
    requires Key(i) == Key(j)
    ensures i == j
  {
    assert Key(i)[8..] == Decimal(i) && Key(j)[8..] == Decimal(j);
    DecimalInjective(i, j);
  }

  /** The manifest of a complete entry lists its attachments in order, all of them
      JSON. Their lengths are right exactly when the length listed for the stored
      configuration is; the hook lists that of another layout of the same JSON. */
  lemma ManifestExactlyWhen(crash: Crash, names: seq<string>, contents: seq<Bytes>)
    requires |names| == |contents|
    ensures var e := Complete(crash, names, contents);
            var listed, kept := e.metadata.attachments, e.attachments;
            && |listed| == |kept| == |names| + (if crash.inManifest then 1 else 0)
            && (forall i :: 0 <= i < |kept| ==>
                  listed[i].key == kept[i].key && listed[i].contentType == kept[i].contentType == "application/json")
            && ((forall i :: 0 <= i < |kept| ==> listed[i].len == |kept[i].bytes|) <==>
                (crash.inManifest ==> crash.configLen == |crash.config|))
  {
    var e := Complete(crash, names, contents);
    var listed, kept := e.metadata.attachments, e.attachments;
    var m := if crash.inManifest then 1 else 0;
    forall i | m <= i < |kept|
      ensures listed[i] == Manifest(i - m, names[i - m], contents[i - m])
      ensures kept[i] == CrashAttachment(Key(i - m), "application/json", contents[i - m])
    {
    }
    if crash.inManifest {
      assert listed[0] == SdkManifest(crash)[0] && kept[0] == SdkAttachment(crash)[0];
    }
  }

  /** The hook never uses a key twice. */
  lemma HookKeysDistinct(crash: Crash, names: seq<string>, contents: seq<Bytes>)
    requires |names| == |contents|
    ensures DistinctKeys(Complete(crash, names, contents).attachments)
  {
    var attachments := Complete(crash, names, contents).attachments;
    var m := if crash.inManifest then 1 else 0;
    assert forall i :: m <= i < |attachments| ==> attachments[i].key == Key(i - m);
    forall i, j | 0 <= i < j < |attachments| ensures attachments[i].key != attachments[j].key {
      if i < m {
        assert attachments[i].key[0] == 's' && attachments[j].key[0] == 'c';
      } else if attachments[i].key == attachments[j].key {
        KeysDistinct(i - m, j - m);
      }
    }
  }

  /** Every complete entry the hook leaves behind is uploaded so that a receiver
      that decodes by header gets its dump and every attachment back. */
  lemma HookEntriesFaithful(zstd: Zstd, should: string -> bool, crash: Crash, names: seq<string>, contents: seq<Bytes>,
                            local: CrashEnvelope, encodings: M.Encodings)
    requires |names| == |contents| && Lossless(zstd)
    requires Prepared(zstd, should, Complete(crash, names, contents), local, encodings)
    ensures Compression.Decoded(zstd, encodings.dump, local.dump) == Some(crash.dump)
    ensures Faithful(zstd, Complete(crash, names, contents).attachments, local.attachments, encodings.attachments)
  {
    HookKeysDistinct(crash, names, contents);
    DistinctKeysFaithful(zstd, should, Complete(crash, names, contents), local, encodings);
  }

  lemma {:induction false} DecimalDigits(n: nat, c: char)
    requires c in Decimal(n)
    ensures '0' <= c <= '9'
  {
    if n >= 10 && c != Digit(n % 10) {
      assert c in Decimal(n / 10);
      DecimalDigits(n / 10, c);
    }
  }

  predicate Plain(s: string) { '\r' !in s && '\n' !in s && '"' !in s }

  lemma KeyPlain(i: nat)
    ensures Plain(Key(i))
  {
    forall c | c in Key(i) ensures c != '\r' && c != '\n' && c != '"' {
      if c in Decimal(i) {
        DecimalDigits(i, c);
      }
    }
  }

  ghost predicate PlainAttachment(a: CrashAttachment) { Plain(a.key) && Plain(a.contentType) }

  lemma ContextPlain(contents: seq<Bytes>, i: nat)
    requires i < |contents|
    ensures PlainAttachment(ContextAttachments(contents)[i])
  {
    KeyPlain(i);
    TypePlain();
  }

  lemma SdkPlain(crash: Crash, i: nat)
    requires i < |SdkAttachment(crash)|
    ensures PlainAttachment(SdkAttachment(crash)[i])
  {
    SdkKeyPlain();
    TypePlain();
  }

  lemma SdkKeyPlain()
    ensures Plain("sdk-config")
  {
  }

  lemma TypePlain()
    ensures Plain("application/json")
  {
  }

  /** The hook's keys and media types can be printed as they are. */
  lemma HookKeysPlain(crash: Crash, names: seq<string>, contents: seq<Bytes>, i: nat, all: seq<CrashAttachment>)
    requires |names| == |contents| && all == Complete(crash, names, contents).attachments && i < |all|
    ensures PlainAttachment(all[i])
  {
    var sdk, contexts := SdkAttachment(crash), ContextAttachments(contents);
    assert all == sdk + contexts;
    if i < |sdk| {
      SdkPlain(crash, i);
      assert all[i] == sdk[i];
    } else {
      ContextPlain(contents, i - |sdk|);
      assert all[i] == contexts[i - |sdk|];
    }
  }
}

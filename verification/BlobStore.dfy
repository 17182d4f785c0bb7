/**
 The content-addressed crash store as a concurrent protocol: any number of
 uploads and one retention janitor share the `by-hash` and `by-source` trees.
 Every file operation is one atomic event. Directory listings are not atomic:
 an entry present from the first to the last read is returned, an entry created
 or removed meanwhile may or may not be.

 SHA-256 is the function `env.sha`; nothing is assumed about it unless a lemma
 says so.
 */
module BlobStore {
  import opened Wrappers
  import opened Storage
  import opened Protocol

  type Hash = string

  datatype Env = Env(sha: Bytes -> Hash, ttlDays: nat)

  // ---------------------------------------------------------------- state

  /** What a part says about itself besides its bytes. */
  datatype Tag =
    | DumpTag(encoding: Option<Bytes>)
    | AttachmentTag(key: string, contentType: string, encoding: Option<Bytes>)

  datatype Part = Part(tag: Tag, bytes: Bytes) {
    predicate IsDump() { tag.DumpTag? }
  }

  /** One crash upload: its metadata, and the remaining parts in stream order. */
  datatype Request = Request(metadata: CrashMetadata, parts: seq<Part>)

  datatype Pointer = Pointer(tag: Tag, sha256: Hash, len: nat, dedup: bool)

  datatype CrashIndex = CrashIndex(metadata: CrashMetadata, dump: Pointer, attachments: seq<Pointer>)

  /** An index file; `body` is `None` when the bytes do not parse. */
  datatype IndexFile = IndexFile(mtime: int, body: Option<CrashIndex>)

  /** Where an upload stands with part number `|pointers|`: not yet spooled,
      spooled and hashed into a private temp file, or checked and found absent. */
  datatype Progress = Ready | Staged | Absent

  datatype Upload = Upload(request: Request, pointers: seq<Pointer>, progress: Progress)

  datatype Walk = Next | Unlink(path: Path) | Read(path: Path)

  /** Phases of `run_janitor_cycle`. `open` is what a listing found in place
      when it began, `seen` what it has returned so far. */
  datatype Janitor =
    | Idle
    | Snapshotting(open: set<Hash>, seen: set<Hash>)
    | Pruning(snapshot: set<Hash>)
    | Listing(snapshot: set<Hash>, openPaths: set<Path>, seenPaths: set<Path>)
    | Walking(snapshot: set<Hash>, todo: set<Path>, walk: Walk, referenced: set<Hash>)
    | Sweeping(snapshot: set<Hash>, referenced: set<Hash>, left: set<Hash>)

  datatype State = State(
    now: int,
    blobs: map<Hash, Bytes>,
    indexes: map<Path, IndexFile>,
    uploads: map<nat, Upload>,
    janitor: Janitor)

  // --------------------------------------------------------------- events

  datatype Event =
    | Tick(now: int)
    | Begin(u: nat, request: Request)
    | Stage(u: nat)
    | Exists(u: nat, h: Hash)      // try_exists: yes
    | Missing(u: nat, h: Hash)     // try_exists: no
    | Linked(u: nat, h: Hash)      // hard_link succeeded
    | Collided(u: nat, h: Hash)    // hard_link: AlreadyExists
    | Index(u: nat, path: Path)    // write_index
    | Abort(u: nat)                // any error, or the connection is lost
    | OpenBlobs | SeeBlob(h: Hash) | CloseBlobs
    | OpenIndexes | SeeIndex(path: Path) | CloseIndexes
    | Old(path: Path) | Fresh(path: Path)      // is_older_than
    | Unlinked(path: Path)                     // an expired index is removed
    | Collected(path: Path)                    // a kept index is read
    | CloseWalk
    | Spare(h: Hash)               // sweep: referenced
    | Remove(h: Hash)              // sweep: removed
    | Gone(h: Hash)                // sweep: NotFound
    | Finish
    | Fails                        // the cycle ends with an error or with the process

  predicate JanitorEvent(e: Event) {
    !(e.Tick? || e.Begin? || e.Stage? || e.Exists? || e.Missing? || e.Linked? || e.Collided?
      || e.Index? || e.Abort?)
  }

  predicate OneDump(parts: seq<Part>) {
    exists k :: 0 <= k < |parts| && DumpAt(parts, k)
  }

  predicate DumpAt(parts: seq<Part>, k: nat)
    requires k < |parts|
  {
    forall i :: 0 <= i < |parts| ==> (parts[i].IsDump() <==> i == k)
  }

  /** The only position of a dump. */
  function DumpIndex(parts: seq<Part>): (k: nat)
    requires OneDump(parts)
    ensures k < |parts| && DumpAt(parts, k)
  {
    assert forall i, j | 0 <= i < |parts| && 0 <= j < |parts| && DumpAt(parts, i) && DumpAt(parts, j) ::
        parts[i].IsDump() && i == j;
    var k :| 0 <= k < |parts| && DumpAt(parts, k);
    k
  }

  /** What belongs to the dump, and what belongs to the attachments, in stream order. */
  function Arranged<T>(parts: seq<Part>, xs: seq<T>): (T, seq<T>)
    requires OneDump(parts) && |xs| == |parts|
  {
    var k := DumpIndex(parts);
    (xs[k], xs[..k] + xs[k + 1..])
  }

  function MakeIndex(request: Request, pointers: seq<Pointer>): CrashIndex
    requires OneDump(request.parts) && |pointers| == |request.parts|
  {
    var (dump, attachments) := Arranged(request.parts, pointers);
    CrashIndex(request.metadata, dump, attachments)
  }

  function Refs(index: CrashIndex): set<Hash> {
    {index.dump.sha256} + set a | a in index.attachments :: a.sha256
  }

  function Hashes(pointers: seq<Pointer>): set<Hash> {
    set p | p in pointers :: p.sha256
  }

  predicate Busy(s: State, u: nat, progress: Progress) {
    u in s.uploads && s.uploads[u].progress == progress
    && |s.uploads[u].pointers| < |s.uploads[u].request.parts|
  }

  /** The part upload `u` is working on. */
  function Current(s: State, u: nat): Part
    requires u in s.uploads && |s.uploads[u].pointers| < |s.uploads[u].request.parts|
  {
    s.uploads[u].request.parts[|s.uploads[u].pointers|]
  }

  predicate Complete(s: State, u: nat) {
    u in s.uploads && s.uploads[u].progress.Ready?
    && |s.uploads[u].pointers| == |s.uploads[u].request.parts| && OneDump(s.uploads[u].request.parts)
  }

  function PathOf(s: State, u: nat): Path
    requires Complete(s, u)
  {
    var up := s.uploads[u];
    IndexPath(up.request.metadata.source, up.request.metadata.timestamp, MakeIndex(up.request, up.pointers).dump.sha256)
  }

  predicate Expired(env: Env, mtime: int, now: int) {
    env.ttlDays == 0 || mtime <= now - env.ttlDays * 86400
  }

  predicate Enabled(env: Env, s: State, e: Event) {
    match e
    case Tick(now) => s.now <= now
    case Begin(u, _) => u !in s.uploads
    case Stage(u) => Busy(s, u, Ready)
    case Exists(u, h) => Busy(s, u, Staged) && h == env.sha(Current(s, u).bytes) && h in s.blobs
    case Missing(u, h) => Busy(s, u, Staged) && h == env.sha(Current(s, u).bytes) && h !in s.blobs
    case Linked(u, h) => Busy(s, u, Absent) && h == env.sha(Current(s, u).bytes) && h !in s.blobs
    case Collided(u, h) => Busy(s, u, Absent) && h == env.sha(Current(s, u).bytes) && h in s.blobs
    case Index(u, p) => Complete(s, u) && p == PathOf(s, u)
    case Abort(u) => u in s.uploads
    case OpenBlobs => s.janitor.Idle?
    case SeeBlob(h) => s.janitor.Snapshotting? && h in s.blobs
    case CloseBlobs => s.janitor.Snapshotting? && s.janitor.open * s.blobs.Keys <= s.janitor.seen
    case OpenIndexes => s.janitor.Pruning?
    case SeeIndex(p) => s.janitor.Listing? && p in s.indexes
    case CloseIndexes => s.janitor.Listing? && s.janitor.openPaths * s.indexes.Keys <= s.janitor.seenPaths
    case Old(p) => AtIndex(s, p) && Expired(env, s.indexes[p].mtime, s.now)
    case Fresh(p) => AtIndex(s, p) && !Expired(env, s.indexes[p].mtime, s.now)
    case Unlinked(p) => s.janitor.Walking? && s.janitor.walk == Unlink(p) && p in s.indexes
    case Collected(p) => s.janitor.Walking? && s.janitor.walk == Read(p) && p in s.indexes
    case CloseWalk => s.janitor.Walking? && s.janitor.walk.Next? && s.janitor.todo == {}
    case Spare(h) => s.janitor.Sweeping? && h in s.janitor.left && h in s.janitor.referenced
    case Remove(h) => Condemned(s, h) && h in s.blobs
    case Gone(h) => Condemned(s, h) && h !in s.blobs
    case Finish => s.janitor.Sweeping? && s.janitor.left == {}
    case Fails => !s.janitor.Idle?
  }

  predicate AtIndex(s: State, p: Path) {
    s.janitor.Walking? && s.janitor.walk.Next? && p in s.janitor.todo && p in s.indexes
  }

  predicate Condemned(s: State, h: Hash) {
    s.janitor.Sweeping? && h in s.janitor.left && h !in s.janitor.referenced
  }

  function PointerTo(env: Env, part: Part, dedup: bool): Pointer {
    Pointer(part.tag, env.sha(part.bytes), |part.bytes|, dedup)
  }

  /** Upload `u` obtains the pointer to its current part. */
  function Publish(env: Env, s: State, u: nat, dedup: bool): map<nat, Upload>
    requires u in s.uploads && |s.uploads[u].pointers| < |s.uploads[u].request.parts|
  {
    var up, part := s.uploads[u], Current(s, u);
    s.uploads[u := Upload(up.request, up.pointers + [PointerTo(env, part, dedup)], Ready)]
  }

  function Apply(env: Env, s: State, e: Event): State
    requires Enabled(env, s, e)
  {
    match e
    case Tick(now) => s.(now := now)
    case Begin(u, r) => s.(uploads := s.uploads[u := Upload(r, [], Ready)])
    case Stage(u) => s.(uploads := s.uploads[u := s.uploads[u].(progress := Staged)])
    case Exists(u, h) => s.(uploads := Publish(env, s, u, true))
    case Missing(u, h) => s.(uploads := s.uploads[u := s.uploads[u].(progress := Absent)])
    case Linked(u, h) => s.(blobs := s.blobs[h := Current(s, u).bytes], uploads := Publish(env, s, u, false))
    case Collided(u, h) => s.(uploads := Publish(env, s, u, true))
    case Index(u, p) =>
      var up := s.uploads[u];
      s.(indexes := s.indexes[p := IndexFile(s.now, Some(MakeIndex(up.request, up.pointers)))],
         uploads := s.uploads - {u})
    case Abort(u) => s.(uploads := s.uploads - {u})
    case OpenBlobs => s.(janitor := Snapshotting(s.blobs.Keys, {}))
    case SeeBlob(h) => s.(janitor := s.janitor.(seen := s.janitor.seen + {h}))
    case CloseBlobs => s.(janitor := Pruning(s.janitor.seen))
    case OpenIndexes => s.(janitor := Listing(s.janitor.snapshot, s.indexes.Keys, {}))
    case SeeIndex(p) => s.(janitor := s.janitor.(seenPaths := s.janitor.seenPaths + {p}))
    case CloseIndexes => s.(janitor := Walking(s.janitor.snapshot, s.janitor.seenPaths, Next, {}))
    case Old(p) => s.(janitor := s.janitor.(todo := s.janitor.todo - {p}, walk := Unlink(p)))
    case Fresh(p) => s.(janitor := s.janitor.(todo := s.janitor.todo - {p}, walk := Read(p)))
    case Unlinked(p) => s.(indexes := s.indexes - {p}, janitor := s.janitor.(walk := Next))
    case Collected(p) =>
      var found := if s.indexes[p].body.Some? then Refs(s.indexes[p].body.value) else {};
      s.(janitor := s.janitor.(walk := Next, referenced := s.janitor.referenced + found))
    case CloseWalk => s.(janitor := Sweeping(s.janitor.snapshot, s.janitor.referenced, s.janitor.snapshot))
    case Spare(h) => s.(janitor := s.janitor.(left := s.janitor.left - {h}))
    case Remove(h) => s.(blobs := s.blobs - {h}, janitor := s.janitor.(left := s.janitor.left - {h}))
    case Gone(h) => s.(janitor := s.janitor.(left := s.janitor.left - {h}))
    case Finish => s.(janitor := Idle)
    case Fails => s.(janitor := Idle)
  }

  /** The state after a sequence of events, or `None` if one was not enabled. */
  function Run(env: Env, s0: State, es: seq<Event>): Option<State> {
    if es == [] then Some(s0)
    else
      var n := |es| - 1;
      var s :- Run(env, s0, es[..n]);
      if Enabled(env, s, es[n]) then Some(Apply(env, s, es[n])) else None
  }

  // ------------------------------------------------------------- the ledger

  function Links(es: seq<Event>, h: Hash): nat {
    if es == [] then 0
    else
      var n := |es| - 1;
      Links(es[..n], h) + (if es[n].Linked? && es[n].h == h then 1 else 0)
  }

  function Removals(es: seq<Event>, h: Hash): nat {
    if es == [] then 0
    else
      var n := |es| - 1;
      Removals(es[..n], h) + (if es[n] == Remove(h) then 1 else 0)
  }

  /** The upload an event belongs to. */
  function Uploader(e: Event): Option<nat> {
    if JanitorEvent(e) || e.Tick? then None else Some(e.u)
  }

  /** The pointers upload `u` obtained between two states. */
  function Obtained(s: State, s': State, u: nat): seq<Pointer> {
    if u in s.uploads && u in s'.uploads && |s.uploads[u].pointers| <= |s'.uploads[u].pointers| then
      s'.uploads[u].pointers[|s.uploads[u].pointers|..]
    else
      []
  }

  function PointingTo(pointers: seq<Pointer>, h: Hash): seq<Pointer> {
    if pointers == [] then []
    else
      var n := |pointers| - 1;
      PointingTo(pointers[..n], h) + if pointers[n].sha256 == h then [pointers[n]] else []
  }

  /** What one event issues of `h`. */
  function IssuedBy(s: State, e: Event, s': State, h: Hash): seq<Pointer> {
    if Uploader(e).None? then [] else PointingTo(Obtained(s, s', Uploader(e).value), h)
  }

  /** All the pointers to `h` that uploads obtained in the run, in order, whatever became of the uploads. */
  function Issued(env: Env, s0: State, es: seq<Event>, h: Hash): seq<Pointer>
    requires Run(env, s0, es).Some?
  {
    if es == [] then []
    else
      var n := |es| - 1;
      Issued(env, s0, es[..n], h) + IssuedBy(Run(env, s0, es[..n]).value, es[n], Run(env, s0, es).value, h)
  }

  function Presence(s: State, h: Hash): nat {
    if h in s.blobs then 1 else 0
  }

  /** How one event changes the blob directory. */
  lemma StepBlobs(env: Env, s: State, e: Event)
    requires Enabled(env, s, e)
    ensures e.Linked? ==>
              && e.h == env.sha(Current(s, e.u).bytes) && e.h !in s.blobs
              && Apply(env, s, e).blobs == s.blobs[e.h := Current(s, e.u).bytes]
    ensures e.Remove? ==> e.h in s.blobs && Apply(env, s, e).blobs == s.blobs - {e.h}
    ensures !e.Linked? && !e.Remove? ==> Apply(env, s, e).blobs == s.blobs
    ensures e.Exists? || e.Collided? ==> e.h in s.blobs
  {
  }

  lemma {:induction false} DedupLedger(env: Env, s0: State, es: seq<Event>, h: Hash)
    requires Run(env, s0, es).Some?
    ensures Presence(s0, h) + Links(es, h) == Removals(es, h) + Presence(Run(env, s0, es).value, h)
  {
    if es != [] {
      var n := |es| - 1;
      DedupLedger(env, s0, es[..n], h);
      StepBlobs(env, Run(env, s0, es[..n]).value, es[n]);
    }
  }

  ghost predicate ContentAddressed(env: Env, s: State) {
    forall h :: h in s.blobs ==> env.sha(s.blobs[h]) == h
  }

  lemma {:induction false} BlobsStayContentAddressed(env: Env, s0: State, es: seq<Event>)
    requires Run(env, s0, es).Some? && ContentAddressed(env, s0)
    ensures ContentAddressed(env, Run(env, s0, es).value)
  {
    if es != [] {
      var n := |es| - 1;
      BlobsStayContentAddressed(env, s0, es[..n]);
      StepBlobs(env, Run(env, s0, es[..n]).value, es[n]);
    }
  }

  /** A pointer describes the part at hand, and its flag says whether the blob was
      in place before the event; the blob is there after it. No event gives more
      than one pointer, takes one away, or touches another upload. */
  lemma FlagTellsPresence(env: Env, s: State, e: Event, u: nat)
    requires Enabled(env, s, e)
    ensures var s' := Apply(env, s, e);
            && (u in s.uploads && u in s'.uploads ==> s.uploads[u].pointers <= s'.uploads[u].pointers)
            && (u !in s.uploads && u in s'.uploads ==> s'.uploads[u].pointers == [])
            && |Obtained(s, s', u)| <= 1 && (Uploader(e) != Some(u) ==> Obtained(s, s', u) == [])
            && forall pointer :: pointer in Obtained(s, s', u) ==>
                 && |s.uploads[u].pointers| < |s.uploads[u].request.parts|
                 && pointer.tag == Current(s, u).tag && pointer.len == |Current(s, u).bytes|
                 && pointer.sha256 == env.sha(Current(s, u).bytes) && pointer.sha256 in s'.blobs
                 && (pointer.dedup <==> pointer.sha256 in s.blobs)
  {
  }

  lemma OnePointer(pointers: seq<Pointer>, h: Hash)
    requires |pointers| <= 1
    ensures PointingTo(pointers, h) == if pointers != [] && pointers[0].sha256 == h then pointers else []
  {
  }

  lemma StepFlag(env: Env, s: State, e: Event, s': State, h: Hash)
    requires Enabled(env, s, e) && s' == Apply(env, s, e)
    ensures var got := IssuedBy(s, e, s', h);
            |got| <= 1 && (got != [] ==> (got[0].dedup <==> h in s.blobs) && h in s'.blobs)
  {
    if Uploader(e).Some? {
      FlagTellsPresence(env, s, e, Uploader(e).value);
      OnePointer(Obtained(s, s', Uploader(e).value), h);
    }
  }

  /** A blob that was not there and appears was issued. */
  lemma NewIsIssued(env: Env, s: State, e: Event, s': State, h: Hash)
    requires Enabled(env, s, e) && s' == Apply(env, s, e) && h !in s.blobs && h in s'.blobs
    ensures IssuedBy(s, e, s', h) != []
  {
    StepBlobs(env, s, e);
    OnePointer(Obtained(s, s', e.u), h);
  }

  lemma StepIssued(env: Env, s: State, e: Event, s': State, h: Hash)
    requires Enabled(env, s, e) && s' == Apply(env, s, e) && e != Remove(h)
    ensures var got := IssuedBy(s, e, s', h);
            && |got| <= 1 && (got != [] ==> (got[0].dedup <==> h in s.blobs))
            && (h in s'.blobs <==> h in s.blobs || got != [])
  {
    StepFlag(env, s, e, s', h);
    StepBlobs(env, s, e);
    if h !in s.blobs && h in s'.blobs {
      NewIsIssued(env, s, e, s', h);
    }
  }

  /** All are marked as duplicates, but for the first of a blob that was not there. */
  predicate Flagged(pointers: seq<Pointer>, present: bool) {
    forall i :: 0 <= i < |pointers| ==> (pointers[i].dedup <==> present || i > 0)
  }

  lemma FlagsGrow(pointers: seq<Pointer>, got: seq<Pointer>, initially: bool, present: bool)
    requires Flagged(pointers, initially) && (present <==> initially || pointers != [])
    requires |got| <= 1 && (got != [] ==> (got[0].dedup <==> present))
    ensures Flagged(pointers + got, initially)
  {
  }

  /** However many concurrent uploads carry a new blob, exactly one of them is
      told `dedup = false`, the first one, as long as no sweep removes it; a blob
      that was there before is new for nobody. It is there if anyone was told of it. */
  lemma {:induction false} ExactlyOneUploadIsNew(env: Env, s0: State, es: seq<Event>, h: Hash)
    requires Run(env, s0, es).Some? && Removals(es, h) == 0
    ensures var pointers := Issued(env, s0, es, h);
            && (h in Run(env, s0, es).value.blobs <==> h in s0.blobs || pointers != [])
            && Flagged(pointers, h in s0.blobs)
  {
    if es != [] {
      var n := |es| - 1;
      ExactlyOneUploadIsNew(env, s0, es[..n], h);
      var s, s' := Run(env, s0, es[..n]).value, Run(env, s0, es).value;
      StepIssued(env, s, es[n], s', h);
      FlagsGrow(Issued(env, s0, es[..n], h), IssuedBy(s, es[n], s', h), h in s0.blobs, h in s.blobs);
    }
  }

  lemma {:induction false} InPointingTo(pointers: seq<Pointer>, pointer: Pointer)
    requires pointer in pointers
    ensures pointer in PointingTo(pointers, pointer.sha256)
  {
    var n := |pointers| - 1;
    if pointer != pointers[n] {
      InPointingTo(pointers[..n], pointer);
    }
  }

  /** The pointers an upload holds, and puts into its index, are those it was issued. */
  lemma {:induction false} HeldPointersAreIssued(env: Env, s0: State, es: seq<Event>, u: nat, pointer: Pointer)
    requires Run(env, s0, es).Some? && u !in s0.uploads
    requires u in Run(env, s0, es).value.uploads && pointer in Run(env, s0, es).value.uploads[u].pointers
    ensures pointer in Issued(env, s0, es, pointer.sha256)
  {
    if es != [] {
      var n := |es| - 1;
      var s, s' := Run(env, s0, es[..n]).value, Run(env, s0, es).value;
      FlagTellsPresence(env, s, es[n], u);
      if u in s.uploads && pointer in s.uploads[u].pointers {
        HeldPointersAreIssued(env, s0, es[..n], u, pointer);
      } else {
        assert s'.uploads[u].pointers == s.uploads[u].pointers + Obtained(s, s', u);
        InPointingTo(Obtained(s, s', u), pointer);
      }
    }
  }

  lemma IndexHoldsPointers(request: Request, pointers: seq<Pointer>, pointer: Pointer)
    requires OneDump(request.parts) && |pointers| == |request.parts|
    ensures var index := MakeIndex(request, pointers);
            pointer in pointers <==> pointer == index.dump || pointer in index.attachments
  {
    var k := DumpIndex(request.parts);
    assert pointers == pointers[..k] + [pointers[k]] + pointers[k + 1..];
  }

  /** So the flags in an index are those that the upload was told. */
  lemma IndexPointersAreIssued(env: Env, s0: State, es: seq<Event>, u: nat, pointer: Pointer)
    requires Run(env, s0, es).Some? && u !in s0.uploads && Complete(Run(env, s0, es).value, u)
    requires var up := Run(env, s0, es).value.uploads[u];
             var index := MakeIndex(up.request, up.pointers);
             pointer == index.dump || pointer in index.attachments
    ensures pointer in Issued(env, s0, es, pointer.sha256)
  {
    var up := Run(env, s0, es).value.uploads[u];
    IndexHoldsPointers(up.request, up.pointers, pointer);
    HeldPointersAreIssued(env, s0, es, u, pointer);
  }

  /** Upload number `u` does not begin in these events. */
  ghost predicate NeverBegins(es: seq<Event>, u: nat) {
    forall e :: e in es && e.Begin? ==> e.u != u
  }

  lemma StepOfNone(env: Env, s: State, e: Event, u: nat)
    requires Enabled(env, s, e) && u !in s.uploads && !(e.Begin? && e.u == u)
    ensures u !in Apply(env, s, e).uploads && Uploader(e) != Some(u)
  {
  }

  lemma {:induction false} NoneStaysNone(env: Env, s: State, es: seq<Event>, u: nat)
    requires Run(env, s, es).Some? && u !in s.uploads && NeverBegins(es, u)
    ensures u !in Run(env, s, es).value.uploads && forall e :: e in es ==> Uploader(e) != Some(u)
  {
    if es != [] {
      var n := |es| - 1;
      assert es[n] in es;
      NoneStaysNone(env, s, es[..n], u);
      StepOfNone(env, Run(env, s, es[..n]).value, es[n], u);
      assert es == es[..n] + [es[n]];
    }
  }

  /** An upload that is over, by an error or with its index written, does nothing more. */
  lemma EndedStaysEnded(env: Env, s: State, e: Event, s': State, es: seq<Event>, u: nat)
    requires Enabled(env, s, e) && (e == Abort(u) || (e.Index? && e.u == u)) && s' == Apply(env, s, e)
    requires Run(env, s', es).Some? && NeverBegins(es, u)
    ensures u !in Run(env, s', es).value.uploads && forall x :: x in es ==> Uploader(x) != Some(u)
  {
    NoneStaysNone(env, s', es, u);
  }

  // ----------------------------------------------------------- young indexes

  /** The walk has not found the index at `p` expired. */
  ghost predicate NotDoomed(s: State, p: Path) {
    s.janitor.Walking? ==> s.janitor.walk != Unlink(p)
  }

  lemma StepKeepsYoung(env: Env, s: State, e: Event, p: Path)
    requires Enabled(env, s, e) && !Rewrites(e, p) && p in s.indexes && NotDoomed(s, p)
    requires s.now - s.indexes[p].mtime < env.ttlDays * 24 * 60 * 60 && env.ttlDays > 0
    ensures var s' := Apply(env, s, e);
            s.now <= s'.now && p in s'.indexes && s'.indexes[p] == s.indexes[p] && NotDoomed(s', p)
  {
  }

  /** However uploads and cycles interleave, an index less than `ttlDays` days old
      is not removed. */
  lemma {:induction false} YoungIndexStays(env: Env, s0: State, es: seq<Event>, p: Path)
    requires Run(env, s0, es).Some? && p in s0.indexes && NotDoomed(s0, p) && env.ttlDays > 0
    requires forall e :: e in es ==> !Rewrites(e, p)
    requires Run(env, s0, es).value.now - s0.indexes[p].mtime < env.ttlDays * 24 * 60 * 60
    ensures var s := Run(env, s0, es).value;
            p in s.indexes && s.indexes[p] == s0.indexes[p] && NotDoomed(s, p)
  {
    if es != [] {
      var n := |es| - 1;
      assert es[n] in es;
      ClockForward(env, Run(env, s0, es[..n]).value, es[n]);
      YoungIndexStays(env, s0, es[..n], p);
      StepKeepsYoung(env, Run(env, s0, es[..n]).value, es[n], p);
    }
  }

  lemma ClockForward(env: Env, s: State, e: Event)
    requires Enabled(env, s, e)
    ensures s.now <= Apply(env, s, e).now
  {
  }

  // ------------------------------------------- settled indexes, any number of cycles

  /** What a running janitor already knows about an index it will not lose:
      the listing that feeds the walk cannot miss it, and once walked its
      references protect its blobs from the sweep. */
  ghost predicate Protected(s: State, p: Path, refs: set<Hash>) {
    match s.janitor
    case Idle => true
    case Snapshotting(_, _) => true
    case Pruning(_) => true
    case Listing(_, open, _) => p in open
    case Walking(_, todo, walk, referenced) =>
      p in todo || walk == Unlink(p) || walk == Read(p) || refs <= referenced
    case Sweeping(_, referenced, _) => refs <= referenced
  }

  /** As long as it is there, the index at `p` refers to `refs`, which are all in
      place, and the janitor will not lose it. */
  ghost predicate Settled(s: State, p: Path, refs: set<Hash>) {
    p in s.indexes ==>
      && s.indexes[p].body.Some? && Refs(s.indexes[p].body.value) == refs
      && refs <= s.blobs.Keys
      && Protected(s, p, refs)
  }

  predicate Rewrites(e: Event, p: Path) {
    e.Index? && e.path == p
  }

  /** The event does not write `p`, or writes the same digests over an index that is still there, as a retry does. */
  ghost predicate Retries(s: State, e: Event, p: Path, refs: set<Hash>) {
    Rewrites(e, p) && Complete(s, e.u) ==>
      p in s.indexes && Refs(MakeIndex(s.uploads[e.u].request, s.uploads[e.u].pointers)) == refs
  }

  ghost predicate OnlyRetries(env: Env, s0: State, es: seq<Event>, p: Path, refs: set<Hash>) {
    es == [] ||
    (var before := Run(env, s0, es[..|es| - 1]);
     && OnlyRetries(env, s0, es[..|es| - 1], p, refs)
     && (before.Some? ==> Retries(before.value, es[|es| - 1], p, refs)))
  }

  lemma StepKeepsSettled(env: Env, s: State, e: Event, p: Path, refs: set<Hash>)
    requires Enabled(env, s, e) && Settled(s, p, refs) && Retries(s, e, p, refs)
    ensures Settled(Apply(env, s, e), p, refs)
  {
  }

  /** Over any number of janitor cycles, interleaved with any uploads, an index
      that is complete before the listing of the indexes begins, or whenever no
      cycle runs, keeps every blob it refers to for as long as it is retained,
      also when the same crash is posted again. Cycles may end half-way. */
  lemma {:induction false} SettledIndexKeepsItsBlobs(env: Env, s0: State, es: seq<Event>, p: Path, refs: set<Hash>)
    requires Run(env, s0, es).Some? && Settled(s0, p, refs) && OnlyRetries(env, s0, es, p, refs)
    ensures Settled(Run(env, s0, es).value, p, refs)
  {
    if es != [] {
      var n := |es| - 1;
      SettledIndexKeepsItsBlobs(env, s0, es[..n], p, refs);
      StepKeepsSettled(env, Run(env, s0, es[..n]).value, es[n], p, refs);
    }
  }

  /** Before the listing opens there is nothing more to being settled than being complete. */
  lemma SettledBeforeListing(s: State, p: Path)
    requires s.janitor.Idle? || s.janitor.Snapshotting? || s.janitor.Pruning?
    requires p in s.indexes && s.indexes[p].body.Some? && Refs(s.indexes[p].body.value) <= s.blobs.Keys
    ensures Settled(s, p, Refs(s.indexes[p].body.value))
  {
  }

  // ----------------------------------------------- removing an index: test its age, then remove

  /** When the index at `p` was last written since the walk found it expired. */
  function LastRewrite(env: Env, s0: State, es: seq<Event>, p: Path): Option<int> {
    if es == [] then None
    else
      var n := |es| - 1;
      var before := Run(env, s0, es[..n]);
      if es[n] == Old(p) then None
      else if Rewrites(es[n], p) && before.Some? then Some(before.value.now)
      else LastRewrite(env, s0, es[..n], p)
  }

  ghost predicate Doomed(s: State, p: Path) {
    s.janitor.Walking? && s.janitor.walk == Unlink(p)
  }

  lemma StepKeepsDoomed(env: Env, s: State, e: Event, p: Path, rewritten: Option<int>)
    requires Enabled(env, s, e) && Doomed(Apply(env, s, e), p)
    requires Doomed(s, p) ==>
               p in s.indexes && if rewritten.Some? then s.indexes[p].mtime == rewritten.value
                                 else Expired(env, s.indexes[p].mtime, s.now)
    ensures var s' := Apply(env, s, e);
            var rewritten' := if e == Old(p) then None else if Rewrites(e, p) then Some(s.now) else rewritten;
            && p in s'.indexes
            && if rewritten'.Some? then s'.indexes[p].mtime == rewritten'.value
               else Expired(env, s'.indexes[p].mtime, s'.now)
  {
  }

  lemma {:induction false} DoomedFile(env: Env, s0: State, es: seq<Event>, p: Path)
    requires Run(env, s0, es).Some? && s0.janitor.Idle? && Doomed(Run(env, s0, es).value, p)
    ensures var s, rewritten := Run(env, s0, es).value, LastRewrite(env, s0, es, p);
            p in s.indexes && if rewritten.Some? then s.indexes[p].mtime == rewritten.value
                              else Expired(env, s.indexes[p].mtime, s.now)
  {
    var n := |es| - 1;
    var s := Run(env, s0, es[..n]).value;
    if Doomed(s, p) {
      DoomedFile(env, s0, es[..n], p);
    }
    StepKeepsDoomed(env, s, es[n], p, LastRewrite(env, s0, es[..n], p));
  }

  /** The file that is removed was expired at that moment if and only if nobody
      wrote it between the age test and the removal, or that write has expired by then too. */
  lemma RemovedExpiredExactlyWhen(env: Env, s0: State, es: seq<Event>, p: Path)
    requires Run(env, s0, es).Some? && s0.janitor.Idle?
    requires Enabled(env, Run(env, s0, es).value, Unlinked(p))
    ensures var s, rewritten := Run(env, s0, es).value, LastRewrite(env, s0, es, p);
            Expired(env, s.indexes[p].mtime, s.now) <==> rewritten.None? || Expired(env, rewritten.value, s.now)
  {
    DoomedFile(env, s0, es, p);
  }

  // ----------------------------------------------- one cycle, the exact condition

  /** `h` was linked and not removed again afterwards. */
  predicate LinkedSince(es: seq<Event>, h: Hash) {
    es != [] &&
    var n := |es| - 1;
    (es[n].Linked? && es[n].h == h) || (es[n] != Remove(h) && LinkedSince(es[..n], h))
  }

  lemma {:induction false} PresentIff(env: Env, s0: State, es: seq<Event>, h: Hash)
    requires Run(env, s0, es).Some?
    ensures h in Run(env, s0, es).value.blobs <==>
            LinkedSince(es, h) || (h in s0.blobs && Removals(es, h) == 0)
  {
    if es != [] {
      var n := |es| - 1;
      PresentIff(env, s0, es[..n], h);
      StepBlobs(env, Run(env, s0, es[..n]).value, es[n]);
    }
  }

  /** Every hash an index or an upload in flight points to. */
  ghost predicate PointedTo(s: State, h: Hash) {
    || (exists u :: u in s.uploads && h in Hashes(s.uploads[u].pointers))
    || (exists p :: p in s.indexes && s.indexes[p].body.Some? && h in Refs(s.indexes[p].body.value))
  }

  ghost predicate NothingDangling(s: State) {
    forall h :: PointedTo(s, h) ==> h in s.blobs
  }

  lemma MakeIndexRefs(request: Request, pointers: seq<Pointer>)
    requires OneDump(request.parts) && |pointers| == |request.parts|
    ensures Refs(MakeIndex(request, pointers)) == Hashes(pointers)
  {
    var k, index := DumpIndex(request.parts), MakeIndex(request, pointers);
    assert pointers == pointers[..k] + [pointers[k]] + pointers[k + 1..];
    forall p | p in pointers ensures p.sha256 in Refs(index) {
      assert p == index.dump || p in index.attachments;
    }
  }

  /** A step points to a new hash only when its blob is in place. */
  lemma StepPointsToPresent(env: Env, s: State, e: Event, h: Hash)
    requires Enabled(env, s, e) && PointedTo(Apply(env, s, e), h)
    ensures PointedTo(s, h) || h in Apply(env, s, e).blobs
  {
    var s' := Apply(env, s, e);
    if e.Index? {
      MakeIndexRefs(s.uploads[e.u].request, s.uploads[e.u].pointers);
    }
    if u :| u in s'.uploads && h in Hashes(s'.uploads[u].pointers) {
      if u in s.uploads && h !in Hashes(s.uploads[u].pointers) {
        assert e.Exists? || e.Linked? || e.Collided?;
      }
    }
  }

  lemma {:induction false} PointedToUnlessRemoved(env: Env, s0: State, es: seq<Event>, h: Hash)
    requires Run(env, s0, es).Some? && NothingDangling(s0)
    requires PointedTo(Run(env, s0, es).value, h)
    ensures h in Run(env, s0, es).value.blobs || Removals(es, h) > 0
  {
    if es != [] {
      var n := |es| - 1;
      var s := Run(env, s0, es[..n]).value;
      StepPointsToPresent(env, s, es[n], h);
      if PointedTo(s, h) {
        PointedToUnlessRemoved(env, s0, es[..n], h);
      }
    }
  }

  /** During one cycle only the sweep removes, and it removes exactly the
      snapshot blobs it has passed that the walk did not collect. */
  ghost predicate CycleInvariant(s: State, removed: bool, h: Hash) {
    match s.janitor
    case Idle => !removed
    case Snapshotting(_, seen) => (h in seen ==> h in s.blobs) && !removed
    case Pruning(snapshot) => (h in snapshot ==> h in s.blobs) && !removed
    case Listing(snapshot, _, _) => (h in snapshot ==> h in s.blobs) && !removed
    case Walking(snapshot, _, _, _) => (h in snapshot ==> h in s.blobs) && !removed
    case Sweeping(snapshot, referenced, left) =>
      && (h in left ==> h in snapshot && h in s.blobs)
      && (removed <==> h in snapshot && h !in referenced && h !in left)
  }

  lemma StepKeepsCycleInvariant(env: Env, s: State, e: Event, removed: bool, h: Hash)
    requires Enabled(env, s, e) && !e.Finish? && !e.Fails? && CycleInvariant(s, removed, h)
    ensures CycleInvariant(Apply(env, s, e), removed || e == Remove(h), h)
  {
  }

  /** No cycle ends in the run, so at most one is under way. */
  ghost predicate OneCycle(es: seq<Event>) { Finish !in es && Fails !in es }

  lemma {:induction false} CycleInvariantHolds(env: Env, s0: State, es: seq<Event>, h: Hash)
    requires Run(env, s0, es).Some? && s0.janitor.Idle? && OneCycle(es)
    ensures CycleInvariant(Run(env, s0, es).value, Removals(es, h) > 0, h)
  {
    if es != [] {
      var n := |es| - 1;
      CycleInvariantHolds(env, s0, es[..n], h);
      StepKeepsCycleInvariant(env, Run(env, s0, es[..n]).value, es[n], Removals(es[..n], h) > 0, h);
    }
  }

  predicate SweepDone(s: State) {
    s.janitor.Sweeping? && s.janitor.left == {}
  }

  /** A blob outside the snapshot, or referenced by an index the walk read, is
      never removed by the cycle. */
  lemma CycleRemovesOnlyUnreferencedSnapshot(env: Env, s0: State, es: seq<Event>, h: Hash)
    requires Run(env, s0, es).Some? && s0.janitor.Idle? && OneCycle(es) && Remove(h) in es
    ensures var s := Run(env, s0, es).value;
            s.janitor.Sweeping? && h in s.janitor.snapshot && h !in s.janitor.referenced
  {
    CycleInvariantHolds(env, s0, es, h);
    RemovalsPositive(es, h);
  }

  lemma {:induction false} RemovalsPositive(es: seq<Event>, h: Hash)
    requires Remove(h) in es
    ensures Removals(es, h) > 0
  {
    var n := |es| - 1;
    if es[n] != Remove(h) {
      assert Remove(h) in es[..n];
      RemovalsPositive(es[..n], h);
    }
  }

  /** What a cycle knows of a blob that nobody links meanwhile: if it is there, the
      snapshot cannot miss it, and the sweep has still to come to it. */
  ghost predicate InSight(s: State, h: Hash) {
    h in s.blobs ==>
      match s.janitor
      case Idle => true
      case Snapshotting(open, _) => h in open
      case Pruning(snapshot) => h in snapshot
      case Listing(snapshot, _, _) => h in snapshot
      case Walking(snapshot, _, _, _) => h in snapshot
      case Sweeping(_, referenced, left) => h in referenced || h in left
  }

  lemma StepKeepsInSight(env: Env, s: State, e: Event, h: Hash)
    requires Enabled(env, s, e) && !(e.Linked? && e.h == h) && InSight(s, h)
    ensures InSight(Apply(env, s, e), h)
  {
  }

  lemma {:induction false} StaysInSight(env: Env, s0: State, es: seq<Event>, h: Hash)
    requires Run(env, s0, es).Some? && s0.janitor.Idle? && Links(es, h) == 0
    ensures InSight(Run(env, s0, es).value, h)
  {
    if es != [] {
      var n := |es| - 1;
      StaysInSight(env, s0, es[..n], h);
      StepKeepsInSight(env, Run(env, s0, es[..n]).value, es[n], h);
    }
  }

  /** Event `i` of the run reads an index that names `h`. */
  ghost predicate ReadsNaming(env: Env, s0: State, es: seq<Event>, i: nat, h: Hash) {
    && i < |es| && es[i].Collected? && Run(env, s0, es[..i]).Some?
    && var indexes := Run(env, s0, es[..i]).value.indexes;
       && es[i].path in indexes && indexes[es[i].path].body.Some?
       && var index := indexes[es[i].path].body.value;
          h == index.dump.sha256 || exists a :: a in index.attachments && a.sha256 == h
  }

  function ReferencedSoFar(s: State): set<Hash> {
    if s.janitor.Walking? || s.janitor.Sweeping? then s.janitor.referenced else {}
  }

  lemma StepReferences(env: Env, s: State, e: Event, h: Hash)
    requires Enabled(env, s, e) && h in ReferencedSoFar(Apply(env, s, e)) && h !in ReferencedSoFar(s)
    ensures e.Collected? && e.path in s.indexes && s.indexes[e.path].body.Some?
    ensures h in Refs(s.indexes[e.path].body.value)
  {
  }

  lemma {:induction false} ReferencedWasRead(env: Env, s0: State, es: seq<Event>, h: Hash) returns (i: nat)
    requires Run(env, s0, es).Some? && s0.janitor.Idle? && h in ReferencedSoFar(Run(env, s0, es).value)
    ensures ReadsNaming(env, s0, es, i, h)
  {
    var n := |es| - 1;
    if h in ReferencedSoFar(Run(env, s0, es[..n]).value) {
      i := ReferencedWasRead(env, s0, es[..n], h);
      assert es[..n][..i] == es[..i];
    } else {
      i := n;
      StepReferences(env, Run(env, s0, es[..n]).value, es[n], h);
    }
  }

  /** Nothing unreferenced outlives a cycle: when it finishes, a blob that nobody
      linked meanwhile and that none of the indexes read by the walk names is gone. */
  lemma GarbageGoes(env: Env, s0: State, es: seq<Event>, h: Hash)
    requires Run(env, s0, es).Some? && s0.janitor.Idle? && Enabled(env, Run(env, s0, es).value, Finish)
    requires Links(es, h) == 0 && forall i: nat :: !ReadsNaming(env, s0, es, i, h)
    ensures h !in Apply(env, Run(env, s0, es).value, Finish).blobs
  {
    StaysInSight(env, s0, es, h);
    if h in ReferencedSoFar(Run(env, s0, es).value) {
      var i := ReferencedWasRead(env, s0, es, h);
    }
  }

  /** After one cycle run concurrently with any uploads, a retained index keeps
      the blob `h` it refers to if and only if `h` escaped the snapshot, or was
      collected by the walk, or was linked again after the sweep removed it. */
  lemma IndexResolvesExactlyWhen(env: Env, s0: State, es: seq<Event>, p: Path, h: Hash)
    requires Run(env, s0, es).Some? && s0.janitor.Idle? && NothingDangling(s0) && OneCycle(es)
    requires SweepDone(Run(env, s0, es).value)
    requires var s := Run(env, s0, es).value;
             p in s.indexes && s.indexes[p].body.Some? && h in Refs(s.indexes[p].body.value)
    ensures var s := Run(env, s0, es).value;
            h in s.blobs <==>
            h !in s.janitor.snapshot || h in s.janitor.referenced || LinkedSince(es, h)
  {
    CycleInvariantHolds(env, s0, es, h);
    PresentIff(env, s0, es, h);
    PointedToUnlessRemoved(env, s0, es, h);
  }

  /** So the condition the design relies on is sufficient for the whole index. */
  lemma IndexesResolveAfterCycle(env: Env, s0: State, es: seq<Event>, p: Path)
    requires Run(env, s0, es).Some? && s0.janitor.Idle? && NothingDangling(s0) && OneCycle(es)
    requires SweepDone(Run(env, s0, es).value)
    requires var s := Run(env, s0, es).value;
             && p in s.indexes && s.indexes[p].body.Some?
             && (forall h :: h in Refs(s.indexes[p].body.value) ==>
                   h !in s.janitor.snapshot || h in s.janitor.referenced)
    ensures var s := Run(env, s0, es).value;
            Refs(s.indexes[p].body.value) <= s.blobs.Keys
  {
    var s := Run(env, s0, es).value;
    forall h | h in Refs(s.indexes[p].body.value) ensures h in s.blobs {
      IndexResolvesExactlyWhen(env, s0, es, p, h);
    }
  }

  /** An upload that finds an unreferenced blob of the snapshot and writes its
      index behind the walk is accepted, and then loses its dump. */
  lemma RacingUploadLosesItsBlob(env: Env, metadata: CrashMetadata, part: Part)
      returns (s0: State, es: seq<Event>, p: Path)
    requires part.IsDump()
    ensures s0.janitor.Idle? && NothingDangling(s0) && Run(env, s0, es).Some? && OneCycle(es)
    ensures var s := Run(env, s0, es).value;
            SweepDone(s) && p in s.indexes && s.indexes[p].body.Some?
            && env.sha(part.bytes) in Refs(s.indexes[p].body.value) && env.sha(part.bytes) !in s.blobs
  {
    var h := env.sha(part.bytes);
    s0 := State(0, map[h := part.bytes], map[], map[], Idle);
    var s, index;
    es, s := SweepBegins(env, s0, h);
    es, p, index := DedupAndIndex(env, s0, es, s, Request(metadata, [part]));
    es := Then(env, s0, es, Remove(h),
               s.(blobs := s.blobs - {h}, indexes := map[p := index], janitor := Sweeping({h}, {}, {h} - {h})));
  }

  /** The path a one-part upload writes. */
  function SoloPath(env: Env, request: Request): Path
    requires |request.parts| == 1
  {
    IndexPath(request.metadata.source, request.metadata.timestamp, env.sha(request.parts[0].bytes))
  }

  /** The index that the first post of a one-part crash wrote at time zero. */
  function FirstPost(env: Env, request: Request): IndexFile
    requires |request.parts| == 1 && request.parts[0].IsDump()
  {
    assert DumpAt(request.parts, 0);
    IndexFile(0, Some(MakeIndex(request, [PointerTo(env, request.parts[0], false)])))
  }

  /** A one-part upload against a blob that is in place. */
  lemma DedupAndIndex(env: Env, s0: State, es: seq<Event>, s: State, request: Request)
      returns (es': seq<Event>, p: Path, index: IndexFile)
    requires |request.parts| == 1 && request.parts[0].IsDump()
    requires Run(env, s0, es) == Some(s) && s.uploads == map[]
    requires env.sha(request.parts[0].bytes) in s.blobs && OneCycle(es)
    ensures p == SoloPath(env, request)
    ensures Run(env, s0, es') == Some(s.(indexes := s.indexes[p := index])) && OneCycle(es')
    ensures es' != [] && es'[|es'| - 1] == Index(0, p)
    ensures index.mtime == s.now && index.body.Some? && Refs(index.body.value) == {env.sha(request.parts[0].bytes)}
  {
    var part := request.parts[0];
    assert DumpAt(request.parts, 0);
    var pointers := [PointerTo(env, part, true)];
    es' := DedupOnly(env, s0, es, s, request);
    p, index := SoloPath(env, request), IndexFile(s.now, Some(MakeIndex(request, pointers)));
    assert s.uploads[0 := Upload(request, pointers, Ready)] - {0} == s.uploads;
    es' := Then(env, s0, es', Index(0, p), s.(indexes := s.indexes[p := index]));
    MakeIndexRefs(request, pointers);
  }

  lemma DedupOnly(env: Env, s0: State, es: seq<Event>, s: State, request: Request) returns (es': seq<Event>)
    requires |request.parts| == 1
    requires Run(env, s0, es) == Some(s) && s.uploads == map[] && env.sha(request.parts[0].bytes) in s.blobs
             && OneCycle(es)
    ensures OneCycle(es')
    ensures Run(env, s0, es') ==
            Some(s.(uploads := s.uploads[0 := Upload(request, [PointerTo(env, request.parts[0], true)], Ready)]))
  {
    var none: seq<Pointer>, pointers := [], [PointerTo(env, request.parts[0], true)];
    assert none + pointers == pointers;
    es' := Then(env, s0, es, Begin(0, request), s.(uploads := map[0 := Upload(request, [], Ready)]));
    es' := Then(env, s0, es', Stage(0), s.(uploads := map[0 := Upload(request, [], Staged)]));
    es' := Then(env, s0, es', Exists(0, env.sha(request.parts[0].bytes)),
                s.(uploads := map[0 := Upload(request, pointers, Ready)]));
  }

  /** A crash is posted again just after the walk found the index of its first
      post expired: the index it has just written is removed, though it is not expired. */
  lemma RepostLosesFreshIndex(env: Env, metadata: CrashMetadata, part: Part)
      returns (s0: State, es: seq<Event>, p: Path)
    requires part.IsDump() && env.ttlDays > 0
    ensures s0.janitor.Idle? && s0.indexes == map[p := FirstPost(env, Request(metadata, [part]))]
    ensures Run(env, s0, es).Some? && Enabled(env, Run(env, s0, es).value, Unlinked(p))
    ensures var s := Run(env, s0, es).value;
            es != [] && es[|es| - 1] == Index(0, p) && !Expired(env, s.indexes[p].mtime, s.now)
  {
    var h, request, now := env.sha(part.bytes), Request(metadata, [part]), env.ttlDays * 86400;
    p := SoloPath(env, request);
    s0 := State(now, map[h := part.bytes], map[p := FirstPost(env, request)], map[], Idle);
    es := IndexFoundExpired(env, s0, h, p);
    var index;
    es, p, index := DedupAndIndex(env, s0, es, s0.(janitor := Walking({h}, {}, Unlink(p), {})), request);
  }

  lemma IndexFoundExpired(env: Env, s0: State, h: Hash, p: Path) returns (es: seq<Event>)
    requires s0.janitor.Idle? && s0.blobs.Keys == {h} && s0.indexes.Keys == {p}
             && Expired(env, s0.indexes[p].mtime, s0.now)
    ensures Run(env, s0, es) == Some(s0.(janitor := Walking({h}, {}, Unlink(p), {}))) && OneCycle(es)
  {
    var none: set<Path> := {};
    assert none + {p} == {p} && {p} - {p} == none;
    es := SnapshotTaken(env, s0, h);
    es := Then(env, s0, es, OpenIndexes, s0.(janitor := Listing({h}, {p}, {})));
    es := Then(env, s0, es, SeeIndex(p), s0.(janitor := Listing({h}, {p}, {p})));
    es := Then(env, s0, es, CloseIndexes, s0.(janitor := Walking({h}, {p}, Next, {})));
    es := Then(env, s0, es, Old(p), s0.(janitor := Walking({h}, {}, Unlink(p), {})));
  }

  lemma SnapshotTaken(env: Env, s0: State, h: Hash) returns (es: seq<Event>)
    requires s0.janitor.Idle? && s0.blobs.Keys == {h}
    ensures Run(env, s0, es) == Some(s0.(janitor := Pruning({h}))) && OneCycle(es)
  {
    var none: set<Hash> := {};
    assert none + {h} == {h};
    es := Then(env, s0, [], OpenBlobs, s0.(janitor := Snapshotting({h}, {})));
    es := Then(env, s0, es, SeeBlob(h), s0.(janitor := Snapshotting({h}, {h})));
    es := Then(env, s0, es, CloseBlobs, s0.(janitor := Pruning({h})));
  }

  lemma SweepBegins(env: Env, s0: State, h: Hash) returns (es: seq<Event>, s: State)
    requires s0.janitor.Idle? && s0.indexes == map[] && s0.blobs.Keys == {h}
    ensures s == s0.(janitor := Sweeping({h}, {}, {h}))
    ensures Run(env, s0, es) == Some(s) && OneCycle(es)
  {
    var noPath: set<Path> := {};
    assert s0.indexes.Keys == noPath;
    es := SnapshotTaken(env, s0, h);
    es := Then(env, s0, es, OpenIndexes, s0.(janitor := Listing({h}, {}, {})));
    es := Then(env, s0, es, CloseIndexes, s0.(janitor := Walking({h}, {}, Next, {})));
    s := s0.(janitor := Sweeping({h}, {}, {h}));
    es := Then(env, s0, es, CloseWalk, s);
  }

  lemma Then(env: Env, s0: State, es: seq<Event>, e: Event, s': State) returns (es': seq<Event>)
    requires Run(env, s0, es).Some? && Enabled(env, Run(env, s0, es).value, e)
    requires Apply(env, Run(env, s0, es).value, e) == s'
    ensures es' == es + [e] && Run(env, s0, es') == Some(s')
  {
    es' := es + [e];
    assert es'[..|es'| - 1] == es;
  }

  // ------------------------------------------------- what an index stands for

  function PartHashes(env: Env, parts: seq<Part>): seq<Hash> {
    seq(|parts|, i requires 0 <= i < |parts| => env.sha(parts[i].bytes))
  }

  function PartPointers(env: Env, parts: seq<Part>): (r: seq<Pointer>)
    ensures |r| == |parts| && forall i :: 0 <= i < |r| ==> r[i] == PointerTo(env, parts[i], false)
  {
    seq(|parts|, i requires 0 <= i < |parts| => PointerTo(env, parts[i], false))
  }

  /** An index without its dedup flags, which depend on what was there before. */
  function Plain(index: CrashIndex): CrashIndex {
    var n := |index.attachments|;
    CrashIndex(index.metadata, index.dump.(dedup := false),
               seq(n, i requires 0 <= i < n => index.attachments[i].(dedup := false)))
  }

  /** Pointer `i` of an upload describes part `i`. */
  ghost predicate Follows(env: Env, up: Upload) {
    && |up.pointers| <= |up.request.parts|
    && (forall i :: 0 <= i < |up.pointers| ==>
          up.pointers[i].(dedup := false) == PointerTo(env, up.request.parts[i], false))
  }

  ghost predicate AllFollow(env: Env, s: State) {
    forall u :: u in s.uploads ==> Follows(env, s.uploads[u])
  }

  /** The index an upload writes says of each part what the part says of itself,
      with its digest and length, the dump apart and the attachments in stream order. */
  lemma MakeIndexDescribes(env: Env, up: Upload)
    requires Follows(env, up) && |up.pointers| == |up.request.parts| && OneDump(up.request.parts)
    ensures Plain(MakeIndex(up.request, up.pointers)) == MakeIndex(up.request, PartPointers(env, up.request.parts))
  {
    var k := DumpIndex(up.request.parts);
    var found := Plain(MakeIndex(up.request, up.pointers));
    var expected := MakeIndex(up.request, PartPointers(env, up.request.parts));
    forall i | 0 <= i < |found.attachments| ensures found.attachments[i] == expected.attachments[i] {
      var j := if i < k then i else i + 1;
      assert up.pointers[j].(dedup := false) == PointerTo(env, up.request.parts[j], false);
    }
  }

  lemma StepFollows(env: Env, s: State, e: Event, u: nat)
    requires Enabled(env, s, e) && (u in s.uploads ==> Follows(env, s.uploads[u]))
    ensures u in Apply(env, s, e).uploads ==> Follows(env, Apply(env, s, e).uploads[u])
  {
  }

  lemma {:induction false} UploadsFollow(env: Env, s0: State, es: seq<Event>)
    requires Run(env, s0, es).Some? && AllFollow(env, s0)
    ensures AllFollow(env, Run(env, s0, es).value)
  {
    if es != [] {
      var n := |es| - 1;
      UploadsFollow(env, s0, es[..n]);
      forall u | u in Run(env, s0, es).value.uploads ensures Follows(env, Run(env, s0, es).value.uploads[u]) {
        StepFollows(env, Run(env, s0, es[..n]).value, es[n], u);
      }
    }
  }

  /** No two of these texts have the same digest. */
  ghost predicate CollisionFree(env: Env, texts: set<Bytes>) {
    forall x, y :: x in texts && y in texts && env.sha(x) == env.sha(y) ==> x == y
  }

  ghost predicate PartsWithin(parts: seq<Part>, texts: set<Bytes>) {
    forall i :: 0 <= i < |parts| ==> parts[i].bytes in texts
  }

  /** Every blob and every part of an upload is one of these texts. */
  ghost predicate Within(s: State, texts: set<Bytes>) {
    && (forall h :: h in s.blobs ==> s.blobs[h] in texts)
    && (forall u :: u in s.uploads ==> PartsWithin(s.uploads[u].request.parts, texts))
  }

  /** So is every part of an upload that begins in the run. */
  ghost predicate SentWithin(es: seq<Event>, texts: set<Bytes>) {
    forall e :: e in es && e.Begin? ==> PartsWithin(e.request.parts, texts)
  }

  lemma StepUploadWithin(env: Env, s: State, e: Event, u: nat, texts: set<Bytes>)
    requires Enabled(env, s, e) && (e.Begin? ==> PartsWithin(e.request.parts, texts))
    requires u in s.uploads ==> PartsWithin(s.uploads[u].request.parts, texts)
    ensures var uploads := Apply(env, s, e).uploads; u in uploads ==> PartsWithin(uploads[u].request.parts, texts)
  {
  }

  lemma StepWithin(env: Env, s: State, e: Event, s': State, texts: set<Bytes>)
    requires Enabled(env, s, e) && (e.Begin? ==> PartsWithin(e.request.parts, texts)) && Within(s, texts)
    requires s' == Apply(env, s, e)
    ensures Within(s', texts)
  {
    StepBlobs(env, s, e);
    forall u | u in s'.uploads ensures PartsWithin(s'.uploads[u].request.parts, texts) {
      StepUploadWithin(env, s, e, u, texts);
    }
  }

  lemma {:induction false} RunWithin(env: Env, s0: State, es: seq<Event>, texts: set<Bytes>)
    requires Run(env, s0, es).Some? && Within(s0, texts) && SentWithin(es, texts)
    ensures Within(Run(env, s0, es).value, texts)
  {
    if es != [] {
      var n := |es| - 1;
      RunWithin(env, s0, es[..n], texts);
      assert es[n] in es;
      StepWithin(env, Run(env, s0, es[..n]).value, es[n], Run(env, s0, es).value, texts);
    }
  }

  /** A pointer says what the part says, and where its blob is still in place it holds the part's bytes. */
  ghost predicate Keeps(pointer: Pointer, part: Part, blobs: map<Hash, Bytes>) {
    && pointer.tag == part.tag && pointer.len == |part.bytes|
    && (pointer.sha256 in blobs ==> blobs[pointer.sha256] == part.bytes)
  }

  /** The index keeps the whole request. */
  ghost predicate KeepsAll(index: CrashIndex, request: Request, blobs: map<Hash, Bytes>)
    requires OneDump(request.parts)
  {
    var (dump, attachments) := Arranged(request.parts, request.parts);
    && index.metadata == request.metadata && |index.attachments| == |attachments|
    && Keeps(index.dump, dump, blobs)
    && forall i :: 0 <= i < |attachments| ==> Keeps(index.attachments[i], attachments[i], blobs)
  }

  /** The same metadata and the same parts, the dump apart. */
  predicate SameCrash(r: Request, r': Request)
    requires OneDump(r.parts) && OneDump(r'.parts)
  {
    r.metadata == r'.metadata && Arranged(r.parts, r.parts) == Arranged(r'.parts, r'.parts)
  }

  /** The request of the last upload in the run that wrote the index at `p`. */
  function LastWriter(env: Env, s: State, es: seq<Event>, p: Path): (r: Option<Request>)
    requires Run(env, s, es).Some?
    ensures r.Some? ==> OneDump(r.value.parts)
  {
    if es == [] then None
    else
      var n := |es| - 1;
      if Rewrites(es[n], p) then Some(Run(env, s, es[..n]).value.uploads[es[n].u].request)
      else LastWriter(env, s, es[..n], p)
  }

  /** The index of a request, but for its dedup flags. */
  function Described(env: Env, r: Request): CrashIndex
    requires OneDump(r.parts)
  {
    MakeIndex(r, PartPointers(env, r.parts))
  }

  function PathFor(env: Env, r: Request): Path
    requires OneDump(r.parts)
  {
    IndexPath(r.metadata.source, r.metadata.timestamp, Described(env, r).dump.sha256)
  }

  lemma StepIndexAt(env: Env, s: State, e: Event, p: Path)
    requires Enabled(env, s, e)
    ensures var indexes := Apply(env, s, e).indexes;
            && (Rewrites(e, p) ==>
                  && p in indexes && Complete(s, e.u)
                  && indexes[p].body == Some(MakeIndex(s.uploads[e.u].request, s.uploads[e.u].pointers)))
            && (!Rewrites(e, p) && p in indexes ==> p in s.indexes && indexes[p] == s.indexes[p])
            && (p in s.indexes && p !in indexes ==> e == Unlinked(p))
  {
  }

  /** The index at `p` is the one that was there, or the one of the last upload
      that wrote it; it is missing only if the janitor removed it. */
  lemma {:induction false} IndexIsLastWritten(env: Env, s: State, es: seq<Event>, p: Path)
    requires Run(env, s, es).Some? && AllFollow(env, s) && p in s.indexes
    ensures var end, writer := Run(env, s, es).value, LastWriter(env, s, es, p);
            && (p !in end.indexes ==> Unlinked(p) in es)
            && (p in end.indexes && writer.None? ==> end.indexes[p] == s.indexes[p])
            && (p in end.indexes && writer.Some? ==>
                  end.indexes[p].body.Some? && Plain(end.indexes[p].body.value) == Described(env, writer.value))
  {
    if es != [] {
      var n := |es| - 1;
      IndexIsLastWritten(env, s, es[..n], p);
      var t := Run(env, s, es[..n]).value;
      StepIndexAt(env, t, es[n], p);
      if Rewrites(es[n], p) {
        UploadsFollow(env, s, es[..n]);
        MakeIndexDescribes(env, t.uploads[es[n].u]);
      }
      assert es == es[..n] + [es[n]];
    }
  }

  lemma DescribedParts(env: Env, r: Request)
    requires OneDump(r.parts)
    ensures var (dump, attachments) := Arranged(r.parts, r.parts);
            var index := Described(env, r);
            && index.metadata == r.metadata && index.dump == PointerTo(env, dump, false)
            && |index.attachments| == |attachments|
            && forall i :: 0 <= i < |attachments| ==> index.attachments[i] == PointerTo(env, attachments[i], false)
  {
  }

  lemma SamePart(env: Env, texts: set<Bytes>, a: Part, b: Part)
    requires CollisionFree(env, texts) && a.bytes in texts && b.bytes in texts
    requires PointerTo(env, a, false) == PointerTo(env, b, false)
    ensures a == b
  {
  }

  /** Without collisions an index tells crashes apart. */
  lemma DescribedExactlyWhen(env: Env, texts: set<Bytes>, r: Request, r': Request)
    requires CollisionFree(env, texts) && PartsWithin(r.parts, texts) && PartsWithin(r'.parts, texts)
    requires OneDump(r.parts) && OneDump(r'.parts)
    ensures Described(env, r) == Described(env, r') <==> SameCrash(r, r')
  {
    DescribedParts(env, r);
    DescribedParts(env, r');
    var (dump, attachments) := Arranged(r.parts, r.parts);
    var (dump', attachments') := Arranged(r'.parts, r'.parts);
    if Described(env, r) == Described(env, r') {
      forall i | 0 <= i < |attachments| ensures attachments[i] == attachments'[i] {
        SamePart(env, texts, attachments[i], attachments'[i]);
      }
      SamePart(env, texts, dump, dump');
      assert attachments == attachments';
    }
    if SameCrash(r, r') {
      assert Described(env, r).attachments == Described(env, r').attachments;
    }
  }

  lemma DescribedKeeps(env: Env, texts: set<Bytes>, index: CrashIndex, r: Request, blobs: map<Hash, Bytes>)
    requires CollisionFree(env, texts) && PartsWithin(r.parts, texts)
    requires OneDump(r.parts) && Plain(index) == Described(env, r)
    requires forall h :: h in blobs ==> env.sha(blobs[h]) == h && blobs[h] in texts
    ensures KeepsAll(index, r, blobs)
  {
    DescribedParts(env, r);
    var attachments := Arranged(r.parts, r.parts).1;
    forall i | 0 <= i < |attachments| ensures Keeps(index.attachments[i], attachments[i], blobs) {
      assert Plain(index).attachments[i] == PointerTo(env, attachments[i], false);
    }
  }

  /** Whoever wrote the index at `p` had `p` for its path. */
  lemma {:induction false} WriterHasPath(env: Env, s: State, es: seq<Event>, p: Path)
    requires Run(env, s, es).Some? && AllFollow(env, s)
    ensures LastWriter(env, s, es, p).Some? ==> PathFor(env, LastWriter(env, s, es, p).value) == p
  {
    if es != [] {
      var n := |es| - 1;
      WriterHasPath(env, s, es[..n], p);
      if Rewrites(es[n], p) {
        UploadsFollow(env, s, es[..n]);
        MakeIndexDescribes(env, Run(env, s, es[..n]).value.uploads[es[n].u]);
      }
    }
  }

  lemma {:induction false} WriterWithin(env: Env, s: State, es: seq<Event>, p: Path, texts: set<Bytes>)
    requires Run(env, s, es).Some? && Within(s, texts) && SentWithin(es, texts)
    ensures LastWriter(env, s, es, p).Some? ==> PartsWithin(LastWriter(env, s, es, p).value.parts, texts)
  {
    if es != [] {
      var n := |es| - 1;
      WriterWithin(env, s, es[..n], p, texts);
      RunWithin(env, s, es[..n], texts);
    }
  }

  /** The same source, time and dump. */
  ghost predicate SameOccasion(r: Request, r': Request)
    requires OneDump(r.parts) && OneDump(r'.parts)
  {
    && r.metadata.source == r'.metadata.source && r.metadata.timestamp == r'.metadata.timestamp
    && Arranged(r.parts, r.parts).0.bytes == Arranged(r'.parts, r'.parts).0.bytes
  }

  /** Two requests share an index path exactly when they have source, timestamp
      and dump in common, where digests have one length. */
  lemma SamePathExactlyWhen(env: Env, texts: set<Bytes>, r: Request, r': Request)
    requires CollisionFree(env, texts) && PartsWithin(r.parts, texts) && PartsWithin(r'.parts, texts)
    requires OneDump(r.parts) && OneDump(r'.parts)
    requires |Described(env, r).dump.sha256| == |Described(env, r').dump.sha256|
    ensures PathFor(env, r) == PathFor(env, r') <==> SameOccasion(r, r')
  {
    DescribedParts(env, r);
    DescribedParts(env, r');
    if PathFor(env, r) == PathFor(env, r') {
      IndexPathInjective(r.metadata.source, r.metadata.timestamp, Described(env, r).dump.sha256,
                         r'.metadata.source, r'.metadata.timestamp, Described(env, r').dump.sha256);
      assert Arranged(r.parts, r.parts).0 in r.parts && Arranged(r'.parts, r'.parts).0 in r'.parts;
    }
  }

  /** What is in the store or on its way there at `s0`, or sent in the run. */
  ghost function Texts(s0: State, es: seq<Event>): set<Bytes> {
    s0.blobs.Values
    + (set u, part | u in s0.uploads && part in s0.uploads[u].request.parts :: part.bytes)
    + (set e, part | e in es && e.Begin? && part in e.request.parts :: part.bytes)
  }

  lemma TextsCover(s0: State, es: seq<Event>, later: seq<Event>)
    ensures var texts := Texts(s0, es + later); Within(s0, texts) && SentWithin(es, texts) && SentWithin(later, texts)
  {
    var texts := Texts(s0, es + later);
    forall u | u in s0.uploads ensures PartsWithin(s0.uploads[u].request.parts, texts) {
      var parts := s0.uploads[u].request.parts;
      forall i | 0 <= i < |parts| ensures parts[i].bytes in texts {
        assert parts[i] in parts;
      }
    }
    forall e | e in es + later && e.Begin? ensures PartsWithin(e.request.parts, texts) {
      forall i | 0 <= i < |e.request.parts| ensures e.request.parts[i].bytes in texts {
        assert e.request.parts[i] in e.request.parts;
      }
    }
  }

  /** Upload `u` of a run writes its index at `p`, and the run goes on to `end`.
      No two of the texts that occur in it collide. */
  ghost predicate Accepted(env: Env, s0: State, es: seq<Event>, s: State, u: nat, p: Path, later: seq<Event>,
                           end: State) {
    && CollisionFree(env, Texts(s0, es + later)) && ContentAddressed(env, s0) && AllFollow(env, s0)
    && Run(env, s0, es) == Some(s) && Enabled(env, s, Index(u, p))
    && Run(env, Apply(env, s, Index(u, p)), later) == Some(end)
  }

  lemma AcceptedWithin(env: Env, s0: State, es: seq<Event>, s: State, u: nat, p: Path, later: seq<Event>, end: State)
    requires Accepted(env, s0, es, s, u, p, later, end)
    ensures var texts, s' := Texts(s0, es + later), Apply(env, s, Index(u, p));
            var writer := LastWriter(env, s', later, p);
            && PartsWithin(s.uploads[u].request.parts, texts) && Within(end, texts)
            && (writer.Some? ==> PartsWithin(writer.value.parts, texts))
  {
    var texts, s' := Texts(s0, es + later), Apply(env, s, Index(u, p));
    TextsCover(s0, es, later);
    RunWithin(env, s0, es, texts);
    RunWithin(env, s', later, texts);
    WriterWithin(env, s', later, p, texts);
  }

  /** The last upload that has written the index of an accepted crash since, if
      any, has the crash's source, timestamp and dump, where digests have one length. */
  lemma OverwrittenBySameOccasion(env: Env, s0: State, es: seq<Event>, s: State, u: nat, p: Path, later: seq<Event>,
                                  end: State)
    requires Accepted(env, s0, es, s, u, p, later, end)
    requires forall x, y :: |env.sha(x)| == |env.sha(y)|
    ensures var writer := LastWriter(env, Apply(env, s, Index(u, p)), later, p);
            writer.Some? ==> SameOccasion(s.uploads[u].request, writer.value)
  {
    var r, s' := s.uploads[u].request, Apply(env, s, Index(u, p));
    var writer := LastWriter(env, s', later, p);
    AcceptedWithin(env, s0, es, s, u, p, later, end);
    UploadsFollow(env, s0, es);
    MakeIndexDescribes(env, s.uploads[u]);
    WriterHasPath(env, s', later, p);
    if writer.Some? {
      DescribedParts(env, r);
      DescribedParts(env, writer.value);
      SamePathExactlyWhen(env, Texts(s0, es + later), r, writer.value);
    }
  }

  /** An accepted crash reads back. At any later time its index is there unless the
      janitor removed it. It still describes the crash, part by part, if and only if
      the last upload that has written it since, if any, was of the same crash; and
      then wherever a pointer resolves, the blob holds the bytes that were sent. */
  lemma AcceptedCrashReadsBack(env: Env, s0: State, es: seq<Event>, s: State, u: nat, p: Path, later: seq<Event>,
                               end: State)
    requires Accepted(env, s0, es, s, u, p, later, end)
    ensures p !in end.indexes ==> Unlinked(p) in later
    ensures p in end.indexes ==>
              var r, writer := s.uploads[u].request, LastWriter(env, Apply(env, s, Index(u, p)), later, p);
              && end.indexes[p].body.Some?
              && (Plain(end.indexes[p].body.value) == Described(env, r) <==> writer.None? || SameCrash(writer.value, r))
              && (writer.None? || SameCrash(writer.value, r) ==> KeepsAll(end.indexes[p].body.value, r, end.blobs))
  {
    var r, s' := s.uploads[u].request, Apply(env, s, Index(u, p));
    var texts := Texts(s0, es + later);
    AcceptedWithin(env, s0, es, s, u, p, later, end);
    UploadsFollow(env, s0, es);
    BlobsStayContentAddressed(env, s0, es);
    BlobsStayContentAddressed(env, s', later);
    MakeIndexDescribes(env, s.uploads[u]);
    IndexIsLastWritten(env, s', later, p);
    if p in end.indexes {
      var writer := LastWriter(env, s', later, p);
      if writer.Some? {
        DescribedExactlyWhen(env, texts, writer.value, r);
      }
      if Plain(end.indexes[p].body.value) == Described(env, r) {
        DescribedKeeps(env, texts, end.indexes[p].body.value, r, end.blobs);
      }
    }
  }

  /** No blob of upload `u` is missing when it writes its index, no cycle has opened
      its index listing, and later writes of the index are retries while it is there. */
  ghost predicate WrittenInTime(env: Env, s: State, u: nat, p: Path, later: seq<Event>)
    requires Enabled(env, s, Index(u, p))
  {
    && (s.janitor.Idle? || s.janitor.Snapshotting? || s.janitor.Pruning?)
    && Hashes(s.uploads[u].pointers) <= s.blobs.Keys
    && OnlyRetries(env, Apply(env, s, Index(u, p)), later, p, Hashes(s.uploads[u].pointers))
  }

  /** A crash whose index was complete when it was written, before a cycle opens
      its index listing, is kept whole for as long as the index is retained, when
      the index is written again only by posts of the same crash. */
  lemma CompleteCrashStays(env: Env, s0: State, es: seq<Event>, s: State, u: nat, p: Path, later: seq<Event>,
                           end: State)
    requires Accepted(env, s0, es, s, u, p, later, end) && p in end.indexes && WrittenInTime(env, s, u, p, later)
    requires var writer := LastWriter(env, Apply(env, s, Index(u, p)), later, p);
             writer.None? || SameCrash(writer.value, s.uploads[u].request)
    ensures end.indexes[p].body.Some? && KeepsAll(end.indexes[p].body.value, s.uploads[u].request, end.blobs)
    ensures Refs(end.indexes[p].body.value) <= end.blobs.Keys
  {
    var s' := Apply(env, s, Index(u, p));
    AcceptedCrashReadsBack(env, s0, es, s, u, p, later, end);
    MakeIndexRefs(s.uploads[u].request, s.uploads[u].pointers);
    SettledBeforeListing(s', p);
    SettledIndexKeepsItsBlobs(env, s', later, p, Refs(s'.indexes[p].body.value));
  }

  // ------------------------------------------------------ posting more than once

  ghost predicate OnlyPosts(es: seq<Event>, r: Request) {
    forall e :: e in es ==> !JanitorEvent(e) && (e.Begin? ==> e.request == r)
  }

  predicate Posted(es: seq<Event>) {
    exists e :: e in es && e.Index?
  }

  /** What any number of posts of one request have done to the store so far:
      to upload `u`, to the blobs, and to the indexes. */
  ghost predicate PostingUpload(env: Env, s: State, r: Request, u: nat) {
    u in s.uploads ==>
      && s.uploads[u].request == r && Follows(env, s.uploads[u])
      && Hashes(s.uploads[u].pointers) <= s.blobs.Keys
  }

  ghost predicate PostedBlobs(env: Env, s0: State, s: State, r: Request) {
    && s0.blobs.Keys <= s.blobs.Keys
    && (forall h :: h in s.blobs ==> h in s0.blobs || h in PartHashes(env, r.parts))
  }

  ghost predicate PostedIndexes(env: Env, s0: State, s: State, r: Request, posted: bool)
    requires OneDump(r.parts)
  {
    var p := PathFor(env, r);
    && s.indexes - {p} == s0.indexes - {p}
    && (p in s0.indexes ==> p in s.indexes)
    && (posted ==>
          && (forall h :: h in PartHashes(env, r.parts) ==> h in s.blobs)
          && p in s.indexes && s.indexes[p].body.Some?
          && Plain(s.indexes[p].body.value) == Described(env, r))
  }

  ghost predicate PostedSoFar(env: Env, s0: State, s: State, r: Request, posted: bool)
    requires OneDump(r.parts)
  {
    && (forall u :: PostingUpload(env, s, r, u))
    && PostedBlobs(env, s0, s, r)
    && PostedIndexes(env, s0, s, r, posted)
  }

  lemma StepKeepsPostingUpload(env: Env, s: State, e: Event, r: Request, u: nat)
    requires Enabled(env, s, e) && !JanitorEvent(e) && (e.Begin? ==> e.request == r)
    requires PostingUpload(env, s, r, u)
    ensures PostingUpload(env, Apply(env, s, e), r, u)
  {
    StepFollows(env, s, e, u);
  }

  lemma StepKeepsPostedBlobs(env: Env, s0: State, s: State, e: Event, r: Request)
    requires Enabled(env, s, e) && !JanitorEvent(e) && PostedBlobs(env, s0, s, r)
    requires e.Linked? ==> PostingUpload(env, s, r, e.u)
    ensures PostedBlobs(env, s0, Apply(env, s, e), r)
  {
    if e.Linked? {
      assert e.h == PartHashes(env, r.parts)[|s.uploads[e.u].pointers|];
    }
  }

  lemma IndexIsPosted(env: Env, s0: State, s: State, e: Event, r: Request, posted: bool)
    requires OneDump(r.parts) && PostedIndexes(env, s0, s, r, posted)
    requires e.Index? && Enabled(env, s, e) && PostingUpload(env, s, r, e.u)
    ensures PostedIndexes(env, s0, Apply(env, s, e), r, true)
  {
    var up := s.uploads[e.u];
    MakeIndexDescribes(env, up);
    forall h | h in PartHashes(env, r.parts) ensures h in s.blobs {
      var i :| 0 <= i < |r.parts| && h == PartHashes(env, r.parts)[i];
      assert up.pointers[i] in up.pointers && up.pointers[i].sha256 == h;
    }
  }

  lemma StepKeepsPosted(env: Env, s0: State, s: State, e: Event, r: Request, posted: bool)
    requires OneDump(r.parts) && PostedSoFar(env, s0, s, r, posted) && Enabled(env, s, e)
    requires !JanitorEvent(e) && (e.Begin? ==> e.request == r)
    ensures PostedSoFar(env, s0, Apply(env, s, e), r, posted || e.Index?)
  {
    forall u ensures PostingUpload(env, Apply(env, s, e), r, u) {
      StepKeepsPostingUpload(env, s, e, r, u);
    }
    StepKeepsPostedBlobs(env, s0, s, e, r);
    if e.Index? {
      IndexIsPosted(env, s0, s, e, r, posted);
    }
  }

  lemma {:induction false} PostsInvariant(env: Env, s0: State, es: seq<Event>, r: Request)
    requires OneDump(r.parts) && s0.uploads == map[] && OnlyPosts(es, r) && Run(env, s0, es).Some?
    ensures PostedSoFar(env, s0, Run(env, s0, es).value, r, Posted(es))
  {
    if es != [] {
      var n := |es| - 1;
      PostsInvariant(env, s0, es[..n], r);
      StepKeepsPosted(env, s0, Run(env, s0, es[..n]).value, es[n], r, Posted(es[..n]));
      assert es[n] in es;
      assert es == es[..n] + [es[n]];
    }
  }

  lemma PostedKeys(env: Env, s0: State, s: State, r: Request)
    requires OneDump(r.parts) && PostedSoFar(env, s0, s, r, true)
    ensures s.blobs.Keys == s0.blobs.Keys + set h | h in PartHashes(env, r.parts)
    ensures s.indexes.Keys == s0.indexes.Keys + {PathFor(env, r)}
  {
    var p := PathFor(env, r);
    assert (s.indexes - {p}).Keys == s.indexes.Keys - {p};
    assert (s0.indexes - {p}).Keys == s0.indexes.Keys - {p};
    assert s.indexes.Keys == (s.indexes.Keys - {p}) + {p};
    assert s0.indexes.Keys + {p} == (s0.indexes.Keys - {p}) + {p};
  }

  lemma ContentAddressedByKeys(env: Env, texts: set<Bytes>, s: State, s': State)
    requires CollisionFree(env, texts) && Within(s, texts) && Within(s', texts)
    requires ContentAddressed(env, s) && ContentAddressed(env, s')
    requires s.blobs.Keys == s'.blobs.Keys
    ensures s.blobs == s'.blobs
  {
    forall h | h in s.blobs ensures h in s'.blobs && s.blobs[h] == s'.blobs[h] {
      assert h in s'.blobs.Keys;
      assert env.sha(s.blobs[h]) == env.sha(s'.blobs[h]);
    }
  }

  /** Posting one crash any positive number of times, in any interleaving and
      with any failed attempts among them, leaves the same blobs and the same
      index paths, with the same index but for dedup flags, as any other way of posting it. */
  lemma EffectivelyOnce(env: Env, s0: State, es: seq<Event>, es': seq<Event>, r: Request)
    requires OneDump(r.parts) && s0.uploads == map[]
    requires OnlyPosts(es, r) && Posted(es) && Run(env, s0, es).Some?
    requires OnlyPosts(es', r) && Posted(es') && Run(env, s0, es').Some?
    ensures
      var s, s' := Run(env, s0, es).value, Run(env, s0, es').value;
      && s.blobs.Keys == s'.blobs.Keys
      && s.indexes.Keys == s'.indexes.Keys == s0.indexes.Keys + {PathFor(env, r)}
      && s.indexes[PathFor(env, r)].body.Some? && s'.indexes[PathFor(env, r)].body.Some?
      && Plain(s.indexes[PathFor(env, r)].body.value) == Plain(s'.indexes[PathFor(env, r)].body.value)
    ensures CollisionFree(env, Texts(s0, es + es')) && ContentAddressed(env, s0) ==>
              Run(env, s0, es).value.blobs == Run(env, s0, es').value.blobs
  {
    PostsInvariant(env, s0, es, r);
    PostsInvariant(env, s0, es', r);
    var s, s' := Run(env, s0, es).value, Run(env, s0, es').value;
    PostedKeys(env, s0, s, r);
    PostedKeys(env, s0, s', r);
    if CollisionFree(env, Texts(s0, es + es')) && ContentAddressed(env, s0) {
      TextsCover(s0, es, es');
      RunWithin(env, s0, es, Texts(s0, es + es'));
      RunWithin(env, s0, es', Texts(s0, es + es'));
      BlobsStayContentAddressed(env, s0, es);
      BlobsStayContentAddressed(env, s0, es');
      ContentAddressedByKeys(env, Texts(s0, es + es'), s, s');
    }
  }
}

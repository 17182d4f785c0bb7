/**
 One retention pass over a storage tree that nobody else changes. The clock is
 fixed for the pass. `parse` reads the digests out of an index file. The
 concurrent behaviour of the same pass is in `BlobStore`.
 */
module Janitor {
  import opened Wrappers
  import opened Storage
  import opened Disk
  import opened Text

  datatype Retention = Retention(logsTtlDays: nat, crashesTtlDays: nat)

  datatype Stats = Stats(logsDeleted: nat, indexesDeleted: nat, blobsDeleted: nat, bytesFreed: nat) {
    function Deleted(): nat { logsDeleted + indexesDeleted + blobsDeleted }
  }

  datatype Kind = LogKind | IndexKind | BlobKind

  /** `n` more files of a kind and their bytes. */
  function Tallied(s: Stats, kind: Kind, n: nat, bytes: nat): Stats {
    match kind
    case LogKind => s.(logsDeleted := s.logsDeleted + n, bytesFreed := s.bytesFreed + bytes)
    case IndexKind => s.(indexesDeleted := s.indexesDeleted + n, bytesFreed := s.bytesFreed + bytes)
    case BlobKind => s.(blobsDeleted := s.blobsDeleted + n, bytesFreed := s.bytesFreed + bytes)
  }

  datatype IndexRef = IndexRef(dump: string, attachments: seq<string>) {
    function Hashes(): set<string> { {dump} + set a | a in attachments }
  }

  type Parser = Bytes -> Option<IndexRef>

  // ------------------------------------------------------------- file names

  predicate In(root: Path, extension: string, p: Path) {
    root <= p && p != [] && Extension(Name(p)) == Some(extension)
  }

  /** The digest a blob file is named after. */
  function BlobHash(p: Path): string
    requires p != [] && |Name(p)| >= 4
  {
    Name(p)[..|Name(p)| - 4]
  }

  predicate Blob(p: Path) { In(BY_HASH, "bin", p) }

  lemma BlobSuffix(p: Path)
    requires Blob(p)
    ensures |Name(p)| > 4 && Name(p) == BlobHash(p) + ".bin"
  {
    var k := LastDot(Name(p)).value;
    assert Name(p) == Name(p)[..k] + ['.'] + Name(p)[k + 1..];
    assert |Name(p)[k + 1..]| == 3;
  }

  // --------------------------------------------------------- what a pass does

  predicate Old(f: File, ttlDays: nat, now: int) {
    ttlDays == 0 || f.mtime <= now - ttlDays * 86400
  }

  function Expired(files: Files, root: Path, extension: string, ttlDays: nat, now: int): set<Path> {
    set p | p in files && In(root, extension, p) && Old(files[p], ttlDays, now)
  }

  predicate Kept(files: Files, ttlDays: nat, now: int, p: Path) {
    p in files && In(BY_SOURCE, "json", p) && !Old(files[p], ttlDays, now)
  }

  function RefsIn(parse: Parser, f: File): set<string> {
    var index := parse(f.bytes);
    if index.Some? then index.value.Hashes() else {}
  }

  /** The digests the retained, parseable indexes refer to. */
  function Referenced(files: Files, ttlDays: nat, now: int, parse: Parser): set<string> {
    set p, h | p in files && Kept(files, ttlDays, now, p) && h in RefsIn(parse, files[p]) :: h
  }

  function Unreferenced(files: Files, referenced: set<string>): set<Path> {
    set p | p in files && Blob(p) && |Name(p)| >= 4 && BlobHash(p) !in referenced
  }

  function AfterCycle(files: Files, retention: Retention, now: int, parse: Parser): Files {
    files - Expired(files, LOGS, "ndjson", retention.logsTtlDays, now)
      - Expired(files, BY_SOURCE, "json", retention.crashesTtlDays, now)
      - Unreferenced(files, Referenced(files, retention.crashesTtlDays, now, parse))
  }

  // ------------------------------------------------------------- accounting

  ghost function Some1(paths: set<Path>): (p: Path)
    requires paths != {}
    ensures p in paths
  {
    var p :| p in paths; p
  }

  /** What a file counts for: one when files are counted, its length when bytes are. */
  function Weight(f: File, bytes: bool): nat { if bytes then |f.bytes| else 1 }

  /** The number, or the bytes, of the files named in `paths`. */
  ghost function Total(files: Files, paths: set<Path>, bytes: bool): nat
    requires paths <= files.Keys
  {
    if paths == {} then 0
    else
      var p := Some1(paths);
      Weight(files[p], bytes) + Total(files, paths - {p}, bytes)
  }

  /** The number is the cardinality. */
  lemma {:induction false} TotalNumber(files: Files, paths: set<Path>)
    requires paths <= files.Keys
    ensures Total(files, paths, false) == |paths|
  {
    if paths != {} {
      TotalNumber(files, paths - {Some1(paths)});
    }
  }

  lemma {:induction false} TotalWithout(files: Files, paths: set<Path>, p: Path, bytes: bool)
    requires paths <= files.Keys && p in paths
    ensures Total(files, paths, bytes) == Weight(files[p], bytes) + Total(files, paths - {p}, bytes)
  {
    var q := Some1(paths);
    if p != q {
      TotalWithout(files, paths - {q}, p, bytes);
      TotalWithout(files, paths - {p}, q, bytes);
      assert paths - {q} - {p} == paths - {p} - {q};
    }
  }

  lemma TotalWith(files: Files, paths: set<Path>, p: Path, bytes: bool)
    requires paths <= files.Keys && p in files && p !in paths
    ensures Total(files, paths + {p}, bytes) == Total(files, paths, bytes) + Weight(files[p], bytes)
  {
    TotalWithout(files, paths + {p}, p, bytes);
    assert paths + {p} - {p} == paths;
  }

  lemma {:induction false} TotalSplit(files: Files, paths: set<Path>, gone: set<Path>, bytes: bool)
    requires gone <= paths <= files.Keys
    ensures Total(files, paths, bytes) == Total(files, paths - gone, bytes) + Total(files, gone, bytes)
  {
    if gone == {} {
      assert paths - gone == paths;
    } else {
      var p := Some1(gone);
      TotalSplit(files, paths, gone - {p}, bytes);
      TotalWithout(files, paths - (gone - {p}), p, bytes);
      assert paths - gone == paths - (gone - {p}) - {p};
    }
  }

  lemma {:induction false} TotalAlike(files: Files, files': Files, paths: set<Path>, bytes: bool)
    requires paths <= files.Keys && paths <= files'.Keys && forall p :: p in paths ==> files[p] == files'[p]
    ensures Total(files, paths, bytes) == Total(files', paths, bytes)
  {
    if paths != {} {
      TotalAlike(files, files', paths - {Some1(paths)}, bytes);
    }
  }

  /** Files and bytes before are files and bytes after plus what was counted. */
  ghost predicate Balanced(before: Files, s: Stats, after: Files, s': Stats) {
    && Total(before, before.Keys, false) + s.Deleted() == Total(after, after.Keys, false) + s'.Deleted()
    && Total(before, before.Keys, true) + s.bytesFreed == Total(after, after.Keys, true) + s'.bytesFreed
  }

  // ----------------------------------------------------------------- the pass

  /** The first `i` of `paths` that are in `doomed`. */
  ghost function Among(paths: seq<Path>, i: nat, doomed: set<Path>): (among: set<Path>)
    requires i <= |paths|
    ensures forall p :: p in among ==> p in paths
  {
    if i == 0 then {}
    else if paths[i - 1] in doomed then Among(paths, i - 1, doomed) + {paths[i - 1]}
    else Among(paths, i - 1, doomed)
  }

  lemma {:induction false} AmongExactly(paths: seq<Path>, i: nat, doomed: set<Path>, p: Path)
    requires i <= |paths|
    ensures p in Among(paths, i, doomed) <==> p in paths[..i] && p in doomed
  {
    if i > 0 {
      AmongExactly(paths, i - 1, doomed, p);
      assert paths[..i] == paths[..i - 1] + [paths[i - 1]];
    }
  }

  ghost function Sizes(files: Files, paths: seq<Path>, i: nat, doomed: set<Path>, bytes: bool): nat
    requires i <= |paths| && forall p :: p in paths ==> p in files
  {
    if i == 0 then 0
    else
      Sizes(files, paths, i - 1, doomed, bytes)
      + if paths[i - 1] in doomed then Weight(files[paths[i - 1]], bytes) else 0
  }

  lemma {:induction false} SizesAmong(files: Files, paths: seq<Path>, i: nat, doomed: set<Path>, bytes: bool)
    requires i <= |paths| && NoDuplicates(paths) && forall p :: p in paths ==> p in files
    ensures Sizes(files, paths, i, doomed, bytes) == Total(files, Among(paths, i, doomed), bytes)
  {
    if i > 0 {
      SizesAmong(files, paths, i - 1, doomed, bytes);
      if paths[i - 1] in doomed {
        assert Fresh(paths, i - 1);
        AmongExactly(paths, i - 1, doomed, paths[i - 1]);
        TotalWith(files, Among(paths, i - 1, doomed), paths[i - 1], bytes);
      }
    }
  }

  lemma RemoveOne(files: Files, gone: set<Path>, p: Path)
    ensures files - (gone + {p}) == files - gone - {p}
  {
  }

  lemma RemovalBalances(files: Files, doomed: set<Path>, kind: Kind, s0: Stats, s: Stats)
    requires doomed <= files.Keys && s == Tallied(s0, kind, Total(files, doomed, false), Total(files, doomed, true))
    ensures Balanced(files, s0, files - doomed, s)
  {
    assert (files - doomed).Keys == files.Keys - doomed;
    TotalSplit(files, files.Keys, doomed, false);
    TotalSplit(files, files.Keys, doomed, true);
    TotalAlike(files, files - doomed, files.Keys - doomed, false);
    TotalAlike(files, files - doomed, files.Keys - doomed, true);
  }

  lemma TreeWithout(files: Files, dirs: set<Path>, p: Path)
    requires Tree(files, dirs)
    ensures Tree(files - {p}, dirs)
  {
    assert (files - {p}).Keys <= files.Keys;
  }

  /** A pass over `paths` that has dealt with the first `i` of them. */
  ghost predicate Pruning(files0: Files, files: Files, dirs: set<Path>, paths: seq<Path>, i: nat, doomed: set<Path>,
                          kind: Kind, s0: Stats, s: Stats)
  {
    && i <= |paths| && NoDuplicates(paths) && (forall p :: p in paths ==> p in files0)
    && files == files0 - Among(paths, i, doomed) && Tree(files, dirs)
    && s == Tallied(s0, kind, Sizes(files0, paths, i, doomed, false), Sizes(files0, paths, i, doomed, true))
  }

  lemma PruningBegins(files: Files, dirs: set<Path>, paths: seq<Path>, doomed: set<Path>, kind: Kind, s: Stats)
    requires Tree(files, dirs) && NoDuplicates(paths) && forall p :: p in paths ==> p in files
    ensures Pruning(files, files, dirs, paths, 0, doomed, kind, s, s)
  {
    assert files - {} == files;
  }

  lemma PruningHere(files0: Files, files: Files, dirs: set<Path>, paths: seq<Path>, i: nat, doomed: set<Path>,
                    kind: Kind, s0: Stats, s: Stats)
    requires Pruning(files0, files, dirs, paths, i, doomed, kind, s0, s) && i < |paths|
    ensures paths[i] in files && paths[i] in files0 && files[paths[i]] == files0[paths[i]]
  {
    assert paths[i] in paths && Fresh(paths, i);
    AmongExactly(paths, i, doomed, paths[i]);
  }

  lemma PruningStep(files0: Files, files: Files, files': Files, dirs: set<Path>, paths: seq<Path>, i: nat,
                    doomed: set<Path>, kind: Kind, s0: Stats, s: Stats, s': Stats)
    requires Pruning(files0, files, dirs, paths, i, doomed, kind, s0, s) && i < |paths|
    requires paths[i] in files
    requires if paths[i] in doomed then
               files' == files - {paths[i]} && s' == Tallied(s, kind, 1, |files[paths[i]].bytes|)
             else
               files' == files && s' == s
    ensures Pruning(files0, files', dirs, paths, i + 1, doomed, kind, s0, s')
  {
    if paths[i] in doomed {
      RemoveOne(files0, Among(paths, i, doomed), paths[i]);
      TreeWithout(files, dirs, paths[i]);
    }
  }

  /** A phase took away exactly `doomed`, and counted its files and their bytes under its own kind. */
  ghost predicate Removed(files0: Files, s0: Stats, doomed: set<Path>, kind: Kind, files: Files, s: Stats) {
    && doomed <= files0.Keys && files == files0 - doomed
    && s == Tallied(s0, kind, Total(files0, doomed, false), Total(files0, doomed, true))
    && Balanced(files0, s0, files, s)
  }

  lemma PruningDone(files0: Files, files: Files, dirs: set<Path>, paths: seq<Path>, doomed: set<Path>, kind: Kind,
                    s0: Stats, s: Stats)
    requires Pruning(files0, files, dirs, paths, |paths|, doomed, kind, s0, s)
    requires forall p :: p in doomed ==> p in paths
    ensures Removed(files0, s0, doomed, kind, files, s)
  {
    assert paths[..|paths|] == paths;
    forall p {
      AmongExactly(paths, |paths|, doomed, p);
    }
    assert Among(paths, |paths|, doomed) == doomed;
    SizesAmong(files0, paths, |paths|, doomed, false);
    SizesAmong(files0, paths, |paths|, doomed, true);
    RemovalBalances(files0, doomed, kind, s0, s);
  }

  method PruneLogs(disk: Disk, ttlDays: nat, now: int, stats: Stats) returns (r: Option<Stats>)
    requires disk.Valid()
    modifies disk`files
    ensures disk.Valid()
    ensures r.None? <==> Blocked(old(disk.files), LOGS)
    ensures r.None? ==> disk.files == old(disk.files)
    ensures r.Some? ==>
              Removed(old(disk.files), stats, Expired(old(disk.files), LOGS, "ndjson", ttlDays, now), LogKind,
                      disk.files, r.value)
  {
    var paths := disk.CollectFiles(LOGS);
    if paths.None? {
      return None;
    }
    ghost var files0, doomed := disk.files, Expired(disk.files, LOGS, "ndjson", ttlDays, now);
    var s := stats;
    PruningBegins(files0, disk.dirs, paths.value, doomed, LogKind, s);
    for i := 0 to |paths.value|
      invariant Pruning(files0, disk.files, disk.dirs, paths.value, i, doomed, LogKind, stats, s)
    {
      var p := paths.value[i];
      PruningHere(files0, disk.files, disk.dirs, paths.value, i, doomed, LogKind, stats, s);
      ghost var files, was := disk.files, s;
      if Extension(Name(p)) == Some("ndjson") && Old(disk.files[p], ttlDays, now) {
        s := Tallied(s, LogKind, 1, |disk.files[p].bytes|);
        disk.files := disk.files - {p};
      }
      PruningStep(files0, files, disk.files, disk.dirs, paths.value, i, doomed, LogKind, stats, was, s);
    }
    PruningDone(files0, disk.files, disk.dirs, paths.value, doomed, LogKind, stats, s);
    r := Some(s);
  }

  method PruneIndexesAndCollect(disk: Disk, ttlDays: nat, now: int, parse: Parser, stats: Stats)
    returns (r: Option<(set<string>, Stats)>)
    requires disk.Valid()
    modifies disk`files
    ensures disk.Valid()
    ensures r.None? <==> Blocked(old(disk.files), BY_SOURCE)
    ensures r.None? ==> disk.files == old(disk.files)
    ensures r.Some? ==>
              && r.value.0 == Referenced(old(disk.files), ttlDays, now, parse)
              && Removed(old(disk.files), stats, Expired(old(disk.files), BY_SOURCE, "json", ttlDays, now), IndexKind,
                         disk.files, r.value.1)
  {
    var paths := disk.CollectFiles(BY_SOURCE);
    if paths.None? {
      return None;
    }
    ghost var doomed := Expired(disk.files, BY_SOURCE, "json", ttlDays, now);
    CollectedAll(disk.files, paths.value, ttlDays, now, parse);
    var referenced, s := WalkIndexes(disk, paths.value, doomed, ttlDays, now, parse, stats);
    r := Some((referenced, s));
  }

  /** The loop of `PruneIndexesAndCollect` over the files found. */
  method WalkIndexes(disk: Disk, paths: seq<Path>, ghost doomed: set<Path>, ttlDays: nat, now: int, parse: Parser,
                     stats: Stats)
    returns (referenced: set<string>, s: Stats)
    requires disk.Valid() && NoDuplicates(paths)
    requires forall p :: p in doomed ==> p in paths
    requires forall p :: p in paths ==>
               && p in disk.files && p != []
               && (p in doomed <==> Extension(Name(p)) == Some("json") && Old(disk.files[p], ttlDays, now))
    modifies disk`files
    ensures disk.Valid() && Removed(old(disk.files), stats, doomed, IndexKind, disk.files, s)
    ensures referenced == Collected(old(disk.files), paths, |paths|, ttlDays, now, parse)
  {
    ghost var files0 := disk.files;
    referenced, s := {}, stats;
    PruningBegins(files0, disk.dirs, paths, doomed, IndexKind, s);
    for i := 0 to |paths|
      invariant Pruning(files0, disk.files, disk.dirs, paths, i, doomed, IndexKind, stats, s)
      invariant referenced == Collected(files0, paths, i, ttlDays, now, parse)
    {
      var p := paths[i];
      PruningHere(files0, disk.files, disk.dirs, paths, i, doomed, IndexKind, stats, s);
      ghost var files, was := disk.files, s;
      if Extension(Name(p)) == Some("json") {
        if Old(disk.files[p], ttlDays, now) {
          s := Tallied(s, IndexKind, 1, |disk.files[p].bytes|);
          disk.files := disk.files - {p};
        } else {
          var index := parse(disk.files[p].bytes);
          if index.Some? {
            referenced := referenced + index.value.Hashes();
          }
        }
      }
      PruningStep(files0, files, disk.files, disk.dirs, paths, i, doomed, IndexKind, stats, was, s);
    }
    PruningDone(files0, disk.files, disk.dirs, paths, doomed, IndexKind, stats, s);
  }

  /** The walk takes digests from the file at `p`. */
  ghost predicate Reads(files: Files, ttlDays: nat, now: int, parse: Parser, p: Path) {
    && p in files && p != [] && Extension(Name(p)) == Some("json") && !Old(files[p], ttlDays, now)
    && parse(files[p].bytes).Some?
  }

  /** What the walk has collected from the first `i` paths. */
  ghost function Collected(files: Files, paths: seq<Path>, i: nat, ttlDays: nat, now: int, parse: Parser): set<string>
    requires i <= |paths|
  {
    if i == 0 then {}
    else if Reads(files, ttlDays, now, parse, paths[i - 1]) then
      Collected(files, paths, i - 1, ttlDays, now, parse) + parse(files[paths[i - 1]].bytes).value.Hashes()
    else
      Collected(files, paths, i - 1, ttlDays, now, parse)
  }

  lemma {:induction false} CollectedFrom(files: Files, paths: seq<Path>, i: nat, ttlDays: nat, now: int,
                                         parse: Parser, h: string)
    requires i <= |paths|
    ensures h in Collected(files, paths, i, ttlDays, now, parse) <==>
            exists k :: 0 <= k < i && Reads(files, ttlDays, now, parse, paths[k]) && h in RefsIn(parse, files[paths[k]])
  {
    if i > 0 {
      CollectedFrom(files, paths, i - 1, ttlDays, now, parse, h);
    }
  }

  lemma FoundAmong(files: Files, paths: seq<Path>, ttlDays: nat, now: int, parse: Parser, h: string)
    requires forall p :: p in paths <==> p in files && BY_SOURCE <= p
    ensures (exists k :: 0 <= k < |paths|
                         && Reads(files, ttlDays, now, parse, paths[k]) && h in RefsIn(parse, files[paths[k]])) <==>
            h in Referenced(files, ttlDays, now, parse)
  {
    if h in Referenced(files, ttlDays, now, parse) {
      var p :| p in files && Kept(files, ttlDays, now, p) && h in RefsIn(parse, files[p]);
      assert p in paths;
    }
    if k :| 0 <= k < |paths| && Reads(files, ttlDays, now, parse, paths[k]) && h in RefsIn(parse, files[paths[k]]) {
      assert paths[k] in paths;
      assert Kept(files, ttlDays, now, paths[k]);
    }
  }

  lemma CollectedAll(files: Files, paths: seq<Path>, ttlDays: nat, now: int, parse: Parser)
    requires forall p :: p in paths <==> p in files && BY_SOURCE <= p
    ensures Collected(files, paths, |paths|, ttlDays, now, parse) == Referenced(files, ttlDays, now, parse)
  {
    forall h
      ensures h in Collected(files, paths, |paths|, ttlDays, now, parse) <==>
              h in Referenced(files, ttlDays, now, parse)
    {
      CollectedFrom(files, paths, |paths|, ttlDays, now, parse, h);
      FoundAmong(files, paths, ttlDays, now, parse, h);
    }
  }

  method SnapshotBlobs(disk: Disk) returns (r: Option<seq<Path>>)
    requires disk.Valid()
    ensures r.None? <==> Blocked(disk.files, BY_HASH)
    ensures r.Some? ==> NoDuplicates(r.value) && forall p :: p in r.value <==> p in disk.files && Blob(p)
  {
    var paths := disk.CollectFiles(BY_HASH);
    if paths.None? {
      return None;
    }
    var blobs := [];
    for i := 0 to |paths.value|
      invariant NoDuplicates(blobs)
      invariant forall p :: p in blobs <==> p in paths.value[..i] && Blob(p)
    {
      var p := paths.value[i];
      assert paths.value[..i + 1] == paths.value[..i] + [p];
      assert p in paths.value && Fresh(paths.value, i);
      if Extension(Name(p)) == Some("bin") {
        Extend(blobs, p);
        blobs := blobs + [p];
      }
    }
    assert paths.value[..|paths.value|] == paths.value;
    r := Some(blobs);
  }

  method SweepBlobs(disk: Disk, snapshot: seq<Path>, referenced: set<string>, stats: Stats) returns (s: Stats)
    requires disk.Valid() && NoDuplicates(snapshot)
    requires forall p :: p in snapshot <==> p in disk.files && Blob(p)
    modifies disk`files
    ensures disk.Valid()
    ensures Removed(old(disk.files), stats, Unreferenced(old(disk.files), referenced), BlobKind, disk.files, s)
  {
    ghost var files0, doomed := disk.files, Unreferenced(disk.files, referenced);
    s := stats;
    PruningBegins(files0, disk.dirs, snapshot, doomed, BlobKind, s);
    for i := 0 to |snapshot|
      invariant Pruning(files0, disk.files, disk.dirs, snapshot, i, doomed, BlobKind, stats, s)
    {
      var p := snapshot[i];
      PruningHere(files0, disk.files, disk.dirs, snapshot, i, doomed, BlobKind, stats, s);
      BlobSuffix(p);
      ghost var files, was := disk.files, s;
      if BlobHash(p) !in referenced {
        s := Tallied(s, BlobKind, 1, |disk.files[p].bytes|);
        disk.files := disk.files - {p};
      }
      PruningStep(files0, files, disk.files, disk.dirs, snapshot, i, doomed, BlobKind, stats, was, s);
    }
    PruningDone(files0, disk.files, disk.dirs, snapshot, doomed, BlobKind, stats, s);
  }

  // -------------------------------------------------------------- one cycle

  lemma RootsApart(p: Path)
    ensures LOGS <= p ==> !(BY_SOURCE <= p) && !(BY_HASH <= p)
    ensures BY_SOURCE <= p ==> !(BY_HASH <= p)
  {
    if LOGS <= p && |p| > 1 {
      assert p[0] == LOGS[0] && BY_SOURCE[0] != LOGS[0] && BY_HASH[0] != LOGS[0];
    }
    if BY_SOURCE <= p {
      assert p[1] == BY_SOURCE[1] && BY_HASH[1] != BY_SOURCE[1];
    }
  }

  lemma ExpiredOfRest(files: Files, gone: set<Path>, root: Path, extension: string, ttlDays: nat, now: int)
    requires forall p :: p in gone ==> !(root <= p)
    ensures Expired(files - gone, root, extension, ttlDays, now) == Expired(files, root, extension, ttlDays, now)
  {
    var a, b := Expired(files - gone, root, extension, ttlDays, now), Expired(files, root, extension, ttlDays, now);
    forall p ensures p in a <==> p in b {
    }
  }

  lemma ReferencedByRest(files: Files, gone: set<Path>, ttlDays: nat, now: int, parse: Parser)
    requires forall p :: p in gone && Kept(files, ttlDays, now, p) ==> p !in files
    ensures Referenced(files - gone, ttlDays, now, parse) == Referenced(files, ttlDays, now, parse)
  {
    assert forall p :: Kept(files - gone, ttlDays, now, p) <==> Kept(files, ttlDays, now, p);
  }

  lemma UnreferencedInRest(files: Files, gone: set<Path>, referenced: set<string>)
    requires forall p :: p in gone ==> !Blob(p)
    ensures Unreferenced(files - gone, referenced) == Unreferenced(files, referenced)
  {
    var a, b := Unreferenced(files - gone, referenced), Unreferenced(files, referenced);
    forall p ensures p in a <==> p in b {
    }
  }

  lemma DoomedApart(files: Files, retention: Retention, now: int)
    ensures forall p :: p in Expired(files, LOGS, "ndjson", retention.logsTtlDays, now) ==>
              !(BY_SOURCE <= p) && !Blob(p)
    ensures forall p :: p in Expired(files, BY_SOURCE, "json", retention.crashesTtlDays, now) ==>
              !(LOGS <= p) && !Blob(p) && !Kept(files, retention.crashesTtlDays, now, p)
  {
    forall p | p in Expired(files, LOGS, "ndjson", retention.logsTtlDays, now)
      ensures !(BY_SOURCE <= p) && !Blob(p)
    {
      RootsApart(p);
    }
    forall p | p in Expired(files, BY_SOURCE, "json", retention.crashesTtlDays, now)
      ensures !(LOGS <= p) && !Blob(p)
    {
      RootsApart(p);
    }
  }

  /** The phases do not disturb one another: each may be computed on the tree the
      cycle started from instead of on what the earlier phases left of it. */
  lemma PhasesCompose(files: Files, files1: Files, files2: Files, retention: Retention, now: int, parse: Parser)
    requires files1 == files - Expired(files, LOGS, "ndjson", retention.logsTtlDays, now)
    requires files2 == files1 - Expired(files1, BY_SOURCE, "json", retention.crashesTtlDays, now)
    ensures forall p :: Blob(p) ==> (p in files2 <==> p in files)
    ensures Expired(files1, BY_SOURCE, "json", retention.crashesTtlDays, now) ==
            Expired(files, BY_SOURCE, "json", retention.crashesTtlDays, now)
    ensures var referenced := Referenced(files1, retention.crashesTtlDays, now, parse);
            && referenced == Referenced(files, retention.crashesTtlDays, now, parse)
            && Unreferenced(files2, referenced) == Unreferenced(files, referenced)
            && files2 - Unreferenced(files2, referenced) == AfterCycle(files, retention, now, parse)
  {
    var logs := Expired(files, LOGS, "ndjson", retention.logsTtlDays, now);
    var indexes := Expired(files, BY_SOURCE, "json", retention.crashesTtlDays, now);
    DoomedApart(files, retention, now);
    ExpiredOfRest(files, logs, BY_SOURCE, "json", retention.crashesTtlDays, now);
    ReferencedByRest(files, logs, retention.crashesTtlDays, now, parse);
    assert files2 == files - (logs + indexes);
    UnreferencedInRest(files, logs + indexes, Referenced(files, retention.crashesTtlDays, now, parse));
  }

  lemma LogsUnblockNothing(files: Files, gone: set<Path>)
    requires forall p :: p in gone ==> LOGS <= p
    ensures Blocked(files - gone, BY_SOURCE) <==> Blocked(files, BY_SOURCE)
  {
    forall k | 0 <= k <= |BY_SOURCE| ensures BY_SOURCE[..k] in files - gone <==> BY_SOURCE[..k] in files {
      if k > 0 {
        assert BY_SOURCE[..k][0] == BY_SOURCE[0] != LOGS[0];
      }
    }
  }

  /** The outcome of a whole cycle: what it leaves, how many files of each kind it
      counts, and that the files and bytes before are those after plus those counted. */
  ghost predicate Cycled(files: Files, s0: Stats, retention: Retention, now: int, parse: Parser, after: Files,
                         s: Stats) {
    && after == AfterCycle(files, retention, now, parse)
    && s.logsDeleted == s0.logsDeleted + Total(files, Expired(files, LOGS, "ndjson", retention.logsTtlDays, now), false)
    && s.indexesDeleted ==
       s0.indexesDeleted + Total(files, Expired(files, BY_SOURCE, "json", retention.crashesTtlDays, now), false)
    && s.blobsDeleted ==
       s0.blobsDeleted
       + Total(files, Unreferenced(files, Referenced(files, retention.crashesTtlDays, now, parse)), false)
    && Balanced(files, s0, after, s)
  }

  lemma CycleComposes(files: Files, s0: Stats, files1: Files, s1: Stats, files2: Files, s2: Stats,
                      referenced: set<string>, files3: Files, s3: Stats, retention: Retention, now: int, parse: Parser)
    requires Removed(files, s0, Expired(files, LOGS, "ndjson", retention.logsTtlDays, now), LogKind, files1, s1)
    requires Removed(files1, s1, Expired(files1, BY_SOURCE, "json", retention.crashesTtlDays, now), IndexKind, files2,
                     s2)
    requires referenced == Referenced(files1, retention.crashesTtlDays, now, parse)
    requires Removed(files2, s2, Unreferenced(files2, referenced), BlobKind, files3, s3)
    ensures Cycled(files, s0, retention, now, parse, files3, s3)
  {
    PhasesCompose(files, files1, files2, retention, now, parse);
    ThreeRemovals(files, s0, Expired(files, LOGS, "ndjson", retention.logsTtlDays, now), files1, s1,
                  Expired(files1, BY_SOURCE, "json", retention.crashesTtlDays, now), files2, s2,
                  Unreferenced(files2, referenced), files3, s3);
    BalancedThrice(files, s0, files1, s1, files2, s2, files3, s3);
  }

  lemma ThreeRemovals(files: Files, s0: Stats, logs: set<Path>, files1: Files, s1: Stats, indexes: set<Path>,
                      files2: Files, s2: Stats, blobs: set<Path>, files3: Files, s3: Stats)
    requires Removed(files, s0, logs, LogKind, files1, s1)
    requires Removed(files1, s1, indexes, IndexKind, files2, s2) && Removed(files2, s2, blobs, BlobKind, files3, s3)
    ensures logs <= files.Keys && indexes <= files.Keys && blobs <= files.Keys
    ensures s3.logsDeleted == s0.logsDeleted + Total(files, logs, false)
    ensures s3.indexesDeleted == s0.indexesDeleted + Total(files, indexes, false)
    ensures s3.blobsDeleted == s0.blobsDeleted + Total(files, blobs, false)
  {
    SameTotal(files, logs, files1, indexes);
    SameTotal(files1, indexes, files2, blobs);
    SameTotal(files, logs, files1, blobs);
  }

  lemma SameTotal(files: Files, gone: set<Path>, rest: Files, paths: set<Path>)
    requires rest == files - gone && paths <= rest.Keys
    ensures paths <= files.Keys && Total(files, paths, false) == Total(rest, paths, false)
  {
    TotalAlike(files, rest, paths, false);
  }

  lemma BalancedThrice(a: Files, s: Stats, b: Files, t: Stats, c: Files, u: Stats, d: Files, v: Stats)
    requires Balanced(a, s, b, t) && Balanced(b, t, c, u) && Balanced(c, u, d, v)
    ensures Balanced(a, s, d, v)
  {
  }

  /** One retention pass, `None` where the source returns an error because a root is, or is below, a regular file. */
  method RunCycle(disk: Disk, retention: Retention, now: int, parse: Parser) returns (r: Option<Stats>)
    requires disk.Valid()
    modifies disk`files
    ensures disk.Valid()
    ensures r.None? <==>
            Blocked(old(disk.files), BY_HASH) || Blocked(old(disk.files), LOGS) || Blocked(old(disk.files), BY_SOURCE)
    ensures r.Some? ==> Cycled(old(disk.files), Stats(0, 0, 0, 0), retention, now, parse, disk.files, r.value)
    ensures r.None? ==>
              disk.files == if Blocked(old(disk.files), BY_HASH) || Blocked(old(disk.files), LOGS) then old(disk.files)
                            else old(disk.files) - Expired(old(disk.files), LOGS, "ndjson", retention.logsTtlDays, now)
  {
    r := RunPhases(disk, retention, now, parse, Stats(0, 0, 0, 0));
  }

  /** The phases of a pass, counting on from `stats`. */
  method RunPhases(disk: Disk, retention: Retention, now: int, parse: Parser, stats: Stats) returns (r: Option<Stats>)
    requires disk.Valid()
    modifies disk`files
    ensures disk.Valid()
    ensures r.None? <==>
            Blocked(old(disk.files), BY_HASH) || Blocked(old(disk.files), LOGS) || Blocked(old(disk.files), BY_SOURCE)
    ensures r.Some? ==> Cycled(old(disk.files), stats, retention, now, parse, disk.files, r.value)
    ensures r.None? ==>
              disk.files == if Blocked(old(disk.files), BY_HASH) || Blocked(old(disk.files), LOGS) then old(disk.files)
                            else old(disk.files) - Expired(old(disk.files), LOGS, "ndjson", retention.logsTtlDays, now)
  {
    ghost var files := disk.files;
    var snapshot :- SnapshotBlobs(disk);
    var pruned :- PruneLogs(disk, retention.logsTtlDays, now, stats);
    ghost var files1 := disk.files;
    LogsUnblockNothing(files, Expired(files, LOGS, "ndjson", retention.logsTtlDays, now));
    var walked :- PruneIndexesAndCollect(disk, retention.crashesTtlDays, now, parse, pruned);
    ghost var files2 := disk.files;
    PhasesCompose(files, files1, files2, retention, now, parse);
    var swept := SweepBlobs(disk, snapshot, walked.0, walked.1);
    CycleComposes(files, stats, files1, pruned, files2, walked.1, walked.0, disk.files, swept, retention, now, parse);
    r := Some(swept);
  }

  /** What a cycle on a quiet tree leaves: exactly the blobs that the remaining
      readable indexes refer to, no expired log or index, and every other file untouched. */
  lemma CycleExactly(files: Files, retention: Retention, now: int, parse: Parser, p: Path)
    ensures var after := AfterCycle(files, retention, now, parse);
            && after.Keys <= files.Keys && (p in after ==> after[p] == files[p])
            && (p in after <==>
                && p in files
                && (In(LOGS, "ndjson", p) ==> !Old(files[p], retention.logsTtlDays, now))
                && (In(BY_SOURCE, "json", p) ==> !Old(files[p], retention.crashesTtlDays, now))
                && (Blob(p) ==>
                      |Name(p)| >= 4 && BlobHash(p) in Referenced(after, retention.crashesTtlDays, now, parse)))
  {
    KeptSurvive(files, retention, now, parse);
    RootsApart(p);
    if Blob(p) {
      BlobSuffix(p);
    }
  }

  /** The file was last modified less than `days` days ago. */
  ghost predicate Within(f: File, days: nat, now: int) {
    days > 0 && now - f.mtime < days * 24 * 60 * 60
  }

  /** `p` is an index file that is to be kept, and names `h` as its dump or as one of its attachments. */
  ghost predicate Names(files: Files, days: nat, now: int, parse: Parser, p: Path, h: string) {
    && p in files && |p| > 2 && p[..2] == ["crashes", "by-source"] && Extension(p[|p| - 1]) == Some("json")
    && Within(files[p], days, now) && parse(files[p].bytes).Some?
    && (h == parse(files[p].bytes).value.dump || h in parse(files[p].bytes).value.attachments)
  }

  lemma InByParts(root: Path, extension: string, p: Path)
    requires |p| > |root|
    ensures In(root, extension, p) <==> p[..|root|] == root && Extension(p[|p| - 1]) == Some(extension)
  {
  }

  lemma NamesRefers(files: Files, days: nat, now: int, parse: Parser, p: Path, h: string)
    ensures Names(files, days, now, parse, p, h) <==> Kept(files, days, now, p) && h in RefsIn(parse, files[p])
  {
    if |p| > 2 {
      InByParts(BY_SOURCE, "json", p);
    } else if BY_SOURCE <= p {
      assert p == BY_SOURCE && Name(p) == "by-source" && '.' !in Name(p);
    }
  }

  /** A blob file outlives the cycle if and only if some index that is kept, and
      itself outlives the cycle, names it as its dump or as an attachment. */
  lemma BlobStaysExactlyWhen(files: Files, retention: Retention, now: int, parse: Parser, p: Path, h: string)
    requires p in files && |p| > 2 && p[..2] == ["crashes", "by-hash"] && p[|p| - 1] == h + ".bin" && h != ""
    ensures var after := AfterCycle(files, retention, now, parse);
            && (p in after <==> exists q :: Names(files, retention.crashesTtlDays, now, parse, q, h))
            && (forall q :: Names(files, retention.crashesTtlDays, now, parse, q, h) ==> q in after)
  {
    assert p[|p| - 1] == h + "." + "bin" && BlobHash(p) == h;
    ExtensionOf(h, "bin");
    InByParts(BY_HASH, "bin", p);
    var days := retention.crashesTtlDays;
    CycleExactly(files, retention, now, parse, p);
    KeptSurvive(files, retention, now, parse);
    RootsApart(p);
    if h in Referenced(files, days, now, parse) {
      var q :| q in files && Kept(files, days, now, q) && h in RefsIn(parse, files[q]);
      NamesRefers(files, days, now, parse, q, h);
    }
    forall q | Names(files, days, now, parse, q, h)
      ensures q in AfterCycle(files, retention, now, parse) && h in Referenced(files, days, now, parse)
    {
      NamesRefers(files, days, now, parse, q, h);
      CycleExactly(files, retention, now, parse, q);
      RootsApart(q);
    }
  }

  /** The index of an upload outlives the cycle if and only if it is younger than the retention. */
  lemma IndexStaysExactlyWhen(files: Files, retention: Retention, now: int, parse: Parser, source: SourceKey,
                              timestamp: string, h: string)
    requires IndexPath(source, timestamp, h) in files
    ensures var p := IndexPath(source, timestamp, h);
            p in AfterCycle(files, retention, now, parse) <==> Within(files[p], retention.crashesTtlDays, now)
  {
    var p, stem := IndexPath(source, timestamp, h), timestamp + "-" + h;
    assert p[4] == stem + "." + "json";
    ExtensionOf(stem, "json");
    InByParts(BY_SOURCE, "json", p);
    CycleExactly(files, retention, now, parse, p);
    RootsApart(p);
  }

  /** So does a daily log file, `date` being its day. */
  lemma LogStaysExactlyWhen(files: Files, retention: Retention, now: int, parse: Parser, source: SourceKey,
                            date: string)
    requires LogPath(source, date) in files && date != ""
    ensures var p := LogPath(source, date);
            p in AfterCycle(files, retention, now, parse) <==> Within(files[p], retention.logsTtlDays, now)
  {
    var p := LogPath(source, date);
    assert p[3] == date + "." + "ndjson";
    ExtensionOf(date, "ndjson");
    InByParts(LOGS, "ndjson", p);
    CycleExactly(files, retention, now, parse, p);
    RootsApart(p);
  }

  lemma KeptSurvive(files: Files, retention: Retention, now: int, parse: Parser)
    ensures Referenced(AfterCycle(files, retention, now, parse), retention.crashesTtlDays, now, parse) ==
            Referenced(files, retention.crashesTtlDays, now, parse)
  {
    var ttl := retention.crashesTtlDays;
    var logs := Expired(files, LOGS, "ndjson", retention.logsTtlDays, now);
    var indexes := Expired(files, BY_SOURCE, "json", ttl, now);
    var blobs := Unreferenced(files, Referenced(files, ttl, now, parse));
    DoomedApart(files, retention, now);
    forall p | p in blobs ensures !Kept(files, ttl, now, p) {
      RootsApart(p);
    }
    ReferencedByRest(files, logs + indexes + blobs, ttl, now, parse);
    assert AfterCycle(files, retention, now, parse) == files - (logs + indexes + blobs);
  }

  lemma NoneExpired(files: Files, after: Files, retention: Retention, now: int, parse: Parser)
    requires after == AfterCycle(files, retention, now, parse)
    ensures Expired(after, LOGS, "ndjson", retention.logsTtlDays, now) == {}
    ensures Expired(after, BY_SOURCE, "json", retention.crashesTtlDays, now) == {}
  {
    forall p | p in after
      ensures p !in Expired(after, LOGS, "ndjson", retention.logsTtlDays, now)
      ensures p !in Expired(after, BY_SOURCE, "json", retention.crashesTtlDays, now)
    {
      CycleExactly(files, retention, now, parse, p);
    }
  }

  lemma NoneUnreferenced(files: Files, after: Files, retention: Retention, now: int, parse: Parser)
    requires after == AfterCycle(files, retention, now, parse)
    ensures Unreferenced(after, Referenced(after, retention.crashesTtlDays, now, parse)) == {}
  {
    var referenced := Referenced(after, retention.crashesTtlDays, now, parse);
    forall p | p in after ensures p !in Unreferenced(after, referenced) {
      CycleExactly(files, retention, now, parse, p);
    }
  }

  lemma NothingDoomed(files: Files, retention: Retention, now: int, parse: Parser)
    requires Expired(files, LOGS, "ndjson", retention.logsTtlDays, now) == {}
    requires Expired(files, BY_SOURCE, "json", retention.crashesTtlDays, now) == {}
    requires Unreferenced(files, Referenced(files, retention.crashesTtlDays, now, parse)) == {}
    ensures AfterCycle(files, retention, now, parse) == files
  {
    assert files - {} == files;
  }

  /** A second cycle at the same clock removes nothing. */
  lemma SecondCycleIdle(files: Files, after: Files, retention: Retention, now: int, parse: Parser)
    requires after == AfterCycle(files, retention, now, parse)
    ensures AfterCycle(after, retention, now, parse) == after
  {
    NoneExpired(files, after, retention, now, parse);
    NoneUnreferenced(files, after, retention, now, parse);
    NothingDoomed(after, retention, now, parse);
  }

  /** A cycle that removed nothing counted nothing. */
  lemma IdleCountsNothing(files: Files, s0: Stats, s: Stats)
    requires Balanced(files, s0, files, s)
    ensures s.Deleted() == s0.Deleted() && s.bytesFreed == s0.bytesFreed
  {
  }

  lemma EmptyPhases(files: Files, s0: Stats, after: Files, s: Stats, retention: Retention, now: int, parse: Parser)
    requires Cycled(files, s0, retention, now, parse, after, s)
    requires Expired(files, LOGS, "ndjson", retention.logsTtlDays, now) == {}
    requires Expired(files, BY_SOURCE, "json", retention.crashesTtlDays, now) == {}
    requires Unreferenced(files, Referenced(files, retention.crashesTtlDays, now, parse)) == {}
    ensures s.logsDeleted == s0.logsDeleted && s.indexesDeleted == s0.indexesDeleted
            && s.blobsDeleted == s0.blobsDeleted
  {
  }

  /** So a second cycle at the same clock leaves the tree and reports nothing. */
  lemma SecondCycleReportsNothing(files: Files, after: Files, s0: Stats, again: Files, s: Stats, retention: Retention,
                                  now: int, parse: Parser)
    requires after == AfterCycle(files, retention, now, parse) && Cycled(after, s0, retention, now, parse, again, s)
    ensures again == after && s == s0
  {
    SecondCycleIdle(files, after, retention, now, parse);
    NoneExpired(files, after, retention, now, parse);
    NoneUnreferenced(files, after, retention, now, parse);
    EmptyPhases(after, s0, again, s, retention, now, parse);
    IdleCountsNothing(after, s0, s);
  }
}

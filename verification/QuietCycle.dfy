/**
 A retention pass that nothing interrupts, as a run of the protocol of
 `BlobStore`, and as the pass over a directory tree of `Janitor`.
 */
module QuietCycle {
  import opened Wrappers
  import opened Storage
  import opened Text
  import opened Disk
  import J = Janitor
  import opened BlobStore

  // ----------------------------------------------------------- in the protocol

  function Young(env: Env, s: State, p: Path): bool
    requires p in s.indexes
  {
    !Expired(env, s.indexes[p].mtime, s.now)
  }

  function RefsAt(s: State, p: Path): set<Hash>
    requires p in s.indexes
  {
    if s.indexes[p].body.Some? then Refs(s.indexes[p].body.value) else {}
  }

  /** The digests that the indexes to be kept refer to. */
  ghost function LiveRefs(env: Env, s: State): set<Hash> {
    set p, h | p in s.indexes && Young(env, s, p) && h in RefsAt(s, p) :: h
  }

  /** What an undisturbed cycle leaves. */
  ghost function Swept(env: Env, s: State): State {
    s.(indexes := map p | p in s.indexes && Young(env, s, p) :: s.indexes[p],
       blobs := map h | h in s.blobs && h in LiveRefs(env, s) :: s.blobs[h])
  }

  lemma {:induction false} SeeBlobs(env: Env, s: State, es: seq<Event>, open: set<Hash>, seen: set<Hash>,
                                    rest: set<Hash>)
      returns (es': seq<Event>)
    requires Run(env, s, es) == Some(s.(janitor := Snapshotting(open, seen))) && rest <= s.blobs.Keys
    ensures es <= es' && Run(env, s, es') == Some(s.(janitor := Snapshotting(open, seen + rest)))
    decreases rest
  {
    if rest == {} {
      es' := es;
      assert seen + rest == seen;
    } else {
      var h :| h in rest;
      es' := Then(env, s, es, SeeBlob(h), s.(janitor := Snapshotting(open, seen + {h})));
      es' := SeeBlobs(env, s, es', open, seen + {h}, rest - {h});
      assert seen + {h} + (rest - {h}) == seen + rest;
    }
  }

  lemma {:induction false} SeeIndexes(env: Env, s: State, es: seq<Event>, snapshot: set<Hash>, open: set<Path>,
                                      seen: set<Path>, rest: set<Path>)
      returns (es': seq<Event>)
    requires Run(env, s, es) == Some(s.(janitor := Listing(snapshot, open, seen))) && rest <= s.indexes.Keys
    ensures es <= es' && Run(env, s, es') == Some(s.(janitor := Listing(snapshot, open, seen + rest)))
    decreases rest
  {
    if rest == {} {
      es' := es;
      assert seen + rest == seen;
    } else {
      var p :| p in rest;
      es' := Then(env, s, es, SeeIndex(p), s.(janitor := Listing(snapshot, open, seen + {p})));
      es' := SeeIndexes(env, s, es', snapshot, open, seen + {p}, rest - {p});
      assert seen + {p} + (rest - {p}) == seen + rest;
    }
  }

  /** The walk with `todo` before it: the other expired indexes are gone, and the
      digests of the other young ones are collected. */
  ghost predicate Walked(env: Env, s: State, todo: set<Path>, indexes: map<Path, IndexFile>, referenced: set<Hash>) {
    && todo <= s.indexes.Keys
    && (forall p :: p in indexes <==> p in s.indexes && (p in todo || Young(env, s, p)))
    && (forall p :: p in indexes ==> indexes[p] == s.indexes[p])
    && (forall h :: h in referenced <==>
          exists p :: p in s.indexes && p !in todo && Young(env, s, p) && h in RefsAt(s, p))
  }

  lemma WalkedNext(env: Env, s: State, todo: set<Path>, indexes: map<Path, IndexFile>, referenced: set<Hash>, p: Path)
    requires Walked(env, s, todo, indexes, referenced) && p in todo
    ensures p in indexes && indexes[p] == s.indexes[p]
    ensures Young(env, s, p) ==> Walked(env, s, todo - {p}, indexes, referenced + RefsAt(s, p))
    ensures !Young(env, s, p) ==> Walked(env, s, todo - {p}, indexes - {p}, referenced)
  {
  }

  function At(s: State, indexes: map<Path, IndexFile>, snapshot: set<Hash>, todo: set<Path>, walk: Walk,
              referenced: set<Hash>): State {
    s.(indexes := indexes, janitor := Walking(snapshot, todo, walk, referenced))
  }

  lemma {:induction false} Walks(env: Env, s: State, es: seq<Event>, snapshot: set<Hash>, todo: set<Path>,
                                 indexes: map<Path, IndexFile>, referenced: set<Hash>)
      returns (es': seq<Event>, indexes': map<Path, IndexFile>, referenced': set<Hash>)
    requires Walked(env, s, todo, indexes, referenced)
    requires Run(env, s, es) == Some(At(s, indexes, snapshot, todo, Next, referenced))
    ensures es <= es' && Walked(env, s, {}, indexes', referenced')
    ensures Run(env, s, es') == Some(At(s, indexes', snapshot, {}, Next, referenced'))
    decreases todo
  {
    if todo == {} {
      es', indexes', referenced' := es, indexes, referenced;
    } else {
      var p :| p in todo;
      WalkedNext(env, s, todo, indexes, referenced, p);
      es' := WalksOne(env, s, es, snapshot, todo, indexes, referenced, p);
      if Young(env, s, p) {
        es', indexes', referenced' := Walks(env, s, es', snapshot, todo - {p}, indexes, referenced + RefsAt(s, p));
      } else {
        es', indexes', referenced' := Walks(env, s, es', snapshot, todo - {p}, indexes - {p}, referenced);
      }
    }
  }

  lemma WalksOne(env: Env, s: State, es: seq<Event>, snapshot: set<Hash>, todo: set<Path>,
                 indexes: map<Path, IndexFile>, referenced: set<Hash>, p: Path) returns (es': seq<Event>)
    requires p in todo && p in s.indexes && p in indexes && indexes[p] == s.indexes[p]
    requires Run(env, s, es) == Some(At(s, indexes, snapshot, todo, Next, referenced))
    ensures es <= es'
    ensures Run(env, s, es') ==
            if Young(env, s, p) then Some(At(s, indexes, snapshot, todo - {p}, Next, referenced + RefsAt(s, p)))
            else Some(At(s, indexes - {p}, snapshot, todo - {p}, Next, referenced))
  {
    if Young(env, s, p) {
      es' := Then(env, s, es, Fresh(p), At(s, indexes, snapshot, todo - {p}, Read(p), referenced));
      es' := Then(env, s, es', Collected(p), At(s, indexes, snapshot, todo - {p}, Next, referenced + RefsAt(s, p)));
    } else {
      es' := Then(env, s, es, Old(p), At(s, indexes, snapshot, todo - {p}, Unlink(p), referenced));
      es' := Then(env, s, es', Unlinked(p), At(s, indexes - {p}, snapshot, todo - {p}, Next, referenced));
    }
  }

  function Clear(blobs: map<Hash, Bytes>, left: set<Hash>, referenced: set<Hash>): map<Hash, Bytes> {
    map h | h in blobs && (h in left ==> h in referenced) :: blobs[h]
  }

  lemma {:induction false} Sweeps(env: Env, s0: State, s: State, es: seq<Event>, snapshot: set<Hash>,
                                  referenced: set<Hash>, left: set<Hash>)
      returns (es': seq<Event>)
    requires Run(env, s0, es) == Some(s.(janitor := Sweeping(snapshot, referenced, left))) && left <= s.blobs.Keys
    ensures es <= es'
    ensures Run(env, s0, es') ==
            Some(s.(blobs := Clear(s.blobs, left, referenced), janitor := Sweeping(snapshot, referenced, {})))
    decreases left
  {
    if left == {} {
      es' := es;
      assert Clear(s.blobs, left, referenced) == s.blobs;
    } else {
      var h :| h in left;
      if h in referenced {
        es' := Then(env, s0, es, Spare(h), s.(janitor := Sweeping(snapshot, referenced, left - {h})));
        es' := Sweeps(env, s0, s, es', snapshot, referenced, left - {h});
        assert Clear(s.blobs, left - {h}, referenced) == Clear(s.blobs, left, referenced);
      } else {
        var s' := s.(blobs := s.blobs - {h});
        es' := Then(env, s0, es, Remove(h), s'.(janitor := Sweeping(snapshot, referenced, left - {h})));
        es' := Sweeps(env, s0, s', es', snapshot, referenced, left - {h});
        assert Clear(s'.blobs, left - {h}, referenced) == Clear(s.blobs, left, referenced);
      }
    }
  }

  lemma Snapshots(env: Env, s: State) returns (es: seq<Event>)
    requires s.janitor.Idle?
    ensures es != [] && es[0] == OpenBlobs && Run(env, s, es) == Some(s.(janitor := Pruning(s.blobs.Keys)))
  {
    var none: set<Hash>, hashes := {}, s.blobs.Keys;
    es := Then(env, s, [], OpenBlobs, s.(janitor := Snapshotting(hashes, none)));
    es := SeeBlobs(env, s, es, hashes, none, hashes);
    assert none + hashes == hashes;
    es := Then(env, s, es, CloseBlobs, s.(janitor := Pruning(hashes)));
  }

  lemma Lists(env: Env, s: State, es: seq<Event>, snapshot: set<Hash>) returns (es': seq<Event>)
    requires Run(env, s, es) == Some(s.(janitor := Pruning(snapshot)))
    ensures es <= es' && Run(env, s, es') == Some(At(s, s.indexes, snapshot, s.indexes.Keys, Next, {}))
  {
    var none: set<Path>, paths := {}, s.indexes.Keys;
    es' := Then(env, s, es, OpenIndexes, s.(janitor := Listing(snapshot, paths, none)));
    es' := SeeIndexes(env, s, es', snapshot, paths, none, paths);
    assert none + paths == paths;
    es' := Then(env, s, es', CloseIndexes, At(s, s.indexes, snapshot, paths, Next, {}));
  }

  lemma WalkedAll(env: Env, s: State, indexes: map<Path, IndexFile>, referenced: set<Hash>)
    requires Walked(env, s, {}, indexes, referenced)
    ensures indexes == Swept(env, s).indexes && referenced == LiveRefs(env, s)
  {
  }

  lemma SweptAll(env: Env, s: State, referenced: set<Hash>)
    requires referenced == LiveRefs(env, s)
    ensures Clear(s.blobs, s.blobs.Keys, referenced) == Swept(env, s).blobs
  {
  }

  /** An undisturbed cycle can always run from its beginning to its end, and this
      is what it leaves. */
  lemma CycleRuns(env: Env, s: State) returns (es: seq<Event>)
    requires s.janitor.Idle?
    ensures es != [] && es[0] == OpenBlobs && es[|es| - 1] == Finish
    ensures Run(env, s, es) == Some(Swept(env, s))
  {
    var hashes := s.blobs.Keys;
    es := Snapshots(env, s);
    es := Lists(env, s, es, hashes);
    assert Walked(env, s, s.indexes.Keys, s.indexes, {});
    var indexes, referenced;
    es, indexes, referenced := Walks(env, s, es, hashes, s.indexes.Keys, s.indexes, {});
    WalkedAll(env, s, indexes, referenced);
    es := EndsWalk(env, s, es, indexes, referenced);
  }

  lemma EndsWalk(env: Env, s: State, es: seq<Event>, indexes: map<Path, IndexFile>, referenced: set<Hash>)
    returns (es': seq<Event>)
    requires s.janitor.Idle? && indexes == Swept(env, s).indexes && referenced == LiveRefs(env, s)
    requires es != [] && Run(env, s, es) == Some(At(s, indexes, s.blobs.Keys, {}, Next, referenced))
    ensures es <= es' && es'[|es'| - 1] == Finish && Run(env, s, es') == Some(Swept(env, s))
  {
    var hashes, t := s.blobs.Keys, s.(indexes := indexes);
    es' := Then(env, s, es, CloseWalk, t.(janitor := Sweeping(hashes, referenced, hashes)));
    es' := Sweeps(env, s, t, es', hashes, referenced, hashes);
    SweptAll(env, s, referenced);
    es' := Then(env, s, es', Finish, Swept(env, s));
  }

  // ----------------------------------------------------------- on the directory tree

  lemma BlobPathNames(h: Hash)
    requires |h| >= 2
    ensures J.Blob(BlobPath(h)) && |Name(BlobPath(h))| >= 4 && J.BlobHash(BlobPath(h)) == h
  {
    assert Name(BlobPath(h)) == h + ".bin" == h + "." + "bin";
    ExtensionOf(h, "bin");
    assert BY_HASH <= BlobPath(h);
  }

  /** Blob files are where the server puts them, and they are the blobs. */
  ghost predicate ShowsBlobs(files: Files, blobs: map<Hash, Bytes>) {
    && (forall p :: p in files && J.Blob(p) ==> |Name(p)| >= 6 && p == BlobPath(J.BlobHash(p)))
    && (forall h :: h in blobs <==> |h| >= 2 && BlobPath(h) in files)
    && (forall h :: h in blobs ==> blobs[h] == files[BlobPath(h)].bytes)
  }

  /** The file parses to the digests of the dump and of the attachments, in order. */
  ghost predicate ShowsIndex(parse: J.Parser, f: File, index: IndexFile) {
    && index.mtime == f.mtime && (parse(f.bytes).Some? <==> index.body.Some?)
    && (index.body.Some? ==>
          var found, body := parse(f.bytes).value, index.body.value;
          && found.dump == body.dump.sha256 && |found.attachments| == |body.attachments|
          && forall i :: 0 <= i < |body.attachments| ==> found.attachments[i] == body.attachments[i].sha256)
  }

  lemma ShowsRefs(parse: J.Parser, f: File, index: IndexFile)
    requires ShowsIndex(parse, f, index)
    ensures J.RefsIn(parse, f) == if index.body.Some? then Refs(index.body.value) else {}
  {
    if index.body.Some? {
      var found, body := parse(f.bytes).value, index.body.value;
      forall h ensures h in found.attachments <==> exists a :: a in body.attachments && a.sha256 == h {
        if h in found.attachments {
          var i :| 0 <= i < |found.attachments| && found.attachments[i] == h;
          assert body.attachments[i] in body.attachments;
        }
        if a :| a in body.attachments && a.sha256 == h {
          var i :| 0 <= i < |body.attachments| && body.attachments[i] == a;
          assert found.attachments[i] == h;
        }
      }
    }
  }

  /** The index files are the indexes, and refer to the same digests. */
  ghost predicate ShowsIndexes(files: Files, parse: J.Parser, indexes: map<Path, IndexFile>) {
    && (forall p :: p in indexes <==> p in files && J.In(BY_SOURCE, "json", p))
    && (forall p :: p in indexes ==> ShowsIndex(parse, files[p], indexes[p]))
  }

  ghost predicate Shows(files: Files, parse: J.Parser, s: State) {
    ShowsBlobs(files, s.blobs) && ShowsIndexes(files, parse, s.indexes)
  }

  lemma SameAt(env: Env, files: Files, parse: J.Parser, s: State, p: Path)
    requires ShowsIndexes(files, parse, s.indexes)
    ensures p in s.indexes && Young(env, s, p) <==> p in files && J.Kept(files, env.ttlDays, s.now, p)
    ensures p in s.indexes ==> p in files && RefsAt(s, p) == J.RefsIn(parse, files[p])
  {
    if p in s.indexes {
      assert ShowsIndex(parse, files[p], s.indexes[p]);
      ShowsRefs(parse, files[p], s.indexes[p]);
    }
  }

  lemma SameRef(env: Env, files: Files, parse: J.Parser, s: State, h: Hash)
    requires ShowsIndexes(files, parse, s.indexes)
    ensures h in LiveRefs(env, s) <==> h in J.Referenced(files, env.ttlDays, s.now, parse)
  {
    if h in LiveRefs(env, s) {
      var p :| p in s.indexes && Young(env, s, p) && h in RefsAt(s, p);
      SameAt(env, files, parse, s, p);
    }
    if h in J.Referenced(files, env.ttlDays, s.now, parse) {
      var p :| p in files && J.Kept(files, env.ttlDays, s.now, p) && h in J.RefsIn(parse, files[p]);
      SameAt(env, files, parse, s, p);
    }
  }

  lemma ShowsIndexesAfter(env: Env, files: Files, retention: J.Retention, parse: J.Parser, s: State)
    requires ShowsIndexes(files, parse, s.indexes) && env.ttlDays == retention.crashesTtlDays
    ensures ShowsIndexes(J.AfterCycle(files, retention, s.now, parse), parse, Swept(env, s).indexes)
  {
    var after, indexes := J.AfterCycle(files, retention, s.now, parse), Swept(env, s).indexes;
    forall p ensures p in indexes <==> p in after && J.In(BY_SOURCE, "json", p) {
      J.CycleExactly(files, retention, s.now, parse, p);
      J.RootsApart(p);
    }
    forall p | p in indexes ensures ShowsIndex(parse, after[p], indexes[p]) {
      J.CycleExactly(files, retention, s.now, parse, p);
      assert ShowsIndex(parse, files[p], s.indexes[p]);
    }
  }

  lemma BlobStays(env: Env, files: Files, retention: J.Retention, parse: J.Parser, s: State, h: Hash)
    requires ShowsIndexes(files, parse, s.indexes) && env.ttlDays == retention.crashesTtlDays && |h| >= 2
    ensures var after := J.AfterCycle(files, retention, s.now, parse);
            BlobPath(h) in after <==> BlobPath(h) in files && h in LiveRefs(env, s)
  {
    BlobPathNames(h);
    SameRef(env, files, parse, s, h);
    J.CycleExactly(files, retention, s.now, parse, BlobPath(h));
    J.KeptSurvive(files, retention, s.now, parse);
    J.RootsApart(BlobPath(h));
  }

  lemma BlobShown(env: Env, files: Files, retention: J.Retention, parse: J.Parser, s: State, h: Hash)
    requires Shows(files, parse, s) && env.ttlDays == retention.crashesTtlDays
    ensures var after, blobs := J.AfterCycle(files, retention, s.now, parse), Swept(env, s).blobs;
            && (h in blobs <==> |h| >= 2 && BlobPath(h) in after)
            && (h in blobs ==> blobs[h] == after[BlobPath(h)].bytes)
  {
    if |h| >= 2 {
      BlobStays(env, files, retention, parse, s, h);
      J.CycleExactly(files, retention, s.now, parse, BlobPath(h));
    }
  }

  lemma ShowsBlobsAfter(env: Env, files: Files, retention: J.Retention, parse: J.Parser, s: State)
    requires Shows(files, parse, s) && env.ttlDays == retention.crashesTtlDays
    ensures ShowsBlobs(J.AfterCycle(files, retention, s.now, parse), Swept(env, s).blobs)
  {
    var after, blobs := J.AfterCycle(files, retention, s.now, parse), Swept(env, s).blobs;
    assert after.Keys <= files.Keys;
    forall h
      ensures (h in blobs <==> |h| >= 2 && BlobPath(h) in after)
      ensures h in blobs ==> blobs[h] == after[BlobPath(h)].bytes
    {
      BlobShown(env, files, retention, parse, s, h);
    }
  }

  /** What `Janitor.RunCycle` does to a quiet tree is a run of the protocol from the
      snapshot to the end of the sweep: if the tree shows the state before, the
      tree it leaves shows the state after. */
  lemma PassIsARun(env: Env, files: Files, retention: J.Retention, parse: J.Parser, s: State)
    returns (es: seq<Event>, s': State)
    requires Shows(files, parse, s) && s.janitor.Idle? && env.ttlDays == retention.crashesTtlDays
    ensures es != [] && es[0] == OpenBlobs && es[|es| - 1] == Finish && Run(env, s, es) == Some(s')
    ensures Shows(J.AfterCycle(files, retention, s.now, parse), parse, s') && s'.janitor.Idle?
  {
    es := CycleRuns(env, s);
    s' := Swept(env, s);
    ShowsBlobsAfter(env, files, retention, parse, s);
    ShowsIndexesAfter(env, files, retention, parse, s);
  }
}

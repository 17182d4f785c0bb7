/** Storage layout of the server: source keys and the paths derived from them. */
module Storage {
  import opened Wrappers
  import Text

  /** A path below the data directory, one string per component. */
  type Path = seq<string>

  datatype SourceKey = SourceKey(project: string, sourceId: string)

  datatype StorageError = InvalidComponent(name: string, value: string)

  predicate ValidComponent(value: string) {
    value != "" && value != "." && value != ".." && '/' !in value && '\\' !in value
  }

  function ValidateComponent(name: string, value: string): Result<(), StorageError> {
    if ValidComponent(value) then Ok(()) else Err(InvalidComponent(name, value))
  }

  predicate ValidSource(key: SourceKey) {
    ValidComponent(key.project) && ValidComponent(key.sourceId)
  }

  /** `SourceKey::new`: the first invalid component is the one reported. */
  function NewSourceKey(project: string, sourceId: string): (r: Result<SourceKey, StorageError>)
    ensures r.Ok? <==> ValidComponent(project) && ValidComponent(sourceId)
    ensures r.Ok? ==> r.value.project == project && r.value.sourceId == sourceId
    ensures !ValidComponent(project) ==> r == Err(InvalidComponent("project", project))
    ensures ValidComponent(project) && !ValidComponent(sourceId) ==> r == Err(InvalidComponent("source_id", sourceId))
  {
    var _ :- ValidateComponent("project", project);
    var _ :- ValidateComponent("source_id", sourceId);
    Ok(SourceKey(project, sourceId))
  }

  /** Where a path leads: empty and dot components stay, two dots go up. */
  function Resolve(p: Path): Path {
    if p == [] then []
    else
      var base, last := Resolve(p[..|p| - 1]), p[|p| - 1];
      if last == "" || last == "." then base
      else if last == ".." then (if base == [] then [] else base[..|base| - 1])
      else base + [last]
  }

  /** Below every directory it leads to the entry of that name, on systems with
      either separator. */
  ghost predicate LeadsToItself(value: string) {
    && Text.SplitOn(value, "/") == [value] && Text.SplitOn(value, "\\") == [value]
    && forall base: Path :: Resolve(base + [value]) == Resolve(base) + [value]
  }

  lemma OnePiece(value: string, c: char)
    ensures Text.SplitOn(value, [c]) == [value] <==> c !in value
  {
    var r := Text.Find(value, [c], 0);
    if c in value {
      var k :| 0 <= k < |value| && value[k] == c;
      assert Text.At(value, [c], k);
    }
    if r.Some? {
      assert value[r.value..r.value + 1] == [c] && value[r.value] == c;
    }
  }

  /** The validation lets exactly such components through. */
  lemma ValidExactlyWhen(value: string)
    ensures ValidComponent(value) <==> LeadsToItself(value)
  {
    OnePiece(value, '/');
    OnePiece(value, '\\');
    forall base: Path ensures (base + [value])[..|base|] == base && (base + [value])[|base|] == value {
    }
    if LeadsToItself(value) {
      assert Resolve([] + [value]) == Resolve([]) + [value] == [value];
      assert ([] + [value])[..0] == [];
    }
  }

  /** So the files of a valid source stay in its directory. */
  lemma SourceStaysInside(source: SourceKey, root: Path)
    requires ValidSource(source) && Resolve(root) == root
    ensures Resolve(root + [source.project, source.sourceId]) == root + [source.project, source.sourceId]
  {
    ValidExactlyWhen(source.project);
    ValidExactlyWhen(source.sourceId);
    var p := root + [source.project];
    assert root + [source.project, source.sourceId] == p + [source.sourceId];
  }

  function Canonical(key: SourceKey): string {
    key.project + "/" + key.sourceId
  }

  /** Splitting `a + [sep] + b` at its first `sep` determines both sides. */
  lemma FirstSeparatorUnique(a: string, b: string, c: string, d: string, sep: char)
    requires sep !in a && sep !in c
    requires a + [sep] + b == c + [sep] + d
    ensures a == c && b == d
  {
    var s := a + [sep] + b;
    assert s[|a|] == sep && (c + [sep] + d)[|c|] == sep;
    assert forall k | 0 <= k < |a| :: s[k] == a[k] && a[k] in a;
    assert forall k | 0 <= k < |c| :: s[k] == c[k] && c[k] in c;
    assert a == s[..|a|] && c == s[..|a|];
    assert b == s[|a| + 1..] && d == s[|a| + 1..];
  }

  /** Valid source keys are determined by their canonical text. */
  lemma CanonicalInjective(j: SourceKey, k: SourceKey)
    requires ValidSource(j) && ValidSource(k)
    requires Canonical(j) == Canonical(k)
    ensures j == k
  {
    FirstSeparatorUnique(j.project, j.sourceId, k.project, k.sourceId, '/');
  }

  /** Without validation two different sources share one canonical text. */
  lemma CanonicalNotInjectiveUnvalidated()
    ensures exists j: SourceKey, k: SourceKey :: j != k && Canonical(j) == Canonical(k)
  {
    var j, k := SourceKey("a", "b/c"), SourceKey("a/b", "c");
    assert Canonical(j) == "a/b/c" == Canonical(k);
    assert j != k;
  }

  const LOGS: Path := ["logs"]
  const BY_HASH: Path := ["crashes", "by-hash"]
  const BY_SOURCE: Path := ["crashes", "by-source"]

  function BlobPath(sha256: string): Path
    requires |sha256| >= 2
  {
    BY_HASH + [sha256[..2], sha256 + ".bin"]
  }

  function IndexPath(source: SourceKey, timestamp: string, sha256: string): Path {
    BY_SOURCE + [source.project, source.sourceId, timestamp + "-" + sha256 + ".json"]
  }

  function LogPath(source: SourceKey, date: string): Path {
    LOGS + [source.project, source.sourceId, date + ".ndjson"]
  }

  /** The layout of the data directory, name for name. */
  lemma Layout(source: SourceKey, date: string, timestamp: string, sha256: string)
    requires |sha256| >= 2
    ensures Canonical(source) == source.project + "/" + source.sourceId
    ensures LogPath(source, date) == ["logs", source.project, source.sourceId, date + ".ndjson"]
    ensures BlobPath(sha256) == ["crashes", "by-hash", sha256[..2], sha256 + ".bin"]
    ensures IndexPath(source, timestamp, sha256) ==
            ["crashes", "by-source", source.project, source.sourceId, timestamp + "-" + sha256 + ".json"]
  {
  }

  /** The index path identifies source, timestamp and dump hash, because all
      digests have one length; nothing else enters it. */
  lemma IndexPathInjective(s: SourceKey, t: string, h: string, s': SourceKey, t': string, h': string)
    requires |h| == |h'|
    requires IndexPath(s, t, h) == IndexPath(s', t', h')
    ensures s == s' && t == t' && h == h'
  {
    var p, p' := IndexPath(s, t, h), IndexPath(s', t', h');
    assert p[2] == p'[2] && p[3] == p'[3] && p[4] == p'[4];
    var n, n' := t + "-" + h + ".json", t' + "-" + h' + ".json";
    assert n == n' && |t| == |t'|;
    assert t == n[..|t|] && t' == n'[..|t|];
    assert h == n[|t| + 1..|t| + 1 + |h|] && h' == n'[|t| + 1..|t| + 1 + |h|];
  }

  lemma BlobPathInjective(h: string, h': string)
    requires |h| >= 2 && |h'| >= 2 && BlobPath(h) == BlobPath(h')
    ensures h == h'
  {
    assert BlobPath(h)[3] == BlobPath(h')[3];
    assert h == (h + ".bin")[..|h + ".bin"| - 4] && h' == (h' + ".bin")[..|h' + ".bin"| - 4];
  }
}
